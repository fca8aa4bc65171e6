/**
  The Internet checksum (RFC 1071) as the e1000 inserts it: a 32-bit sum of big-endian words, folded
  to 16 bits and complemented.
 */
module InternetChecksum {
  import opened Bytes
  import opened Common

  const ONES := 0xffff

  /** The weight of the byte at position i of the summed range. */
  function Weight(i: nat): nat { if i % 2 == 0 then 256 else 1 }

  /** Sum of the words of b, without carry handling; `from` is the position of b[0]. */
  ghost function Sum(b: seq<Byte>, from: nat): (s: nat)
    ensures s <= |b| * 0xff00
  {
    if b == [] then 0 else
      var x: nat := b[|b| - 1];
      assert x * Weight(from + |b| - 1) <= 0xff00;
      Sum(b[..|b| - 1], from) + x * Weight(from + |b| - 1)
  }

  lemma SumSnoc(b: seq<Byte>, x: Byte, from: nat)
    ensures Sum(b + [x], from) == Sum(b, from) + (var v: nat := x; v * Weight(from + |b|))
  {
    assert (b + [x])[..|b|] == b;
  }

  /** End-around carry folding. */
  ghost function Fold(s: nat): (r: nat)
    ensures r < W16 && r % ONES == s % ONES && (r == 0 <==> s == 0)
  {
    if s < W16 then s
    else
      FoldStep(s);
      Fold(s % W16 + s / W16)
  }

  lemma FoldStep(s: nat)
    requires s >= W16
    ensures 0 < s % W16 + s / W16 < s && (s % W16 + s / W16) % ONES == s % ONES
  {
    var q, r := s / W16, s % W16;
    assert s == q * ONES + (q + r);
    var a := (q + r) / ONES;
    DivIs(q + r, ONES, a);
    DivIs(s, ONES, q + a);
  }

  /** A folded sum is all ones exactly when the sum is a positive multiple of 2^16 - 1. */
  lemma FoldIsOnes(s: nat)
    ensures Fold(s) == ONES <==> s > 0 && s % ONES == 0
  {}

  /** net_checksum_add_cont on data[start..start + len], in 32-bit arithmetic; a negative length sums nothing. */
  method ChecksumAdd(data: array<Byte>, start: nat, len: int) returns (sum: nat)
    requires start + len <= data.Length && len <= W16
    ensures sum == if len <= 0 then 0 else Sum(data[start..start + len], 0)
  {
    hide Sum;
    sum := 0;
    if len > 0 {
      assert data[start..start] == [];
      SumEmpty(0);
    }
    var i := 0;
    while i < len
      invariant 0 <= i && (len > 0 ==> i <= len)
      invariant len > 0 ==> sum == Sum(data[start..start + i], 0)
      invariant len <= 0 ==> sum == 0
    {
      var x: nat := data[start + i];
      SumSnoc(data[start..start + i], x, 0);
      assert data[start..start + i] + [x] == data[start..start + i + 1];
      assert sum + x * 256 < W32;
      if i % 2 == 1 {
        sum := (sum + x) % W32;
      } else {
        sum := (sum + x * 256) % W32;
      }
      i := i + 1;
    }
  }

  lemma SumEmpty(from: nat)
    ensures Sum([], from) == 0
  {}

  /** net_checksum_finish */
  method ChecksumFinish(sum0: nat) returns (r: nat)
    requires sum0 < W32
    ensures r == ONES - Fold(sum0)
  {
    var sum: nat := sum0;
    while sum / W16 != 0
      invariant sum < W32 && Fold(sum) == Fold(sum0)
      decreases sum
    {
      FoldStep(sum);
      sum := sum % W16 + sum / W16;
    }
    r := ONES - sum;
  }

  /** Replacing one byte changes the sum by the difference, at the weight of its position. */
  lemma {:induction false} SumUpdate(b: seq<Byte>, k: nat, x: Byte, from: nat)
    requires k < |b|
    ensures var was: nat, now: nat := b[k], x;
            Sum(b[k := x], from) == Sum(b, from) - was * Weight(from + k) + now * Weight(from + k)
  {
    var n := |b| - 1;
    if k < n {
      SumUpdate(b[..n], k, x, from);
      assert b[k := x][..n] == b[..n][k := x];
    } else {
      assert b[k := x][..n] == b[..n];
    }
  }

  /** What the two bytes of a 16-bit value v at distance d from the start of the range add to the sum:
      v itself at an even distance, v with its bytes swapped at an odd one. */
  function FieldWeight(v: nat, d: nat): nat {
    if d % 2 == 0 then v else v % 256 * 256 + v / 256 % 256
  }

  lemma ParityWeight(v: nat, d: nat)
    ensures FieldWeight(v, d) == if d % 2 == 0 then v else FieldWeight(v, 1)
  {}

  lemma SumPut16(b: seq<Byte>, d: nat, v: nat)
    requires d + 2 <= |b| && v < W16
    ensures Sum(Put16(b, d, v), 0) == Sum(b, 0) - FieldWeight(Get16(b, d), d) + FieldWeight(v, d)
  {
    var h0: nat, l0: nat := b[d], b[d + 1];
    var hi: Byte, lo: Byte := v / 256 % 256, v % 256;
    SumPutBytes(b, d, hi, lo);
    FieldWeightIs(v, d, hi, lo);
    FieldWeightIs(Get16(b, d), d, h0, l0);
    hide Sum, FieldWeight, Weight;
  }

  lemma SumPutBytes(b: seq<Byte>, d: nat, hi: Byte, lo: Byte)
    requires d + 2 <= |b|
    ensures var h0: nat, l0: nat, h1: nat, l1: nat := b[d], b[d + 1], hi, lo;
            Sum(b[d := hi][d + 1 := lo], 0) ==
              Sum(b, 0) - (h0 * Weight(d) + l0 * Weight(d + 1)) + (h1 * Weight(d) + l1 * Weight(d + 1))
  {
    SumUpdate(b, d, hi, 0);
    SumUpdate(b[d := hi], d + 1, lo, 0);
    hide Sum, Weight;
  }

  lemma FieldWeightIs(v: nat, d: nat, hi: nat, lo: nat)
    requires hi < 256 && lo < 256
    requires v == hi * 256 + lo || (v < W16 && hi == v / 256 % 256 && lo == v % 256)
    ensures FieldWeight(v, d) == hi * Weight(d) + lo * Weight(d + 1)
  {
    Halves(v, hi, lo);
  }

  lemma Halves(v: nat, hi: nat, lo: nat)
    requires hi < 256 && lo < 256
    ensures v == hi * 256 + lo ==> v / 256 == hi && v / 256 % 256 == hi && v % 256 == lo
    ensures v < W16 && hi == v / 256 % 256 && lo == v % 256 ==> v == hi * 256 + lo
  {}

  /** putsum: the covered range is data[css..m], where cse shortens it. */
  ghost predicate CoversTo(n: nat, cse: nat, m: nat) {
    forall i: nat :: Covered(n, cse, i) <==> i < m
  }

  /** Byte i of a packet of n bytes is not behind the range: cse is its last byte, or zero for none. */
  ghost predicate Covered(n: nat, cse: nat, i: nat) {
    i < n && (cse == 0 || i <= cse)
  }

  lemma CoveredTo(n: nat, cse: nat, m: nat)
    ensures CoversTo(n, cse, m) <==> m == CoveredEnd(n, cse)
  {
    var e := CoveredEnd(n, cse);
    var x, y := Covered(n, cse, m), Covered(n, cse, e);
  }

  function CoveredEnd(n: nat, cse: nat): nat {
    if cse != 0 && cse < n then cse + 1 else n
  }

  /** The packet after putsum. The comparison of sloc with the end is unsigned. */
  ghost function Inserted(data: seq<Byte>, n: nat, sloc: nat, css: nat, cse: nat): seq<Byte>
    requires |data| == W16 && n < W16 && css < 256 && sloc < 256
  {
    var m := CoveredEnd(n, cse);
    if sloc < (m - 1) % W32
    then Put16(data, sloc, ONES - Fold(if css < m then Sum(data[css..m], 0) else 0))
    else data
  }

  method PutSum(data: array<Byte>, n: nat, sloc: nat, css: nat, cse: nat)
    requires data.Length == W16 && n < W16 && css < 256 && sloc < 256
    modifies data
    ensures data[..] == Inserted(old(data[..]), n, sloc, css, cse)
  {
    hide Sum, Fold, Get16;
    var m := n;
    if cse != 0 && cse < m {
      m := cse + 1;
    }
    if sloc < (m - 1) % W32 {
      var sum := ChecksumAdd(data, css, m - css);
      var c := ChecksumFinish(sum);
      data[sloc], data[sloc + 1] := c / 256 % 256, c % 256;
      assert data[..] == Put16(old(data[..]), sloc, c);
    }
  }

  /** The law of the checksum. Let v be the field's old value (zero, or a pseudo-header sum) and let the
      range be re-summed after the field was set, with v still counted. The result folds to all ones
      exactly when the field is at an even distance, or the old sum happens to be a multiple of 257. */
  lemma ChecksumLaw(b: seq<Byte>, d: nat)
    requires d + 2 <= |b|
    ensures var v, s := Get16(b, d), Sum(b, 0);
            var after := Sum(Put16(b, d, ONES - Fold(s)), 0) + FieldWeight(v, d);
            Fold(after) == ONES <==> d % 2 == 0 || s % 257 == 0
  {
    hide Sum, Fold, Get16, Put16, FieldWeight;
    var v, s := Get16(b, d), Sum(b, 0);
    var c := ONES - Fold(s);
    SumPut16(b, d, c);
    FoldIsOnes(s + FieldWeight(c, d));
    ParityWeight(c, d);
    if d % 2 == 0 {
      EvenCarry(s, c);
    } else {
      OddCarry(s, c);
    }
  }

  /** The law for putsum: the field lies in the covered range data[css..m]. */
  lemma PutSumLaw(data: seq<Byte>, n: nat, m: nat, sloc: nat, css: nat, cse: nat)
    requires |data| == W16 && n < W16 && CoversTo(n, cse, m) && css <= sloc < 256 && sloc + 2 <= m
    ensures m <= |data|
    ensures var after := Inserted(data, n, sloc, css, cse);
            var v, d := Get16(data, sloc), sloc - css;
            Fold(Sum(after[css..m], 0) + FieldWeight(v, d)) == ONES <==> d % 2 == 0 || Sum(data[css..m], 0) % 257 == 0
  {
    hide Sum, Fold, Put16, Get16, Inserted, CoveredEnd, CoversTo, FieldWeight;
    CoveredTo(n, cse, m);
    InsertedIs(data, n, sloc, css, cse);
    ChecksumLaw(data[css..m], sloc - css);
    Put16Slice(data, sloc, ONES - Fold(Sum(data[css..m], 0)), css, m);
  }

  /** The four-byte packet 0 0 0 1 with its field at byte 1: after putsum it does not re-sum to all ones. */
  lemma OddDistanceFails(data: seq<Byte>)
    requires |data| == W16 && data[..4] == [0, 0, 0, 1]
    ensures Get16(data, 1) == 0 && Fold(Sum(Inserted(data, 4, 1, 0, 0)[0..4], 0)) != ONES
  {
    ExampleSum();
    assert data[0..4] == [0, 0, 0, 1] && data[1] == data[..4][1] && data[2] == data[..4][2];
    hide Sum, Fold, Inserted;
    PutSumLaw(data, 4, 4, 1, 0, 0);
  }

  lemma ExampleSum()
    ensures Sum([0, 0, 0, 1], 0) == 1
  {
    hide Sum;
    var a: seq<Byte>, b: seq<Byte>, c: seq<Byte> := [0], [0, 0], [0, 0, 0];
    SumEmpty(0);
    SumZero([], 0);
    SumZero(a, 0);
    SumZero(b, 0);
    SumSnoc(c, 1, 0);
    assert [] + [0] == a && a + [0] == b && b + [0] == c && c + [1] == [0, 0, 0, 1];
  }

  lemma SumZero(b: seq<Byte>, from: nat)
    ensures Sum(b + [0], from) == Sum(b, from)
  {
    SumSnoc(b, 0, from);
  }

  /** A zero field at an even distance: the covered range re-sums to all ones, and no byte outside the
      field changed. */
  lemma PutSumIsChecksum(data: seq<Byte>, n: nat, m: nat, sloc: nat, css: nat, cse: nat)
    requires |data| == W16 && n < W16 && CoversTo(n, cse, m) && css <= sloc < 256 && sloc + 2 <= m
    requires Get16(data, sloc) == 0 && (sloc - css) % 2 == 0
    ensures m <= |data|
    ensures var after := Inserted(data, n, sloc, css, cse);
            && Fold(Sum(after[css..m], 0)) == ONES
            && |after| == |data| && forall i :: 0 <= i < |data| && !(sloc <= i < sloc + 2) ==> after[i] == data[i]
  {
    hide Sum, Fold, Get16, Inserted, CoveredEnd, CoversTo;
    CoveredTo(n, cse, m);
    PutSumLaw(data, n, m, sloc, css, cse);
    InsertedIs(data, n, sloc, css, cse);
  }

  lemma InsertedIs(data: seq<Byte>, n: nat, sloc: nat, css: nat, cse: nat)
    requires |data| == W16 && n < W16 && css <= sloc < 256 && sloc + 2 <= CoveredEnd(n, cse)
    ensures CoveredEnd(n, cse) <= W16
    ensures Inserted(data, n, sloc, css, cse) == Put16(data, sloc, ONES - Fold(Sum(data[css..CoveredEnd(n, cse)], 0)))
  {
    hide Sum, Fold, Put16;
  }

  /** A field of the packet is the same field of the range that holds it. */
  lemma Put16Slice(data: seq<Byte>, off: nat, v: nat, lo: nat, hi: nat)
    requires lo <= off && off + 2 <= hi <= |data|
    ensures Get16(data[lo..hi], off - lo) == Get16(data, off)
    ensures Put16(data, off, v)[lo..hi] == Put16(data[lo..hi], off - lo, v)
  {
    var x: Byte, y: Byte := v / 256 % 256, v % 256;
    assert data[off := x][off + 1 := y][lo..hi] == data[lo..hi][off - lo := x][off - lo + 1 := y];
  }

  lemma EvenCarry(s: nat, c: nat)
    requires c == ONES - Fold(s)
    ensures s + c > 0 && (s + c) % ONES == 0
  {
    var q := s / ONES;
    var f := Fold(s);
    assert f == 0 || f == ONES || f == s % ONES;
    DivIs(s + c, ONES, if s == 0 || f == ONES then (s + c) / ONES else q + 1);
  }

  /** Swapping the bytes of a 16-bit value multiplies it by 256 modulo 2^16 - 1. */
  lemma OddCarry(s: nat, c: nat)
    requires c == ONES - Fold(s)
    ensures s + FieldWeight(c, 1) > 0 && (s + FieldWeight(c, 1)) % ONES == 0 <==> s % 257 == 0
  {
    EvenCarry(s, c);
    hide Fold;
    var h, l, k := c / 256, c % 256, (s + c) / ONES;
    Halves(c, h, l);
    var t := s + FieldWeight(c, 1);
    assert t == ONES * (256 * k - h) - 255 * s;
    Divisors(t, s, 256 * k - h);
    assert s == 0 ==> t > 0;
  }

  lemma Divisors(t: nat, s: nat, j: int)
    requires t == ONES * j - 255 * s
    ensures t % ONES == 0 <==> s % 257 == 0
  {
    if s % 257 == 0 {
      var m := s / 257;
      DivIs(t, ONES, j - m);
    }
    if t % ONES == 0 {
      var u := t / ONES;
      DivIs(s, 257, j - u);
    }
  }
}
