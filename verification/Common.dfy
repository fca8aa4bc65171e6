/** Small facts and types shared by the other modules. */
module Common {
  const PAGE: nat := 4096           // TARGET_PAGE_SIZE
  const W16 := 0x1_0000
  const W32 := 0x1_0000_0000
  const WORD := 0x1_0000_0000_0000_0000

  datatype Option<+T> = None | Some(value: T)

  function Min(a: int, b: int): int { if a <= b then a else b }
  function Max(a: int, b: int): int { if a >= b then a else b }

  lemma MulMono(a: int, b: int, m: int)
    requires a <= b && m >= 0
    ensures a * m <= b * m
  {}

  /** Quotient and remainder are determined by their bounds. */
  lemma DivIs(x: int, m: int, q: int)
    requires m > 0 && q * m <= x < q * m + m
    ensures x / m == q && x % m == x - q * m
  {
    var d := x / m;
    assert x == d * m + x % m;
    if d < q {
      MulMono(d + 1, q, m);
    } else if d > q {
      MulMono(q + 1, d, m);
    }
  }

  function Pow2(k: nat): (p: nat)
    ensures p >= 1
  {
    if k == 0 then 1 else 2 * Pow2(k - 1)
  }

  /** Bit i of w, counted from the least significant. */
  function Bit(w: nat, i: nat): nat {
    if i == 0 then w % 2 else Bit(w / 2, i - 1)
  }

  lemma {:induction false} BitIs(w: nat, i: nat)
    ensures Bit(w, i) == w / Pow2(i) % 2
  {
    if i > 0 {
      BitIs(w / 2, i - 1);
      HalfFirst(w, Pow2(i - 1));
    }
  }

  lemma DoubleProduct(y: nat, p: nat)
    ensures y * (2 * p) == 2 * (y * p) == (2 * y) * p
  {}

  lemma HalfFirst(x: nat, p: nat)
    requires p > 0
    ensures x / 2 / p == x / (2 * p)
  {
    var a := x / 2;
    var b := a / p;
    DoubleProduct(b, p);
    assert a == b * p + a % p;
    DivIs(x, 2 * p, b);
  }

  /** The elements of all the sequences, in order. */
  function Flatten<T>(ss: seq<seq<T>>): seq<T> {
    if ss == [] then [] else ss[0] + Flatten(ss[1..])
  }

  lemma FlattenNone<T>()
    ensures Flatten<T>([]) == []
  {}

  lemma FlattenCons<T>(h: seq<T>, t: seq<seq<T>>)
    ensures Flatten([h] + t) == h + Flatten(t)
  {
    assert ([h] + t)[1..] == t;
  }

  lemma JoinAssoc<T>(x: seq<T>, y: seq<T>, z: seq<T>)
    ensures (x + y) + z == x + (y + z)
  {}

  lemma {:induction false} FlattenJoin<T>(a: seq<seq<T>>, b: seq<seq<T>>)
    ensures Flatten(a + b) == Flatten(a) + Flatten(b)
  {
    if a == [] {
      assert a + b == b;
    } else {
      hide Flatten;
      var h, t := a[0], a[1..];
      FlattenJoin(t, b);
      FlattenCons(h, t);
      FlattenCons(h, t + b);
      JoinAssoc([h], t, b);
      JoinAssoc(h, Flatten(t), Flatten(b));
      assert a == [h] + t;
    }
  }

  lemma FlattenSnoc<T>(a: seq<seq<T>>, x: seq<T>)
    ensures Flatten(a + [x]) == Flatten(a) + x
  {
    FlattenJoin(a, [x]);
    FlattenOne(x);
  }

  lemma FlattenOne<T>(x: seq<T>)
    ensures Flatten([x]) == x
  {
    assert [x] == [x] + [];
    FlattenCons(x, []);
  }
}
