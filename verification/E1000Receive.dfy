/**
  The receive path of the e1000: a frame is padded, its VLAN tag stripped, and the rest spread over
  the receive descriptors from head up to, but never including, tail.
 */
module E1000Receive {
  import opened Bytes
  import opened Common
  import Filter = E1000Filter

  const MIN_BUF_SIZE := 60
  const VLAN_SIZE := 1522
  const LPE_SIZE := 16384

  datatype Descriptor = Descriptor(addr: nat, length: nat, special: nat, dd: bool, eop: bool, ixsm: bool, vp: bool)

  /** Bytes written to consecutive guest addresses from addr. */
  datatype Transfer = Transfer(addr: nat, bytes: seq<Byte>)

  datatype Outcome = Refused | Discarded(size: nat) | Overrun | Received(size: nat)

  /** The register bits that matter here, and the receive filter. */
  datatype Config = Config(linkUp: bool, enabled: bool, lpe: bool, sbp: bool, vlan: bool, vet: nat, stripCrc: bool, filter: Filter.Filter)

  /** The filter lets the frame through: it looks at the first bytes only. */
  ghost predicate Passes(c: Config, frame: seq<Byte>)
    requires Filter.Valid(c.filter)
  {
    Filter.Accepted(c.filter, c.vet, Padded(frame)[..Filter.HEADER])
  }

  // ----- The frame as a list of buffers -----

  /** What is left to read from offset ofs of buffer idx on. */
  ghost function Rest(iov: seq<seq<Byte>>, idx: nat, ofs: nat): seq<Byte>
    decreases |iov| - idx
  {
    if idx >= |iov| then []
    else Tail(iov[idx], ofs) + Rest(iov, idx + 1, 0)
  }

  ghost function Tail(b: seq<Byte>, ofs: nat): seq<Byte> {
    if ofs <= |b| then b[ofs..] else []
  }

  lemma RestEnd(iov: seq<seq<Byte>>, idx: nat, ofs: nat)
    ensures idx >= |iov| ==> Rest(iov, idx, ofs) == []
  {}

  lemma TailStep(b: seq<Byte>, ofs: nat, k: nat, rest: seq<Byte>)
    requires ofs + k <= |b|
    ensures Tail(b, ofs) + rest == b[ofs..ofs + k] + (Tail(b, ofs + k) + rest)
  {
    assert b[ofs..] == b[ofs..ofs + k] + b[ofs + k..];
  }

  lemma RestStep(iov: seq<seq<Byte>>, idx: nat, ofs: nat, k: nat)
    requires idx < |iov| && ofs + k <= |iov[idx]|
    ensures Rest(iov, idx, ofs) == iov[idx][ofs..ofs + k] + Rest(iov, idx, ofs + k)
    ensures ofs + k == |iov[idx]| ==> Rest(iov, idx, ofs + k) == Rest(iov, idx + 1, 0)
  {
    TailStep(iov[idx], ofs, k, Rest(iov, idx + 1, 0));
  }

  ghost predicate Joined(a: seq<Byte>, b: seq<Byte>, all: seq<Byte>) { a + b == all }

  lemma JoinedFacts(a: seq<Byte>, b: seq<Byte>, all: seq<Byte>)
    ensures Joined(a, b, all) ==> |a| + |b| == |all| && a == all[..|a|] && b == all[|a|..]
    ensures a == [] && b == all ==> Joined(a, b, all)
  {}

  lemma CopyStep(iov: seq<seq<Byte>>, idx: nat, ofs: nat, k: nat, bytes: seq<Byte>, all: seq<Byte>)
    requires idx < |iov| && ofs + k <= |iov[idx]| && Joined(bytes, Rest(iov, idx, ofs), all)
    ensures Joined(bytes + iov[idx][ofs..ofs + k], Rest(iov, idx, ofs + k), all)
    ensures ofs + k == |iov[idx]| ==> Rest(iov, idx, ofs + k) == Rest(iov, idx + 1, 0)
  {
    RestStep(iov, idx, ofs, k);
    hide Rest;
    var piece, rest := iov[idx][ofs..ofs + k], Rest(iov, idx, ofs + k);
    assert (bytes + piece) + rest == bytes + (piece + rest);
  }

  lemma {:induction false} RestIsFlatten(iov: seq<seq<Byte>>, idx: nat)
    requires idx <= |iov|
    ensures Rest(iov, idx, 0) == Flatten(iov[idx..])
    decreases |iov| - idx
  {
    if idx < |iov| {
      RestIsFlatten(iov, idx + 1);
      assert iov[idx..][1..] == iov[idx + 1..];
      assert iov[idx][0..] == iov[idx];
    } else {
      assert iov[idx..] == [];
    }
  }

  /** iov_from_buf: write b over the bytes from offset off of the buffer list. */
  function Overwrite(iov: seq<seq<Byte>>, off: nat, b: seq<Byte>): seq<seq<Byte>> {
    if iov == [] || b == [] then iov
    else if off >= |iov[0]| then [iov[0]] + Overwrite(iov[1..], off - |iov[0]|, b)
    else [Spliced(iov[0], off, b)] + Overwrite(iov[1..], 0, b[Min(|b|, |iov[0]| - off)..])
  }

  /** One buffer with as much of b written over it from off on as it holds. */
  function Spliced(buf: seq<Byte>, off: nat, b: seq<Byte>): seq<Byte>
    requires off < |buf|
  {
    var n := Min(|b|, |buf| - off);
    buf[..off] + b[..n] + buf[off + n..]
  }

  lemma {:induction false} OverwriteIs(iov: seq<seq<Byte>>, off: nat, b: seq<Byte>)
    requires off + |b| <= |Flatten(iov)|
    ensures Flatten(Overwrite(iov, off, b)) == Patch(Flatten(iov), off, b)
  {
    hide Patch, Flatten, Overwrite, Spliced;
    if iov == [] || b == [] {
      OverwriteNothing(iov, off, b);
    } else {
      var h, t := iov[0], iov[1..];
      assert iov == [h] + t;
      FlattenCons(h, t);
      if off >= |h| {
        OverwriteLater(h, t, off, b);
        OverwriteIs(t, off - |h|, b);
        FlattenCons(h, Overwrite(t, off - |h|, b));
        PatchAfter(h, Flatten(t), off, b);
      } else {
        var n := Min(|b|, |h| - off);
        OverwriteHere(h, t, off, b);
        OverwriteIs(t, 0, b[n..]);
        FlattenCons(Spliced(h, off, b), Overwrite(t, 0, b[n..]));
        PatchAcross(h, Flatten(t), off, b, n);
      }
    }
  }

  lemma OverwriteNothing(iov: seq<seq<Byte>>, off: nat, b: seq<Byte>)
    requires iov == [] || b == []
    ensures Overwrite(iov, off, b) == iov && Patch(Flatten(iov), off, b) == Flatten(iov)
  {
    hide Patch;
    assert Patch(Flatten(iov), off, b) == Flatten(iov);
  }

  lemma OverwriteLater(h: seq<Byte>, t: seq<seq<Byte>>, off: nat, b: seq<Byte>)
    requires off >= |h| && b != []
    ensures Overwrite([h] + t, off, b) == [h] + Overwrite(t, off - |h|, b)
  {
    assert ([h] + t)[1..] == t;
  }

  lemma OverwriteHere(h: seq<Byte>, t: seq<seq<Byte>>, off: nat, b: seq<Byte>)
    requires off < |h| && b != []
    ensures Overwrite([h] + t, off, b) == [Spliced(h, off, b)] + Overwrite(t, 0, b[Min(|b|, |h| - off)..])
  {
    hide Spliced;
    assert ([h] + t)[1..] == t;
  }

  lemma PatchAfter(a: seq<Byte>, rest: seq<Byte>, off: nat, b: seq<Byte>)
    requires |a| <= off && off + |b| <= |a| + |rest|
    ensures a + Patch(rest, off - |a|, b) == Patch(a + rest, off, b)
  {
    hide Patch;
  }

  lemma PatchAcross(a: seq<Byte>, rest: seq<Byte>, off: nat, b: seq<Byte>, n: nat)
    requires off < |a| && off + |b| <= |a| + |rest| && n == Min(|b|, |a| - off)
    ensures Spliced(a, off, b) + Patch(rest, 0, b[n..]) == Patch(a + rest, off, b)
  {
    hide Patch;
  }

  /** The frame as the guest will see it: padded to the minimum, its VLAN tag taken out. */
  function Content(c: Config, frame: seq<Byte>): seq<Byte> {
    var f := Padded(frame);
    if Tagged(c, f) then f[..12] + f[16..] else f
  }

  /** p is the frame, with zeros behind it up to sixty bytes. */
  ghost predicate IsPadded(frame: seq<Byte>, p: seq<Byte>) {
    |p| == Max(60, |frame|) && frame <= p && forall i :: |frame| <= i < |p| ==> p[i] == 0
  }

  function Padded(frame: seq<Byte>): (f: seq<Byte>)
    ensures |f| >= MIN_BUF_SIZE && IsPadded(frame, f)
  {
    if |frame| < MIN_BUF_SIZE then frame + seq(MIN_BUF_SIZE - |frame|, _ => 0) else frame
  }

  predicate Tagged(c: Config, f: seq<Byte>)
    requires |f| >= MIN_BUF_SIZE
  {
    c.vlan && Get16(f, 12) == c.vet
  }

  /** Moving the addresses over the tag and skipping four bytes takes the tag out. */
  lemma StripIs(f: seq<Byte>)
    requires |f| >= 16
    ensures Patch(f, 4, f[..12])[4..] == f[..12] + f[16..]
  {}

  function FcsLen(c: Config): nat { if c.stripCrc then 0 else 4 }

  /** What the guest gets of a frame: the frame, padded, and without bytes 12 to 15 when they are a VLAN tag that is
      taken out; special is then the tag control field. */
  ghost predicate Carries(c: Config, frame: seq<Byte>, w: seq<Byte>, special: nat, vp: bool) {
    exists p :: IsPadded(frame, p) && TakesTag(c, p, w, special, vp)
  }

  ghost predicate TakesTag(c: Config, p: seq<Byte>, w: seq<Byte>, special: nat, vp: bool) {
    && |p| >= 60
    && var t: nat, u: nat, x: nat, y: nat := p[12], p[13], p[14], p[15];
       && (vp <==> c.vlan && t * 256 + u == c.vet)
       && if vp then w == p[..12] + p[16..] && special == x * 256 + y else w == p && special == 0
  }

  lemma ContentIs(c: Config, iov: seq<seq<Byte>>)
    ensures Carries(c, Flatten(iov), Content(c, Flatten(iov)), Tag(c, iov).0, Tag(c, iov).1)
  {
    hide Flatten;
    var p := Padded(Flatten(iov));
    assert TakesTag(c, p, Content(c, Flatten(iov)), Tag(c, iov).0, Tag(c, iov).1);
  }

  /** Without a tag the guest gets the frame and nothing but zeros behind it. */
  lemma UntaggedCarried(c: Config, frame: seq<Byte>, w: seq<Byte>, special: nat)
    requires Carries(c, frame, w, special, false)
    ensures IsPadded(frame, w)
  {}

  // ----- The plan: which bytes go to which descriptor -----

  datatype Part = Part(length: nat, bytes: seq<Byte>)

  /** The parts from byte `off` of `total` on, for buffers of rb bytes; content runs out before total
      when the frame check sequence is only accounted for. */
  ghost function Plan(content: seq<Byte>, total: nat, rb: nat, off: nat): seq<Part>
    requires rb > 0
    decreases total - off
  {
    if off >= total then []
    else
      var d := Min(rb, total - off);
      [Part(d, Slice(content, off, rb))] + Plan(content, total, rb, off + d)
  }

  ghost function Slice(content: seq<Byte>, off: nat, rb: nat): seq<Byte> {
    if off < |content| then content[off..Min(off + rb, |content|)] else []
  }

  ghost function PartBytes(ps: seq<Part>): seq<Byte> {
    if ps == [] then [] else ps[0].bytes + PartBytes(ps[1..])
  }

  ghost function PartLengths(ps: seq<Part>): nat {
    if ps == [] then 0 else ps[0].length + PartLengths(ps[1..])
  }

  /** The parts hold exactly the frame and their lengths add up to the whole of it. */
  lemma {:induction false} PlanIsFrame(content: seq<Byte>, total: nat, rb: nat, off: nat)
    requires rb > 0 && |content| <= total && off <= total
    ensures PartBytes(Plan(content, total, rb, off)) == content[Min(off, |content|)..]
    ensures PartLengths(Plan(content, total, rb, off)) == total - off
    decreases total - off
  {
    hide Plan, PartBytes, PartLengths, Slice;
    if off < total {
      var d := Min(rb, total - off);
      PlanIsFrame(content, total, rb, off + d);
      PlanFirst(content, total, rb, off);
      PartsCons(Part(d, Slice(content, off, rb)), Plan(content, total, rb, off + d));
      SliceJoins(content, off, rb, d);
    } else {
      PlanEnd(content, total, rb, off);
    }
  }

  lemma PlanFirst(content: seq<Byte>, total: nat, rb: nat, off: nat)
    requires rb > 0 && off < total
    ensures var d := Min(rb, total - off);
            Plan(content, total, rb, off) == [Part(d, Slice(content, off, rb))] + Plan(content, total, rb, off + d)
  {}

  lemma PlanEnd(content: seq<Byte>, total: nat, rb: nat, off: nat)
    requires rb > 0 && off >= total
    ensures Plan(content, total, rb, off) == [] && PartBytes([]) == [] && PartLengths([]) == 0
  {}

  lemma PartsCons(first: Part, rest: seq<Part>)
    ensures PartBytes([first] + rest) == first.bytes + PartBytes(rest)
    ensures PartLengths([first] + rest) == first.length + PartLengths(rest)
  {
    assert ([first] + rest)[1..] == rest;
  }

  lemma SliceJoins(content: seq<Byte>, off: nat, rb: nat, d: nat)
    requires d == rb || (d < rb && |content| <= off + d)
    ensures Slice(content, off, rb) + content[Min(off + d, |content|)..] == content[Min(off, |content|)..]
  {}

  /** There are ceil((total - off) / rb) parts, all of rb bytes but the last. */
  lemma {:induction false} PlanCount(content: seq<Byte>, total: nat, rb: nat, off: nat)
    requires rb > 0 && off <= total && |content| <= total
    ensures var ps := Plan(content, total, rb, off);
            && |ps| == (total - off + rb - 1) / rb
            && (forall k :: 0 <= k < |ps| - 1 ==> ps[k].length == rb)
            && (forall k :: 0 <= k < |ps| ==> 0 < ps[k].length <= rb && |ps[k].bytes| <= ps[k].length)
    decreases total - off
  {
    if off < total {
      var d := Min(rb, total - off);
      PlanCount(content, total, rb, off + d);
      CeilStep(total - off, rb);
    } else {
      CeilStep(0, rb);
    }
  }

  lemma CeilStep(x: nat, rb: nat)
    requires rb > 0
    ensures x == 0 ==> (x + rb - 1) / rb == 0
    ensures 0 < x <= rb ==> (x + rb - 1) / rb == 1 && (0 + rb - 1) / rb == 0
    ensures x > rb ==> (x + rb - 1) / rb == 1 + (x - rb + rb - 1) / rb
  {
    DivIs(rb - 1, rb, 0);
    if 0 < x <= rb {
      DivIs(x + rb - 1, rb, 1);
    } else if x > rb {
      var q := (x - 1) / rb;
      assert x - 1 == q * rb + (x - 1) % rb;
      assert (q + 1) * rb == q * rb + rb;
      DivIs(x + rb - 1, rb, q + 1);
    }
  }

  // ----- The ring -----

  /** Index i places after head h in a ring of n. */
  function Wrap(h: nat, i: nat, n: nat): nat {
    if h + i < n then h + i else h + i - n
  }

  lemma WrapNext(h: nat, i: nat, n: nat)
    requires h < n && i < n
    ensures var x := Wrap(h, i, n);
            (if x + 1 >= n then 0 else x + 1) == Wrap(h, i + 1, n) && (Wrap(h, i + 1, n) == h <==> i + 1 == n)
    ensures Wrap(h, 0, n) == h
  {}

  /** Descriptors from head up to tail. */
  function Available(rdh: nat, rdt: nat, n: nat): nat
    requires rdh < n && rdt < n
  {
    if rdh <= rdt then rdt - rdh else n + rdt - rdh
  }

  /** e1000_has_rxbufs */
  predicate HasRxBufs(rdh: nat, rdt: nat, n: nat, rb: nat, total: nat)
    requires rdh < n && rdt < n
  {
    if total <= rb then rdh != rdt
    else if rdh < rdt then total <= (rdt - rdh) * rb
    else if rdh > rdt then total <= (n + rdt - rdh) * rb
    else false
  }

  /** The test accepts a frame exactly when it fits into the available descriptors. */
  lemma HasRxBufsIsRoom(rdh: nat, rdt: nat, n: nat, rb: nat, total: nat)
    requires rdh < n && rdt < n && rb > 0 && total > 0
    ensures HasRxBufs(rdh, rdt, n, rb, total) <==> (total + rb - 1) / rb <= Available(rdh, rdt, n)
  {
    var b, c := Available(rdh, rdt, n), (total + rb - 1) / rb;
    assert total + rb - 1 == c * rb + (total + rb - 1) % rb;
    if total <= rb {
      CeilStep(total, rb);
    } else if total <= b * rb {
      if c > b { MulMono(b + 1, c, rb); }
    } else {
      if c <= b { MulMono(c, b, rb); }
    }
  }

  /** A descriptor after its part of the frame was stored. */
  function Filled(d: Descriptor, length: nat, last: bool, special: nat, vp: bool): Descriptor {
    d.(length := length, special := special, dd := true, eop := last, ixsm := last || d.ixsm, vp := vp || d.vp)
  }

  /** A descriptor without a buffer, after it was passed over. */
  function Skipped(d: Descriptor, special: nat, vp: bool): Descriptor {
    d.(special := special, dd := true, vp := vp || d.vp)
  }

  /** How many of the first i descriptors from head h have a buffer. */
  ghost function Used(ring: seq<Descriptor>, h: nat, i: nat): (u: nat)
    requires i <= |ring| && h < |ring|
    ensures u <= i
  {
    if i == 0 then 0 else Used(ring, h, i - 1) + if ring[Wrap(h, i - 1, |ring|)].addr != 0 then 1 else 0
  }

  /** How many descriptors from h on it takes to find m with a buffer; all of them if there are not so many. */
  ghost function Needed(ring: seq<Descriptor>, h: nat, m: nat): nat
    requires h < |ring|
  {
    NeededFrom(ring, h, m, 0)
  }

  ghost function NeededFrom(ring: seq<Descriptor>, h: nat, m: nat, i: nat): nat
    requires h < |ring| && i <= |ring|
    decreases |ring| - i
  {
    if i == |ring| || Used(ring, h, i) >= m then i else NeededFrom(ring, h, m, i + 1)
  }

  /** It is the first place where there are m, if there is one. */
  lemma {:induction false} NeededIs(ring: seq<Descriptor>, h: nat, m: nat, i: nat)
    requires h < |ring| && i <= |ring| && (i == |ring| || Used(ring, h, i) >= m)
    requires forall j :: 0 <= j < i ==> Used(ring, h, j) < m
    ensures Needed(ring, h, m) == i
  {
    NeededUp(ring, h, m, 0, i);
  }

  lemma {:induction false} NeededUp(ring: seq<Descriptor>, h: nat, m: nat, k: nat, i: nat)
    requires h < |ring| && k <= i <= |ring| && (i == |ring| || Used(ring, h, i) >= m)
    requires forall j :: k <= j < i ==> Used(ring, h, j) < m
    ensures NeededFrom(ring, h, m, k) == i
    decreases i - k
  {
    hide Used;
    if k < i {
      NeededUp(ring, h, m, k + 1, i);
    }
  }

  lemma {:induction false} NoNullUsed(ring: seq<Descriptor>, h: nat, i: nat)
    requires i <= |ring| && h < |ring| && NoNull(ring)
    ensures Used(ring, h, i) == i
  {
    if i > 0 {
      NoNullUsed(ring, h, i - 1);
    }
  }

  /** What became of descriptor k from head h, after it was its turn. */
  ghost function StoredDesc(ring0: seq<Descriptor>, h: nat, ps: seq<Part>, k: nat, special: nat, vp: bool): Descriptor
    requires k < |ring0| && h < |ring0|
  {
    var d, t := ring0[Wrap(h, k, |ring0|)], Used(ring0, h, k);
    if d.addr == 0 || t >= |ps| then Skipped(d, special, vp) else Filled(d, ps[t].length, t == |ps| - 1, special, vp)
  }

  /** The ring after i descriptors from head h on had their turn: those with a buffer took the next part,
      the others were passed over; all descriptors behind are untouched. */
  ghost predicate RingAfter(ring0: seq<Descriptor>, ring: seq<Descriptor>, h: nat, ps: seq<Part>, i: nat, special: nat, vp: bool) {
    && |ring| == |ring0| && i <= |ring0| && h < |ring0| && Used(ring0, h, i) <= |ps|
    && (forall k :: 0 <= k < i ==> ring[Wrap(h, k, |ring|)] == StoredDesc(ring0, h, ps, k, special, vp))
    && (forall k :: i <= k < |ring| ==> ring[Wrap(h, k, |ring|)] == ring0[Wrap(h, k, |ring|)])
  }

  /** The DMA writes of the first i descriptors: each one with a buffer takes the next part that has bytes. */
  ghost function Sent(ring: seq<Descriptor>, h: nat, ps: seq<Part>, i: nat): seq<Transfer>
    requires i <= |ring| && h < |ring|
  {
    if i == 0 then []
    else
      var d, t := ring[Wrap(h, i - 1, |ring|)], Used(ring, h, i - 1);
      Sent(ring, h, ps, i - 1) +
      if d.addr == 0 || t >= |ps| || ps[t].bytes == [] then [] else [Transfer(d.addr, ps[t].bytes)]
  }

  ghost function TransferBytes(ts: seq<Transfer>): seq<Byte> {
    if ts == [] then [] else TransferBytes(ts[..|ts| - 1]) + ts[|ts| - 1].bytes
  }

  /** The bytes written are those of the parts. */
  lemma {:induction false} SentBytes(ring: seq<Descriptor>, h: nat, ps: seq<Part>, i: nat)
    requires i <= |ring| && h < |ring| && Used(ring, h, i) <= |ps|
    ensures TransferBytes(Sent(ring, h, ps, i)) + PartBytes(ps[Used(ring, h, i)..]) == PartBytes(ps)
  {
    hide TransferBytes, PartBytes;
    if i > 0 {
      SentBytes(ring, h, ps, i - 1);
      var d, t, ts0 := ring[Wrap(h, i - 1, |ring|)], Used(ring, h, i - 1), Sent(ring, h, ps, i - 1);
      if d.addr == 0 {
        assert Sent(ring, h, ps, i) == ts0 + [] == ts0;
      } else {
        PartsSplit(ps, t);
        JoinAssoc(TransferBytes(ts0), ps[t].bytes, PartBytes(ps[t + 1..]));
        if ps[t].bytes == [] {
          assert Sent(ring, h, ps, i) == ts0 + [] == ts0;
          assert TransferBytes(ts0) + [] == TransferBytes(ts0);
        } else {
          TransferSnoc(ts0, d.addr, ps[t].bytes);
        }
      }
    } else {
      NoTransfers();
      assert ps[0..] == ps;
    }
  }

  lemma NoTransfers()
    ensures TransferBytes([]) == []
  {}

  lemma PartsSplit(ps: seq<Part>, t: nat)
    requires t < |ps|
    ensures PartBytes(ps[t..]) == ps[t].bytes + PartBytes(ps[t + 1..])
  {
    assert ps[t..][1..] == ps[t + 1..];
  }

  lemma TransferSnoc(ts: seq<Transfer>, addr: nat, bytes: seq<Byte>)
    ensures TransferBytes(ts + [Transfer(addr, bytes)]) == TransferBytes(ts) + bytes
  {
    var t := ts + [Transfer(addr, bytes)];
    assert t[..|t| - 1] == ts;
  }

  lemma PlanStep(content: seq<Byte>, total: nat, rb: nat, off: nat, ps: seq<Part>, i: nat)
    requires rb > 0 && off < total && i < |ps| && ps[i..] == Plan(content, total, rb, off)
    ensures var d := Min(rb, total - off);
            && ps[i] == Part(d, Slice(content, off, rb))
            && ps[i + 1..] == Plan(content, total, rb, off + d)
            && (off + d >= total <==> i == |ps| - 1)
            && (off >= |content| <==> ps[i].bytes == [])
  {
    assert ps[i] == ps[i..][0];
    assert ps[i + 1..] == ps[i..][1..];
  }

  lemma SliceStep(content: seq<Byte>, total: nat, rb: nat, off: nat)
    requires rb > 0 && off < |content| <= total
    ensures var d, copy := Min(rb, total - off), Min(|content| - off, rb);
            && content[off..][..copy] == Slice(content, off, rb) != []
            && content[off..][copy..] == content[Min(off + d, |content|)..]
  {}

  lemma RingStep(ring0: seq<Descriptor>, ring: seq<Descriptor>, h: nat, ps: seq<Part>, i: nat, special: nat, vp: bool)
    requires RingAfter(ring0, ring, h, ps, i, special, vp) && i < |ring| && Used(ring0, h, i + 1) <= |ps|
    ensures var x := Wrap(h, i, |ring|);
            && x < |ring| && ring[x] == ring0[x]
            && RingAfter(ring0, ring[x := StoredDesc(ring0, h, ps, i, special, vp)], h, ps, i + 1, special, vp)
  {
    hide StoredDesc;
    var x := Wrap(h, i, |ring|);
    assert forall k :: 0 <= k < |ring| && k != i ==> Wrap(h, k, |ring|) != x;
  }

  /** After i descriptors, `off` bytes of the plan ps for the ring (ring0, h) are stored. */
  ghost predicate Tracked(content: seq<Byte>, total: nat, rb: nat, ps: seq<Part>, ring0: seq<Descriptor>, h: nat, special: nat, vp: bool,
                          ts0: seq<Transfer>, off: nat, i: nat, ring: seq<Descriptor>, ts: seq<Transfer>)
  {
    && rb > 0 && RingAfter(ring0, ring, h, ps, i, special, vp)
    && ps[Used(ring0, h, i)..] == Plan(content, total, rb, off)
    && ts == ts0 + Sent(ring0, h, ps, i)
  }

  lemma TrackStart(content: seq<Byte>, total: nat, rb: nat, ps: seq<Part>, ring: seq<Descriptor>, h: nat, special: nat, vp: bool, ts0: seq<Transfer>)
    requires rb > 0 && h < |ring| && ps == Plan(content, total, rb, 0)
    ensures Tracked(content, total, rb, ps, ring, h, special, vp, ts0, 0, 0, ring, ts0)
  {
    hide Plan, StoredDesc;
    assert ps[0..] == ps;
  }

  /** How far the plan is stored: there is a part left exactly as long as there are bytes left. */
  lemma TrackLeft(content: seq<Byte>, total: nat, rb: nat, ps: seq<Part>, ring0: seq<Descriptor>, h: nat, special: nat, vp: bool,
                  ts0: seq<Transfer>, off: nat, i: nat, ring: seq<Descriptor>, ts: seq<Transfer>)
    requires Tracked(content, total, rb, ps, ring0, h, special, vp, ts0, off, i, ring, ts)
    ensures h < |ring0| == |ring| && i <= |ring0| && RingAfter(ring0, ring, h, ps, i, special, vp) && ts == ts0 + Sent(ring0, h, ps, i)
    ensures off >= total <==> Used(ring0, h, i) == |ps|
  {
    hide Used, StoredDesc, Sent;
    assert off < total ==> ps[Used(ring0, h, i)..] != [];
  }

  /** A descriptor with a buffer takes the next part. */
  lemma TrackStep(content: seq<Byte>, total: nat, rb: nat, ps: seq<Part>, ring0: seq<Descriptor>, h: nat, special: nat, vp: bool,
                  ts0: seq<Transfer>, off: nat, i: nat, ring: seq<Descriptor>, ts: seq<Transfer>)
    requires Tracked(content, total, rb, ps, ring0, h, special, vp, ts0, off, i, ring, ts) && off < total && i < |ring|
    requires ring[Wrap(h, i, |ring|)].addr != 0
    ensures var x, d := Wrap(h, i, |ring|), Min(total - off, rb);
            && x < |ring| && |ring| == |ring0| && ring[x] == ring0[x]
            && Tracked(content, total, rb, ps, ring0, h, special, vp, ts0, off + d, i + 1,
                       ring[x := Filled(ring[x], d, off + d >= total, special, vp)],
                       ts + if off < |content| then [Transfer(ring[x].addr, Slice(content, off, rb))] else [])
  {
    hide Plan, RingAfter, Slice, Used, Sent, StoredDesc, Filled;
    TrackLeft(content, total, rb, ps, ring0, h, special, vp, ts0, off, i, ring, ts);
    var t := Used(ring0, h, i);
    RingNext(ring0, ring, h, ps, i, special, vp);
    TurnIs(ring0, h, ps, i, special, vp);
    PlanStep(content, total, rb, off, ps, t);
    RingStep(ring0, ring, h, ps, i, special, vp);
  }

  lemma RingNext(ring0: seq<Descriptor>, ring: seq<Descriptor>, h: nat, ps: seq<Part>, i: nat, special: nat, vp: bool)
    requires RingAfter(ring0, ring, h, ps, i, special, vp) && i < |ring|
    ensures Used(ring0, h, i) <= |ps| && Wrap(h, i, |ring|) < |ring| == |ring0|
    ensures ring[Wrap(h, i, |ring|)] == ring0[Wrap(h, i, |ring|)]
  {}

  /** The turn of descriptor i. */
  lemma TurnIs(ring0: seq<Descriptor>, h: nat, ps: seq<Part>, i: nat, special: nat, vp: bool)
    requires i < |ring0| && h < |ring0|
    ensures var d, t := ring0[Wrap(h, i, |ring0|)], Used(ring0, h, i);
            if d.addr == 0 || t >= |ps| then
              && Used(ring0, h, i + 1) == t + (if d.addr == 0 then 0 else 1)
              && StoredDesc(ring0, h, ps, i, special, vp) == Skipped(d, special, vp) && Sent(ring0, h, ps, i + 1) == Sent(ring0, h, ps, i)
            else
              && Used(ring0, h, i + 1) == t + 1
              && StoredDesc(ring0, h, ps, i, special, vp) == Filled(d, ps[t].length, t == |ps| - 1, special, vp)
              && Sent(ring0, h, ps, i + 1) == Sent(ring0, h, ps, i) + if ps[t].bytes == [] then [] else [Transfer(d.addr, ps[t].bytes)]
  {
    hide Filled, Skipped;
    assert Sent(ring0, h, ps, i) + [] == Sent(ring0, h, ps, i);
  }

  /** One without is passed over. */
  lemma TrackSkip(content: seq<Byte>, total: nat, rb: nat, ps: seq<Part>, ring0: seq<Descriptor>, h: nat, special: nat, vp: bool,
                  ts0: seq<Transfer>, off: nat, i: nat, ring: seq<Descriptor>, ts: seq<Transfer>)
    requires Tracked(content, total, rb, ps, ring0, h, special, vp, ts0, off, i, ring, ts) && i < |ring|
    requires ring[Wrap(h, i, |ring|)].addr == 0
    ensures var x := Wrap(h, i, |ring|);
            && x < |ring| && |ring| == |ring0| && ring[x] == ring0[x]
            && Tracked(content, total, rb, ps, ring0, h, special, vp, ts0, off, i + 1, ring[x := Skipped(ring[x], special, vp)], ts)
  {
    hide Plan, RingAfter, Used, Sent, StoredDesc, Skipped;
    TrackLeft(content, total, rb, ps, ring0, h, special, vp, ts0, off, i, ring, ts);
    RingNext(ring0, ring, h, ps, i, special, vp);
    TurnIs(ring0, h, ps, i, special, vp);
    RingStep(ring0, ring, h, ps, i, special, vp);
  }

  /** What storing the parts of a frame means for the guest: with m the number of descriptors from head on up
      to the one that takes the last part, it succeeds if m is less than the ring. */
  ghost predicate Stored(ok: bool, ring0: seq<Descriptor>, ring: seq<Descriptor>, h: nat, h': nat, ps: seq<Part>,
                         special: nat, vp: bool, ts0: seq<Transfer>, ts: seq<Transfer>)
    requires h < |ring0|
  {
    var m := Needed(ring0, h, |ps|);
    && m <= |ring0| && RingAfter(ring0, ring, h, ps, m, special, vp)
    && ts == ts0 + Sent(ring0, h, ps, m)
    && (ok <==> m < |ring0|) && h' == (if ok then Wrap(h, m, |ring0|) else h)
  }

  /** The loop has ended: after i descriptors all is stored, or the ring is used up. */
  lemma StoreEnd(content: seq<Byte>, total: nat, rb: nat, ps: seq<Part>, ring0: seq<Descriptor>, h: nat, special: nat, vp: bool,
                 ts0: seq<Transfer>, off: nat, i: nat, ring: seq<Descriptor>, ts: seq<Transfer>)
    requires Tracked(content, total, rb, ps, ring0, h, special, vp, ts0, off, i, ring, ts) && h < |ring0|
    requires i == |ring0| || off >= total
    requires forall j :: 0 <= j < i && j <= |ring0| ==> Used(ring0, h, j) < |ps|
    ensures i <= |ring0| && Stored(i < |ring0|, ring0, ring, h, if i < |ring0| then Wrap(h, i, |ring0|) else h, ps, special, vp, ts0, ts)
  {
    hide Used, RingAfter, Sent, Needed;
    TrackLeft(content, total, rb, ps, ring0, h, special, vp, ts0, off, i, ring, ts);
    NeededIs(ring0, h, |ps|, i);
  }

  lemma LeftOver(content: seq<Byte>, total: nat, rb: nat, ps: seq<Part>, ring0: seq<Descriptor>, h: nat, special: nat, vp: bool,
                 ts0: seq<Transfer>, off: nat, i: nat, ring: seq<Descriptor>, ts: seq<Transfer>)
    requires Tracked(content, total, rb, ps, ring0, h, special, vp, ts0, off, i, ring, ts) && off < total
    requires h < |ring0| && i <= |ring0|
    ensures Used(ring0, h, i) < |ps|
  {
    TrackLeft(content, total, rb, ps, ring0, h, special, vp, ts0, off, i, ring, ts);
    hide Used, Plan, Sent, StoredDesc;
  }

  class Receiver {
    var ring: seq<Descriptor>      // the RDLEN / 16 descriptors in guest memory
    var rdh: nat
    var rdt: nat
    var rxbufSize: nat
    var transfers: seq<Transfer>   // DMA writes of frame bytes, in order

    ghost predicate Valid()
      reads this
    {
      rdh < |ring| && rdt < |ring| && rxbufSize > 0
    }

    constructor (ring: seq<Descriptor>, rxbufSize: nat)
      requires ring != [] && rxbufSize > 0
      ensures Valid()
    {
      this.ring, this.rdh, this.rdt, this.rxbufSize, this.transfers := ring, 0, 0, rxbufSize, [];
    }

    /** The inner loop of e1000_receive_iov: read n bytes from the buffer list, writing them to
        consecutive guest addresses. */
    static method CopyOut(iov: seq<seq<Byte>>, idx0: nat, ofs0: nat, n: nat) returns (bytes: seq<Byte>, idx: nat, ofs: nat)
      requires 0 < n <= |Rest(iov, idx0, ofs0)| && (idx0 < |iov| ==> ofs0 <= |iov[idx0]|)
      ensures bytes == Rest(iov, idx0, ofs0)[..n] && Rest(iov, idx, ofs) == Rest(iov, idx0, ofs0)[n..]
      ensures idx < |iov| ==> ofs <= |iov[idx]|
    {
      hide Joined, Rest;
      ghost var all := Rest(iov, idx0, ofs0);
      JoinedFacts([], all, all);
      bytes, idx, ofs := [], idx0, ofs0;
      var copy: nat := n;
      while copy > 0
        invariant |bytes| + copy == n && Joined(bytes, Rest(iov, idx, ofs), all)
        invariant idx < |iov| ==> ofs <= |iov[idx]|
        decreases copy, |iov| - idx
      {
        JoinedFacts(bytes, Rest(iov, idx, ofs), all);
        RestEnd(iov, idx, ofs);
        var k: nat := Min(copy, |iov[idx]| - ofs);
        var piece := iov[idx][ofs..ofs + k];
        CopyStep(iov, idx, ofs, k, bytes, all);
        bytes := bytes + piece;
        copy := copy - k;
        ofs := ofs + k;
        if ofs == |iov[idx]| {
          idx, ofs := idx + 1, 0;
        }
      }
      JoinedFacts(bytes, Rest(iov, idx, ofs), all);
    }

    /** The descriptor loop of e1000_receive_iov. It takes the descriptors from head on until those with a
        buffer hold the plan; when that takes the whole ring, it reports an overrun. */
    method Store(iov: seq<seq<Byte>>, idx0: nat, ofs0: nat, size: nat, total: nat, special: nat, vp: bool)
      returns (ok: bool)
      requires Valid() && size <= total && total > 0
      requires |Rest(iov, idx0, ofs0)| == size && (idx0 < |iov| ==> ofs0 <= |iov[idx0]|)
      modifies this`ring, this`rdh, this`transfers
      ensures Valid() && |ring| == old(|ring|)
      ensures Stored(ok, old(ring), ring, old(rdh), rdh, Plan(Rest(iov, idx0, ofs0), total, rxbufSize, 0),
                     special, vp, old(transfers), transfers)
    {
      hide Rest, Plan, Tracked, Used, Stored;
      var start, n := rdh, |ring|;
      var idx: nat, ofs: nat, off: nat := idx0, ofs0, 0;
      ghost var content, ring0 := Rest(iov, idx0, ofs0), ring;
      ghost var ps := Plan(content, total, rxbufSize, 0);
      ghost var i: nat := 0;
      TrackStart(content, total, rxbufSize, ps, ring, start, special, vp, transfers);
      assert content[0..] == content;
      WrapNext(start, 0, n);
      while off < total
        invariant i < n == |ring| && rdh == Wrap(start, i, n)
        invariant idx < |iov| ==> ofs <= |iov[idx]|
        invariant Rest(iov, idx, ofs) == content[Min(off, size)..]
        invariant Tracked(content, total, rxbufSize, ps, ring0, start, special, vp, old(transfers), off, i, ring, transfers)
        invariant forall j :: 0 <= j < i ==> Used(ring0, start, j) < |ps|
        decreases n - i
      {
        WrapNext(start, i, n);
        LeftOver(content, total, rxbufSize, ps, ring0, start, special, vp, old(transfers), off, i, ring, transfers);
        off, idx, ofs := TrackedNext(iov, idx, ofs, content, size, total, off, special, vp, ps, ring0, start, old(transfers), i);
        i := i + 1;
        if rdh == start {
          StoreEnd(content, total, rxbufSize, ps, ring0, start, special, vp, old(transfers), off, i, ring, transfers);
          return false;
        }
      }
      ok := true;
      StoreEnd(content, total, rxbufSize, ps, ring0, start, special, vp, old(transfers), off, i, ring, transfers);
    }

    /** One round of the loop, as a step of the plan. */
    method TrackedNext(iov: seq<seq<Byte>>, idx0: nat, ofs0: nat, ghost content: seq<Byte>, size: nat, total: nat, off0: nat, special: nat, vp: bool,
                       ghost ps: seq<Part>, ghost ring0: seq<Descriptor>, ghost start: nat, ghost ts0: seq<Transfer>, ghost i: nat)
      returns (off: nat, idx: nat, ofs: nat)
      requires Valid() && off0 < total && |content| == size <= total
      requires Rest(iov, idx0, ofs0) == content[Min(off0, size)..] && (idx0 < |iov| ==> ofs0 <= |iov[idx0]|)
      requires i < |ring| && rdh == Wrap(start, i, |ring|)
      requires Tracked(content, total, rxbufSize, ps, ring0, start, special, vp, ts0, off0, i, ring, transfers)
      modifies this`ring, this`rdh, this`transfers
      ensures Valid() && |ring| == old(|ring|) && rdh == if old(rdh) + 1 >= |ring| then 0 else old(rdh) + 1
      ensures Rest(iov, idx, ofs) == content[Min(off, size)..] && (idx < |iov| ==> ofs <= |iov[idx]|)
      ensures Tracked(content, total, rxbufSize, ps, ring0, start, special, vp, ts0, off, i + 1, ring, transfers)
    {
      hide Rest, Slice, Filled, Skipped, Tracked;
      if ring[rdh].addr != 0 {
        TrackStep(content, total, rxbufSize, ps, ring0, start, special, vp, ts0, off0, i, ring, transfers);
      } else {
        TrackSkip(content, total, rxbufSize, ps, ring0, start, special, vp, ts0, off0, i, ring, transfers);
      }
      off, idx, ofs := StoreNext(iov, idx0, ofs0, content, size, total, off0, special, vp);
    }

    /** One round of the loop: copy the bytes for the descriptor at head, then fill it in. */
    method StoreNext(iov: seq<seq<Byte>>, idx0: nat, ofs0: nat, ghost content: seq<Byte>, size: nat, total: nat, off0: nat, special: nat, vp: bool)
      returns (off: nat, idx: nat, ofs: nat)
      requires Valid() && off0 < total && |content| == size <= total
      requires Rest(iov, idx0, ofs0) == content[Min(off0, size)..] && (idx0 < |iov| ==> ofs0 <= |iov[idx0]|)
      modifies this`ring, this`rdh, this`transfers
      ensures Valid() && |ring| == old(|ring|) && rdh == if old(rdh) + 1 >= |ring| then 0 else old(rdh) + 1
      ensures Rest(iov, idx, ofs) == content[Min(off, size)..] && (idx < |iov| ==> ofs <= |iov[idx]|)
      ensures old(ring[rdh]).addr == 0 ==>
                off == off0 && transfers == old(transfers) && ring == old(ring)[old(rdh) := Skipped(old(ring[rdh]), special, vp)]
      ensures old(ring[rdh]).addr != 0 ==>
                var d := Min(total - off0, rxbufSize);
                && off == off0 + d
                && ring == old(ring)[old(rdh) := Filled(old(ring[rdh]), d, off0 + d >= total, special, vp)]
                && transfers == old(transfers) + if off0 < size then [Transfer(old(ring[rdh]).addr, Slice(content, off0, rxbufSize))] else []
    {
      hide Rest, Slice, Filled, Skipped;
      idx, ofs := idx0, ofs0;
      var bytes: seq<Byte> := [];
      if ring[rdh].addr != 0 && off0 < size {
        SliceStep(content, total, rxbufSize, off0);
        bytes, idx, ofs := CopyOut(iov, idx, ofs, Min(size - off0, rxbufSize));
      }
      off := StoreDesc(size, total, off0, special, vp, bytes);
    }

    /** One descriptor: status, length and flags, and the DMA write of the bytes copied for it. */
    method StoreDesc(size: nat, total: nat, off0: nat, special: nat, vp: bool, bytes: seq<Byte>) returns (off: nat)
      requires Valid() && off0 < total
      modifies this`ring, this`rdh, this`transfers
      ensures Valid() && |ring| == old(|ring|) && rdh == if old(rdh) + 1 >= |ring| then 0 else old(rdh) + 1
      ensures old(ring[rdh]).addr != 0 ==>
                var d := Min(total - off0, rxbufSize);
                && off == off0 + d
                && ring == old(ring)[old(rdh) := Filled(old(ring[rdh]), d, off0 + d >= total, special, vp)]
                && transfers == old(transfers) + if off0 < size then [Transfer(old(ring[rdh]).addr, bytes)] else []
      ensures old(ring[rdh]).addr == 0 ==>
                off == off0 && transfers == old(transfers) && ring == old(ring)[old(rdh) := Skipped(old(ring[rdh]), special, vp)]
    {
      var descSize := Min(total - off0, rxbufSize);
      var desc := ring[rdh].(special := special, dd := true, vp := vp || ring[rdh].vp);
      off := off0;
      if desc.addr != 0 {
        if off < size {
          transfers := transfers + [Transfer(desc.addr, bytes)];
        }
        off := off + descSize;
        desc := desc.(length := descSize);
        if off >= total {
          desc := desc.(eop := true, ixsm := true);
        } else {
          desc := desc.(eop := false);
        }
      }
      ring := ring[rdh := desc];
      rdh := if rdh + 1 >= |ring| then 0 else rdh + 1;
    }

    /** e1000_receive_iov */
    method Receive(c: Config, iov0: seq<seq<Byte>>) returns (r: Outcome)
      requires Valid() && Filter.Valid(c.filter)
      modifies this`ring, this`rdh, this`transfers
      ensures Valid() && |ring| == old(|ring|)
      ensures !c.linkUp || !c.enabled ==> r == Refused
      ensures var n := Max(60, |Flatten(iov0)|);
              c.linkUp && c.enabled && (TooLong(c, n) || !Passes(c, Flatten(iov0))) ==> r == Discarded(n)
      ensures r == Refused || r.Discarded? ==> ring == old(ring) && rdh == old(rdh) && transfers == old(transfers)
      ensures c.linkUp && c.enabled && !TooLong(c, Max(60, |Flatten(iov0)|)) && Passes(c, Flatten(iov0)) ==>
                var content := Content(c, Flatten(iov0));
                var total := |content| + FcsLen(c);
                if !HasRxBufs(old(rdh), rdt, |ring|, rxbufSize, total) then
                  r == Overrun && ring == old(ring) && rdh == old(rdh) && transfers == old(transfers)
                else
                  Delivered(r == Received(|content|), old(ring), ring, old(rdh), rdh, rxbufSize, content, total,
                            Tag(c, iov0), old(transfers), transfers) && (r == Received(|content|) || r == Overrun)
      // what a received frame means for the guest: its bytes, and what the descriptors say of it
      ensures r.Received? ==> ReceivedOk(c, Flatten(iov0), r.size, old(ring), ring, old(rdh), rdh, old(transfers), transfers)
    {
      hide Flatten, Get16, HasRxBufs, Delivered, Content, Tag, Padded, Filter.Accepted, ReceivedOk;
      if !c.linkUp || !c.enabled {
        return Refused;
      }
      var iov := Pad(iov0);
      PaddedTwice(c, iov0, iov);
      var size := |Flatten(iov)|;
      if Oversized(c, size) {
        return Discarded(size);
      }
      var accept := Filter.ReceiveFilter(c.filter, c.vet, Flatten(iov)[..Filter.HEADER]);
      if !accept {
        return Discarded(size);
      }
      r := DeliverFrame(c, iov);
      if r.Received? {
        ReceivedMeans(c, iov0, old(ring), ring, old(rdh), rdh, rxbufSize, old(transfers), transfers);
      }
    }

    /** The rest of e1000_receive_iov, for a frame that was padded and accepted. */
    method DeliverFrame(c: Config, iov0: seq<seq<Byte>>) returns (r: Outcome)
      requires Valid() && |Flatten(iov0)| >= MIN_BUF_SIZE
      modifies this`ring, this`rdh, this`transfers
      ensures Valid() && |ring| == old(|ring|) && (r.Overrun? || r.Received?)
      ensures var content := Content(c, Flatten(iov0));
              var total := |content| + FcsLen(c);
              if !HasRxBufs(old(rdh), rdt, |ring|, rxbufSize, total) then
                r == Overrun && ring == old(ring) && rdh == old(rdh) && transfers == old(transfers)
              else
                Delivered(r == Received(|content|), old(ring), ring, old(rdh), rdh, rxbufSize, content, total,
                          Tag(c, iov0), old(transfers), transfers) && (r == Received(|content|) || r == Overrun)
    {
      hide Content, Rest, Flatten, Padded, Tag, Plan, RingAfter, Sent, HasRxBufs;
      var iov, idx, ofs, special, vp := Strip(c, iov0);
      var size := if vp then |Flatten(iov0)| - 4 else |Flatten(iov0)|;
      var total := size + FcsLen(c);
      HasRxBufsIsRoom(rdh, rdt, |ring|, rxbufSize, total);
      PlanCount(Rest(iov, idx, ofs), total, rxbufSize, 0);
      if !HasRxBufs(rdh, rdt, |ring|, rxbufSize, total) {
        return Overrun;
      }
      var ok := Store(iov, idx, ofs, size, total, special, vp);
      r := if ok then Received(size) else Overrun;
    }
  }

  /** Pad to the minimum Ethernet frame length. */
  method Pad(iov0: seq<seq<Byte>>) returns (iov: seq<seq<Byte>>)
    ensures Flatten(iov) == Padded(Flatten(iov0)) && Padded(Flatten(iov)) == Flatten(iov)
  {
    iov := iov0;
    if |Flatten(iov0)| < MIN_BUF_SIZE {
      iov := [Padded(Flatten(iov0))];
    }
  }

  /** Padding changes nothing the second time. */
  lemma PaddedTwice(c: Config, iov0: seq<seq<Byte>>, iov: seq<seq<Byte>>)
    requires Flatten(iov) == Padded(Flatten(iov0))
    ensures Content(c, Flatten(iov)) == Content(c, Flatten(iov0)) && Tag(c, iov) == Tag(c, iov0)
  {
    hide Flatten, Get16;
  }

  /** Take out the VLAN tag, if any: move the two addresses over it and skip four bytes. */
  method Strip(c: Config, iov0: seq<seq<Byte>>) returns (iov: seq<seq<Byte>>, idx: nat, ofs: nat, special: nat, vp: bool)
    requires |Flatten(iov0)| >= MIN_BUF_SIZE
    ensures Rest(iov, idx, ofs) == Content(c, Flatten(iov0)) && (idx < |iov| ==> ofs <= |iov[idx]|)
    ensures (special, vp) == Tag(c, iov0)
    ensures |Rest(iov, idx, ofs)| == |Flatten(iov0)| - if vp then 4 else 0
  {
    iov, special, vp, idx, ofs := iov0, 0, false, 0, 0;
    var f := Flatten(iov);
    if Tagged(c, f) {
      special := Get16(f, 14);
      OverwriteIs(iov, 4, f[..12]);
      StripIs(f);
      iov := Overwrite(iov, 4, f[..12]);
      idx, ofs := Skip(iov, 4);
      vp := true;
    } else {
      RestIsFlatten(iov, 0);
      assert iov[0..] == iov;
    }
  }

  /** Discard oversized packets unless LPE or SBP allow them. */
  /** A frame of n bytes is discarded: more than 16384, or more than 1522 without long packet reception, unless bad
      packets are stored. */
  ghost predicate TooLong(c: Config, n: nat) {
    !c.sbp && (n > 16384 || (!c.lpe && n > 1522))
  }

  predicate Oversized(c: Config, size: nat) {
    (size > LPE_SIZE || (size > VLAN_SIZE && !c.lpe)) && !c.sbp
  }

  /** The tag control field reported in the descriptors, and whether there is one. */
  function Tag(c: Config, iov: seq<seq<Byte>>): (nat, bool) {
    var f := Padded(Flatten(iov));
    if Tagged(c, f) then (Get16(f, 14), true) else (0, false)
  }

  /** Where reading starts after `ofs` bytes are skipped. */
  method Skip(iov: seq<seq<Byte>>, ofs0: nat) returns (idx: nat, ofs: nat)
    requires ofs0 < |Flatten(iov)|
    ensures idx < |iov| && ofs < |iov[idx]| && Rest(iov, idx, ofs) == Flatten(iov)[ofs0..]
  {
    idx, ofs := 0, ofs0;
    assert iov[0..] == iov;
    while |iov[idx]| <= ofs
      invariant idx < |iov| && ofs < |Flatten(iov[idx..])| && Flatten(iov[idx..])[ofs..] == Flatten(iov)[ofs0..]
      decreases |iov| - idx
    {
      assert iov[idx..][1..] == iov[idx + 1..];
      assert Flatten(iov[idx..]) == iov[idx] + Flatten(iov[idx + 1..]);
      ofs := ofs - |iov[idx]|;
      idx := idx + 1;
    }
    assert iov[idx..][1..] == iov[idx + 1..];
    RestIsFlatten(iov, idx + 1);
    assert Flatten(iov[idx..])[ofs..] == iov[idx][ofs..] + Flatten(iov[idx + 1..]);
  }

  /** The frame was stored, or as much of it as the ring takes. */
  ghost predicate Delivered(ok: bool, ring0: seq<Descriptor>, ring: seq<Descriptor>, h: nat, h': nat, rb: nat, content: seq<Byte>, total: nat,
                            tag: (nat, bool), ts0: seq<Transfer>, ts: seq<Transfer>)
  {
    rb > 0 && h < |ring0| && Stored(ok, ring0, ring, h, h', Plan(content, total, rb, 0), tag.0, tag.1, ts0, ts)
  }

  lemma {:induction false} NeededEnough(ring: seq<Descriptor>, h: nat, m: nat, i: nat)
    requires h < |ring| && i <= |ring|
    ensures var n := NeededFrom(ring, h, m, i); n <= |ring| && (n < |ring| ==> Used(ring, h, n) >= m)
    decreases |ring| - i
  {
    hide Used;
    if i < |ring| && Used(ring, h, i) < m {
      NeededEnough(ring, h, m, i + 1);
    }
  }

  /** The bytes written for a received frame are the frame, in order, whatever descriptors were passed over. */
  lemma DeliveredBytes(ring0: seq<Descriptor>, ring: seq<Descriptor>, h: nat, h': nat, rb: nat, content: seq<Byte>, total: nat,
                       tag: (nat, bool), ts0: seq<Transfer>, ts: seq<Transfer>)
    requires |content| <= total
    requires Delivered(true, ring0, ring, h, h', rb, content, total, tag, ts0, ts)
    ensures ts0 <= ts && TransferBytes(ts[|ts0|..]) == content
  {
    var ps := Plan(content, total, rb, 0);
    var m := Needed(ring0, h, |ps|);
    PlanIsFrame(content, total, rb, 0);
    NeededEnough(ring0, h, |ps|, 0);
    SentBytes(ring0, h, ps, m);
    hide Plan, Sent, RingAfter, Used, Needed;
    assert ps[|ps|..] == [] && content[0..] == content;
    assert ts[|ts0|..] == Sent(ring0, h, ps, m);
  }

  lemma {:induction false} NeededLess(ring: seq<Descriptor>, h: nat, m: nat, i: nat, k: nat)
    requires h < |ring| && i <= k < |ring| && k < NeededFrom(ring, h, m, i)
    ensures Used(ring, h, k) < m
    decreases k - i
  {
    hide Used;
    if i < k {
      NeededLess(ring, h, m, i + 1, k);
    }
  }

  /** The lengths in those of the first n descriptors that have a buffer. */
  ghost function BufferLengths(ring0: seq<Descriptor>, ring: seq<Descriptor>, h: nat, n: nat): nat
    requires n <= |ring0| == |ring| && h < |ring0|
  {
    if n == 0 then 0
    else
      var x := Wrap(h, n - 1, |ring0|);
      BufferLengths(ring0, ring, h, n - 1) + if ring0[x].addr != 0 then ring[x].length else 0
  }

  /** What the first n descriptors from head h on say of a frame of total bytes, its check sequence included. */
  ghost predicate Reports(ring0: seq<Descriptor>, ring: seq<Descriptor>, h: nat, h': nat, n: nat, total: nat, special: nat, vp: bool) {
    && n <= |ring0| == |ring| && h < |ring0| && h' == Wrap(h, n, |ring0|)
    && (forall k :: 0 <= k < n ==> Says(ring0[Wrap(h, k, |ring0|)], ring[Wrap(h, k, |ring0|)], k == n - 1, special, vp))
    && (forall k :: n <= k < |ring| ==> ring[Wrap(h, k, |ring0|)] == ring0[Wrap(h, k, |ring0|)])
    && BufferLengths(ring0, ring, h, n) == total
  }

  /** A descriptor that had its turn is done and has the tag; of those with a buffer the last one ends the packet. */
  ghost predicate Says(d0: Descriptor, d: Descriptor, last: bool, special: nat, vp: bool) {
    && d.dd && d.special == special && (d.vp <==> vp || d0.vp) && d.addr == d0.addr
    && (d0.addr != 0 ==> (d.eop <==> last))
  }

  /** A frame that was received: the bytes written, and the descriptors. */
  ghost predicate ReceivedOk(c: Config, frame: seq<Byte>, size: nat, ring0: seq<Descriptor>, ring: seq<Descriptor>, h: nat, h': nat,
                             ts0: seq<Transfer>, ts: seq<Transfer>)
  {
    && ts0 <= ts
    && var w := TransferBytes(ts[|ts0|..]);
       && size == |w|
       && exists n, special, vp :: ReportsFrame(c, frame, w, ring0, ring, h, h', n, special, vp)
  }

  ghost predicate ReportsFrame(c: Config, frame: seq<Byte>, w: seq<Byte>, ring0: seq<Descriptor>, ring: seq<Descriptor>, h: nat, h': nat,
                               n: nat, special: nat, vp: bool)
  {
    Carries(c, frame, w, special, vp) && Reports(ring0, ring, h, h', n, |w| + if c.stripCrc then 0 else 4, special, vp)
  }

  lemma {:induction false} LengthsAre(ring0: seq<Descriptor>, ring: seq<Descriptor>, h: nat, ps: seq<Part>, m: nat, i: nat, special: nat, vp: bool)
    requires RingAfter(ring0, ring, h, ps, m, special, vp) && i <= m <= |ring0| == |ring| && h < |ring0|
    requires forall k :: 0 <= k < i ==> Used(ring0, h, k) < |ps|
    ensures Used(ring0, h, i) <= |ps| && BufferLengths(ring0, ring, h, i) + PartLengths(ps[Used(ring0, h, i)..]) == PartLengths(ps)
  {
    hide PartLengths, StoredDesc, RingAfter, Used;
    UsedStep(ring0, h, i);
    if i > 0 {
      LengthsAre(ring0, ring, h, ps, m, i - 1, special, vp);
      var t := Used(ring0, h, i - 1);
      LengthsSplit(ps, t);
      TurnMade(ring0, ring, h, ps, m, i - 1, special, vp);
    } else {
      assert ps[0..] == ps;
    }
  }

  lemma UsedStep(ring: seq<Descriptor>, h: nat, i: nat)
    requires i <= |ring| && h < |ring|
    ensures Used(ring, h, i) == if i == 0 then 0 else Used(ring, h, i - 1) + if ring[Wrap(h, i - 1, |ring|)].addr != 0 then 1 else 0
  {}

  lemma LengthsSplit(ps: seq<Part>, t: nat)
    requires t < |ps|
    ensures PartLengths(ps[t..]) == ps[t].length + PartLengths(ps[t + 1..])
  {
    assert ps[t..][1..] == ps[t + 1..];
  }

  /** What the turn of descriptor k made of it. */
  lemma TurnMade(ring0: seq<Descriptor>, ring: seq<Descriptor>, h: nat, ps: seq<Part>, m: nat, k: nat, special: nat, vp: bool)
    requires RingAfter(ring0, ring, h, ps, m, special, vp) && k < m && Used(ring0, h, k) < |ps|
    ensures var x, t := Wrap(h, k, |ring0|), Used(ring0, h, k);
            && x < |ring0| == |ring| && m <= |ring0|
            && ring[x] == if ring0[x].addr == 0 then Skipped(ring0[x], special, vp)
                          else Filled(ring0[x], ps[t].length, t == |ps| - 1, special, vp)
  {
    hide Used, Filled, Skipped;
    assert ring[Wrap(h, k, |ring|)] == StoredDesc(ring0, h, ps, k, special, vp);
  }

  lemma TurnSays(ring0: seq<Descriptor>, ring: seq<Descriptor>, h: nat, ps: seq<Part>, m: nat, k: nat, special: nat, vp: bool)
    requires RingAfter(ring0, ring, h, ps, m, special, vp) && k < m <= |ring0| == |ring| && h < |ring0| && Used(ring0, h, k) < |ps|
    requires if k == m - 1 then Used(ring0, h, m) >= |ps| else Used(ring0, h, k + 1) < |ps|
    ensures Says(ring0[Wrap(h, k, |ring0|)], ring[Wrap(h, k, |ring0|)], k == m - 1, special, vp)
  {
    hide RingAfter, Used;
    UsedStep(ring0, h, k + 1);
    TurnMade(ring0, ring, h, ps, m, k, special, vp);
  }

  /** The descriptors of a frame whose parts took m of them. */
  lemma TurnsReport(ring0: seq<Descriptor>, ring: seq<Descriptor>, h: nat, ps: seq<Part>, m: nat, special: nat, vp: bool)
    requires RingAfter(ring0, ring, h, ps, m, special, vp) && m <= |ring0| == |ring| && h < |ring0|
    requires Used(ring0, h, m) == |ps| && forall k :: 0 <= k < m ==> Used(ring0, h, k) < |ps|
    ensures Reports(ring0, ring, h, Wrap(h, m, |ring0|), m, PartLengths(ps), special, vp)
  {
    hide RingAfter, Used, Says, BufferLengths, PartLengths;
    LengthsAre(ring0, ring, h, ps, m, m, special, vp);
    assert ps[|ps|..] == [];
    PartsNone();
    forall k | 0 <= k < m ensures Says(ring0[Wrap(h, k, |ring0|)], ring[Wrap(h, k, |ring0|)], k == m - 1, special, vp) {
      TurnSays(ring0, ring, h, ps, m, k, special, vp);
    }
    Untouched(ring0, ring, h, ps, m, special, vp);
  }

  lemma Untouched(ring0: seq<Descriptor>, ring: seq<Descriptor>, h: nat, ps: seq<Part>, m: nat, special: nat, vp: bool)
    requires RingAfter(ring0, ring, h, ps, m, special, vp)
    ensures |ring| == |ring0| && h < |ring0|
    ensures forall k :: m <= k < |ring| ==> ring[Wrap(h, k, |ring0|)] == ring0[Wrap(h, k, |ring0|)]
    ensures m <= |ring0| && Used(ring0, h, m) <= |ps|
  {
    hide StoredDesc, Used;
  }

  /** The descriptors of a frame that was stored. */
  lemma DeliveredReports(ring0: seq<Descriptor>, ring: seq<Descriptor>, h: nat, h': nat, rb: nat, content: seq<Byte>, total: nat,
                         tag: (nat, bool), ts0: seq<Transfer>, ts: seq<Transfer>)
    requires |content| <= total && Delivered(true, ring0, ring, h, h', rb, content, total, tag, ts0, ts)
    ensures exists n :: Reports(ring0, ring, h, h', n, total, tag.0, tag.1)
  {
    hide Plan, Sent, Used, NeededFrom, RingAfter, Reports, Slice, PartLengths, PartBytes;
    var ps := Plan(content, total, rb, 0);
    var m := Needed(ring0, h, |ps|);
    PlanIsFrame(content, total, rb, 0);
    NeededEnough(ring0, h, |ps|, 0);
    forall k | 0 <= k < m ensures Used(ring0, h, k) < |ps| {
      NeededLess(ring0, h, |ps|, 0, k);
    }
    Untouched(ring0, ring, h, ps, m, tag.0, tag.1);
    TurnsReport(ring0, ring, h, ps, m, tag.0, tag.1);
    assert Reports(ring0, ring, h, h', m, total, tag.0, tag.1);
  }

  lemma PartsNone()
    ensures PartLengths([]) == 0
  {}

  lemma ReceivedMeans(c: Config, iov: seq<seq<Byte>>, ring0: seq<Descriptor>, ring: seq<Descriptor>, h: nat, h': nat, rb: nat,
                      ts0: seq<Transfer>, ts: seq<Transfer>)
    requires var content := Content(c, Flatten(iov));
             Delivered(true, ring0, ring, h, h', rb, content, |content| + FcsLen(c), Tag(c, iov), ts0, ts)
    ensures ReceivedOk(c, Flatten(iov), |Content(c, Flatten(iov))|, ring0, ring, h, h', ts0, ts)
  {
    hide Flatten, Content, Tag, Delivered, Reports, Carries, TransferBytes;
    var content, tag := Content(c, Flatten(iov)), Tag(c, iov);
    DeliveredBytes(ring0, ring, h, h', rb, content, |content| + FcsLen(c), tag, ts0, ts);
    DeliveredReports(ring0, ring, h, h', rb, content, |content| + FcsLen(c), tag, ts0, ts);
    ContentIs(c, iov);
    var n :| Reports(ring0, ring, h, h', n, |content| + FcsLen(c), tag.0, tag.1);
    assert ReportsFrame(c, Flatten(iov), content, ring0, ring, h, h', n, tag.0, tag.1);
  }

  /** The frame took exactly n descriptors from head on and none at or past tail; their lengths add up to its
      length with the frame check sequence; end of packet is set on the last of them and on no other; all other
      descriptors are untouched. */
  ghost predicate UsesExactly(ring0: seq<Descriptor>, ring: seq<Descriptor>, h: nat, h': nat, tail: nat, n: nat, total: nat) {
    && h < |ring0| == |ring| && tail < |ring|
    && n <= Available(h, tail, |ring|) && n <= |ring| && h' == Wrap(h, n, |ring|)
    && (forall k :: 0 <= k < n ==> ring[Wrap(h, k, |ring|)].dd && (ring[Wrap(h, k, |ring|)].eop <==> k == n - 1))
    && (forall k :: n <= k < |ring| ==> ring[Wrap(h, k, |ring|)] == ring0[Wrap(h, k, |ring|)])
    && LengthSum(ring, h, n) == total && ring[tail] == ring0[tail]
  }

  /** x / rb, rounded up. */
  function Ceil(x: nat, rb: nat): nat
    requires rb > 0
  {
    (x + rb - 1) / rb
  }

  /** Without null descriptors and with room for it, a frame is received, and it uses exactly the descriptors
      it needs. */
  lemma DeliveredDescriptors(ok: bool, ring0: seq<Descriptor>, ring: seq<Descriptor>, h: nat, h': nat, tail: nat, rb: nat, content: seq<Byte>, total: nat,
                             tag: (nat, bool), ts0: seq<Transfer>, ts: seq<Transfer>)
    requires 0 < total && |content| <= total && h < |ring0| && tail < |ring0| && NoNull(ring0) && rb > 0
    requires Delivered(ok, ring0, ring, h, h', rb, content, total, tag, ts0, ts) && HasRxBufs(h, tail, |ring0|, rb, total)
    ensures ok && UsesExactly(ring0, ring, h, h', tail, Ceil(total, rb), total)
  {
    hide Plan, Sent, RingAfter, Needed, HasRxBufs, NoNull;
    var ps := Plan(content, total, rb, 0);
    PlanCount(content, total, rb, 0);
    PlanIsFrame(content, total, rb, 0);
    HasRxBufsIsRoom(h, tail, |ring0|, rb, total);
    assert total - 0 + rb - 1 == total + rb - 1;
    assert |ps| == Ceil(total, rb);
    WrapToTail(h, tail, |ring0|);
    NoNullNeeded(ring0, h, |ps|);
    PlainRing(ring0, ring, h, ps, tag.0, tag.1);
    PlainUses(ring0, ring, h, h', tail, ps, tag.0, tag.1);
  }

  lemma PlainUses(ring0: seq<Descriptor>, ring: seq<Descriptor>, h: nat, h': nat, tail: nat, ps: seq<Part>, special: nat, vp: bool)
    requires tail < |ring0| && PlainAfter(ring0, ring, h, ps, special, vp)
    requires |ps| <= Available(h, tail, |ring0|) && h' == Wrap(h, |ps|, |ring0|)
    ensures UsesExactly(ring0, ring, h, h', tail, |ps|, PartLengths(ps))
  {
    LengthSumIs(ring0, ring, h, ps, |ps|, special, vp);
    assert ps[|ps|..] == [];
    RingFlags(ring0, ring, h, ps, special, vp);
    WrapToTail(h, tail, |ring|);
    hide PlainAfter, LengthSum, Wrap, Available;
  }

  predicate NoNull(ring: seq<Descriptor>) {
    forall k :: 0 <= k < |ring| ==> ring[k].addr != 0
  }

  lemma WrapToTail(h: nat, tail: nat, n: nat)
    requires h < n && tail < n
    ensures Wrap(h, Available(h, tail, n), n) == tail && Available(h, tail, n) < n
  {}

  lemma NoNullNeeded(ring: seq<Descriptor>, h: nat, m: nat)
    requires h < |ring| && m <= |ring| && NoNull(ring)
    ensures Needed(ring, h, m) == m
  {
    hide Used;
    forall i | 0 <= i <= |ring| ensures Used(ring, h, i) == i {
      NoNullUsed(ring, h, i);
    }
    NeededIs(ring, h, m, m);
  }

  /** Without null descriptors, descriptor k from head takes part k. */
  ghost predicate PlainAfter(ring0: seq<Descriptor>, ring: seq<Descriptor>, h: nat, ps: seq<Part>, special: nat, vp: bool) {
    && |ring| == |ring0| && |ps| <= |ring0| && h < |ring0|
    && (forall k :: 0 <= k < |ps| ==>
          ring[Wrap(h, k, |ring|)] == Filled(ring0[Wrap(h, k, |ring|)], ps[k].length, k == |ps| - 1, special, vp))
    && (forall k :: |ps| <= k < |ring| ==> ring[Wrap(h, k, |ring|)] == ring0[Wrap(h, k, |ring|)])
  }

  lemma PlainRing(ring0: seq<Descriptor>, ring: seq<Descriptor>, h: nat, ps: seq<Part>, special: nat, vp: bool)
    requires |ps| <= |ring0| && RingAfter(ring0, ring, h, ps, |ps|, special, vp) && NoNull(ring0)
    ensures PlainAfter(ring0, ring, h, ps, special, vp)
  {
    hide Filled, Used;
    forall k | 0 <= k < |ps|
      ensures ring[Wrap(h, k, |ring|)] == Filled(ring0[Wrap(h, k, |ring|)], ps[k].length, k == |ps| - 1, special, vp)
    {
      NoNullUsed(ring0, h, k);
    }
  }

  lemma RingFlags(ring0: seq<Descriptor>, ring: seq<Descriptor>, h: nat, ps: seq<Part>, special: nat, vp: bool)
    requires PlainAfter(ring0, ring, h, ps, special, vp)
    ensures |ring| == |ring0|
    ensures forall k :: 0 <= k < |ps| ==> ring[Wrap(h, k, |ring|)].dd && (ring[Wrap(h, k, |ring|)].eop <==> k == |ps| - 1)
    ensures forall k :: |ps| <= k < |ring| ==> ring[Wrap(h, k, |ring|)] == ring0[Wrap(h, k, |ring|)]
  {}

  /** Sum of the length fields of the first n descriptors from h. */
  ghost function LengthSum(ring: seq<Descriptor>, h: nat, n: nat): nat
    requires n <= |ring| && h < |ring|
  {
    if n == 0 then 0 else LengthSum(ring, h, n - 1) + ring[Wrap(h, n - 1, |ring|)].length
  }

  lemma {:induction false} LengthSumIs(ring0: seq<Descriptor>, ring: seq<Descriptor>, h: nat, ps: seq<Part>, n: nat, special: nat, vp: bool)
    requires PlainAfter(ring0, ring, h, ps, special, vp) && n <= |ps|
    ensures LengthSum(ring, h, n) + PartLengths(ps[n..]) == PartLengths(ps)
  {
    if n > 0 {
      LengthSumIs(ring0, ring, h, ps, n - 1, special, vp);
      assert ps[n - 1..][1..] == ps[n..];
    } else {
      assert ps[0..] == ps;
    }
  }
}
