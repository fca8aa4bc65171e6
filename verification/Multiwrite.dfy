/**
  Merging of write requests: sorted by sector, each request that starts inside or right behind the one
  before is joined to it. A later request wins where two overlap.
 */
module Multiwrite {
  import opened Bytes
  import opened Common
  import opened SectorIo

  const IOV_MAX: nat := 1024

  /** A write of the bytes of an I/O vector, from a sector on. */
  datatype Request = Request(sector: nat, nbSectors: nat, iov: seq<seq<Byte>>)

  function Start(r: Request): nat {
    r.sector * SECTOR
  }

  function End(r: Request): nat {
    (r.sector + r.nbSectors) * SECTOR
  }

  predicate Whole(r: Request) {
    |Flatten(r.iov)| == r.nbSectors * SECTOR
  }

  predicate AllWhole(s: seq<Request>) {
    forall i :: 0 <= i < |s| ==> Whole(s[i])
  }

  /** The first n bytes of an I/O vector, as qemu_iovec_concat copies them. */
  function Take(iov: seq<seq<Byte>>, n: nat): seq<seq<Byte>> {
    if n == 0 || iov == [] then []
    else if |iov[0]| == 0 then Take(iov[1..], n)
    else if |iov[0]| <= n then [iov[0]] + Take(iov[1..], n - |iov[0]|)
    else [iov[0][..n]]
  }

  lemma {:induction false} TakeIs(iov: seq<seq<Byte>>, n: nat)
    requires n <= |Flatten(iov)|
    ensures Flatten(Take(iov, n)) == Flatten(iov)[..n] && |Take(iov, n)| <= |iov|
  {
    if n == 0 || iov == [] {
    } else if |iov[0]| == 0 {
      TakeIs(iov[1..], n);
      assert Flatten(iov) == Flatten(iov[1..]);
    } else if |iov[0]| <= n {
      TakeIs(iov[1..], n - |iov[0]|);
      var t := Take(iov[1..], n - |iov[0]|);
      assert ([iov[0]] + t)[1..] == t;
    } else {
      assert Flatten([iov[0][..n]]) == iov[0][..n] + Flatten([]);
    }
  }

  // ----- What requests do to an image -----

  /** The requests carried out in order. */
  function Apply(img: seq<Byte>, s: seq<Request>): (r: seq<Byte>)
    ensures |r| == |img|
  {
    if s == [] then img else Patch(Apply(img, s[..|s| - 1]), Start(s[|s| - 1]), Flatten(s[|s| - 1].iov))
  }

  predicate Covers(r: Request, x: nat) {
    Start(r) <= x < End(r)
  }

  /** The byte a request puts at position x. */
  function ByteAt(r: Request, x: nat): Byte
    requires Whole(r) && Covers(r, x)
  {
    Flatten(r.iov)[x - Start(r)]
  }

  lemma ApplyUnfold(img: seq<Byte>, s: seq<Request>, r: Request)
    ensures Apply(img, s + [r]) == Patch(Apply(img, s), Start(r), Flatten(r.iov))
  {
    hide Flatten, Patch, Start;
    assert (s + [r])[..|s|] == s;
  }

  lemma ApplySnoc(img: seq<Byte>, s: seq<Request>, r: Request, x: nat)
    requires Whole(r) && x < |img|
    ensures Apply(img, s + [r])[x] == if Covers(r, x) then ByteAt(r, x) else Apply(img, s)[x]
  {
    ApplyUnfold(img, s, r);
    hide Flatten, Apply, Patch;
  }

  ghost predicate Sorted(s: seq<Request>) {
    forall i, j :: 0 <= i < j < |s| ==> s[i].sector <= s[j].sector
  }

  lemma SortedPrefix(s: seq<Request>, i: nat)
    requires Sorted(s) && i <= |s|
    ensures Sorted(s[..i])
  {}

  lemma WholePrefix(s: seq<Request>, i: nat)
    requires AllWhole(s) && i < |s|
    ensures Whole(s[i]) && AllWhole(s[..i])
  {
    hide Whole;
  }

  // ----- The merge -----

  /** The first request without the sectors from r on, followed by r. */
  function Joined(o: Request, r: Request): Request
    requires o.sector <= r.sector
  {
    var iov := Take(o.iov, (r.sector - o.sector) * SECTOR) + Take(r.iov, |Flatten(r.iov)|);
    Request(o.sector, |Flatten(iov)| / SECTOR, iov)
  }

  predicate Mergeable(o: Request, r: Request) {
    r.sector <= o.sector + o.nbSectors && !Capped(o, r)
  }

  predicate Capped(o: Request, r: Request) {
    |o.iov| + |r.iov| + 1 > IOV_MAX
  }

  /** What is in the array after the requests s have been seen. */
  function Merge(s: seq<Request>): (out: seq<Request>)
    requires |s| > 0 && Sorted(s)
    ensures |out| > 0 && out[|out| - 1].sector <= s[|s| - 1].sector
  {
    if |s| == 1 then s
    else
      var r, out := s[|s| - 1], Merge(s[..|s| - 1]);
      var o := out[|out| - 1];
      if Mergeable(o, r) then out[..|out| - 1] + [Joined(o, r)] else out + [r]
  }

  lemma JoinedIs(o: Request, r: Request)
    requires Whole(o) && Whole(r) && o.sector <= r.sector <= o.sector + o.nbSectors
    ensures var j := Joined(o, r);
            && Whole(j) && Start(j) == Start(o) && End(j) == End(r)
            && Flatten(j.iov) == Flatten(o.iov)[..Start(r) - Start(o)] + Flatten(r.iov)
            && |j.iov| <= |o.iov| + |r.iov|
  {
    hide Flatten, Take;
    var n, m := (r.sector - o.sector) * SECTOR, |Flatten(r.iov)|;
    TakeIs(o.iov, n);
    TakeIs(r.iov, m);
    FlattenJoin(Take(o.iov, n), Take(r.iov, m));
    assert Flatten(r.iov)[..m] == Flatten(r.iov);
  }

  /** A joined request covers what either covered, except the part of the first behind the second;
      the second wins. */
  lemma JoinedAt(o: Request, r: Request, x: nat)
    requires Whole(o) && Whole(r) && o.sector <= r.sector <= o.sector + o.nbSectors
    ensures var j := Joined(o, r);
            && Whole(j)
            && (Covers(j, x) <==> Covers(r, x) || (Covers(o, x) && x < Start(r)))
            && (Covers(r, x) ==> ByteAt(j, x) == ByteAt(r, x))
            && (Covers(j, x) && !Covers(r, x) ==> ByteAt(j, x) == ByteAt(o, x))
  {
    JoinedIs(o, r);
    hide Flatten, Joined;
  }

  /** The last request of the array ends where the last one seen ends. */
  lemma {:induction false} MergeLast(s: seq<Request>)
    requires |s| > 0 && Sorted(s) && AllWhole(s)
    ensures var out := Merge(s); AllWhole(out) && End(out[|out| - 1]) == End(s[|s| - 1])
  {
    hide Flatten, Joined, Whole;
    if |s| > 1 {
      var out := Merge(s[..|s| - 1]);
      MergeLast(s[..|s| - 1]);
      if Mergeable(out[|out| - 1], s[|s| - 1]) {
        JoinedIs(out[|out| - 1], s[|s| - 1]);
      }
    }
  }

  // ----- When nothing is lost -----

  /** One of the requests from i on covers x. */
  ghost predicate CoveredFrom(s: seq<Request>, i: nat, x: nat) {
    exists k :: i <= k < |s| && Covers(s[k], x)
  }

  /** Where a request ends before the one in front of it does, the part in between is written again
      by a later request. */
  ghost predicate NoTailLost(s: seq<Request>) {
    forall j, x: nat :: 0 <= j < |s| - 1 && End(s[j + 1]) <= x && Covers(s[j], x) ==> CoveredFrom(s, j + 2, x)
  }

  /** Request i is joined to what is in front of it. */
  ghost predicate Joins(s: seq<Request>, i: nat)
    requires Sorted(s) && 0 < i < |s|
  {
    var out := Merge(s[..i]);
    Mergeable(out[|out| - 1], s[i])
  }

  /** Joining request j + 1 takes away the byte that request j writes at x, and no later request writes it. */
  ghost predicate Lost(s: seq<Request>, j: nat, x: nat)
    requires Sorted(s)
  {
    j + 1 < |s| && End(s[j + 1]) <= x && Covers(s[j], x) && Joins(s, j + 1) && !CoveredFrom(s, j + 2, x)
  }

  ghost predicate EndsRise(s: seq<Request>) {
    forall j :: 0 <= j < |s| - 1 ==> End(s[j]) <= End(s[j + 1])
  }

  lemma RisingLosesNothing(s: seq<Request>)
    requires EndsRise(s)
    ensures NoTailLost(s)
  {}

  lemma {:induction false} WholeLast(s: seq<Request>)
    requires |s| > 0 && AllWhole(s)
    ensures Whole(s[|s| - 1]) && AllWhole(s[..|s| - 1]) && s == s[..|s| - 1] + [s[|s| - 1]]
  {
    hide Whole;
  }

  /** A request joined to the last one: it wins where it writes, and takes nothing away but the tail
      behind it. */
  lemma JoinByte(img: seq<Byte>, out: seq<Request>, r: Request, x: nat)
    requires |out| > 0 && AllWhole(out) && Whole(r) && x < |img|
    requires var o := out[|out| - 1]; o.sector <= r.sector && Mergeable(o, r)
    ensures var o := out[|out| - 1];
            var img' := Apply(img, out[..|out| - 1] + [Joined(o, r)]);
            && (Covers(r, x) ==> img'[x] == ByteAt(r, x))
            && (!Covers(r, x) && !(End(r) <= x < End(o)) ==> img'[x] == Apply(img, out)[x])
            && (End(r) <= x ==> img'[x] == Apply(img, out[..|out| - 1])[x])
  {
    WholeLast(out);
    var o, front := out[|out| - 1], out[..|out| - 1];
    JoinedAt(o, r, x);
    hide Apply, Joined, ByteAt, AllWhole, Whole;
    ApplySnoc(img, front, Joined(o, r), x);
    ApplySnoc(img, front, o, x);
  }

  lemma MergeUnfold(s: seq<Request>, i: nat)
    requires Sorted(s) && AllWhole(s) && 1 < i <= |s|
    ensures var r, out := s[i - 1], Merge(s[..i - 1]);
            var o := out[|out| - 1];
            && AllWhole(out) && Whole(r) && End(o) == End(s[i - 2]) && o.sector <= r.sector
            && Merge(s[..i]) == if Mergeable(o, r) then out[..|out| - 1] + [Joined(o, r)] else out + [r]
  {
    hide Joined, Whole, Mergeable;
    assert s[..i][..i - 1] == s[..i - 1];
    MergeLast(s[..i - 1]);
  }

  lemma JoinsIs(s: seq<Request>, m: nat)
    requires Sorted(s) && 0 < m < |s| && Sorted(s[..m])
    ensures var out := Merge(s[..m]); Joins(s, m) <==> Mergeable(out[|out| - 1], s[m])
  {
    hide Mergeable, Merge, Sorted;
  }

  lemma MergeByte(img: seq<Byte>, s: seq<Request>, i: nat, x: nat)
    requires Sorted(s) && AllWhole(s) && 1 < i <= |s| && x < |img|
    ensures Covers(s[i - 1], x) ==> Apply(img, Merge(s[..i]))[x] == ByteAt(s[i - 1], x)
    ensures !Covers(s[i - 1], x) && !(Joins(s, i - 1) && End(s[i - 1]) <= x < End(s[i - 2])) ==>
              Apply(img, Merge(s[..i]))[x] == Apply(img, Merge(s[..i - 1]))[x]
  {
    hide Apply, Joined, ByteAt, Merge, AllWhole, Mergeable, Covers, End, Whole, Sorted, Joins;
    SortedPrefix(s, i - 1);
    SortedPrefix(s, i);
    JoinsIs(s, i - 1);
    var r, out := s[i - 1], Merge(s[..i - 1]);
    MergeUnfold(s, i);
    if Joins(s, i - 1) {
      JoinByte(img, out, r, x);
    } else {
      ApplySnoc(img, out, r, x);
    }
  }

  /** Behind a joined request nothing of its group is left. */
  lemma MergeCut(img: seq<Byte>, s: seq<Request>, i: nat, x: nat)
    requires Sorted(s) && AllWhole(s) && 1 < i <= |s| && x < |img| && Joins(s, i - 1) && End(s[i - 1]) <= x
    ensures Apply(img, Merge(s[..i]))[x] == Apply(img, Front(Merge(s[..i - 1])))[x]
  {
    hide Apply, Joined, ByteAt, Merge, AllWhole, Mergeable, Covers, End, Whole, Sorted, Joins;
    var m := i - 1;
    SortedPrefix(s, m);
    SortedPrefix(s, i);
    MergeUnfold(s, i);
    JoinsIs(s, m);
    JoinByte(img, Merge(s[..m]), s[m], x);
  }

  /** At a byte that is not lost and not still to be written, the merged requests do what the requests seen
      so far do. */
  lemma {:induction false} PrefixPreserved(img: seq<Byte>, s: seq<Request>, i: nat, x: nat)
    requires Sorted(s) && AllWhole(s) && 0 < i <= |s| && x < |img|
    requires !CoveredFrom(s, i, x) && forall j: nat :: !Lost(s, j, x)
    ensures Apply(img, Merge(s[..i]))[x] == Apply(img, s[..i])[x]
    decreases i
  {
    hide Apply, Joined, ByteAt, Merge, Lost, Joins, CoveredFrom, Sorted, AllWhole, Covers, End, Whole;
    SortedPrefix(s, i);
    if i == 1 {
      MergeOne(s[..i]);
    } else {
      var m := i - 1;
      SortedPrefix(s, m);
      WholePrefix(s, m);
      assert s[..i] == s[..m] + [s[m]];
      MergeByte(img, s, i, x);
      ApplySnoc(img, s[..m], s[m], x);
      if !Covers(s[m], x) {
        TailLost(s, i - 2, x);
        StillUncovered(s, i, x);
        PrefixPreserved(img, s, m, x);
      }
    }
  }

  lemma MergeOne(s: seq<Request>)
    requires |s| == 1 && Sorted(s)
    ensures Merge(s) == s
  {}

  lemma TailLost(s: seq<Request>, j: nat, x: nat)
    requires Sorted(s) && j + 1 < |s| && !CoveredFrom(s, j + 2, x)
    ensures Joins(s, j + 1) && End(s[j + 1]) <= x < End(s[j]) ==> Lost(s, j, x)
  {
    hide Joins;
    assert s[j].sector <= s[j + 1].sector;
  }

  lemma StillUncovered(s: seq<Request>, i: nat, x: nat)
    requires 0 < i <= |s| && !CoveredFrom(s, i, x) && !Covers(s[i - 1], x)
    ensures !CoveredFrom(s, i - 1, x)
  {}

  /** The merge keeps the meaning of the sorted requests, whether or not the vector limit is met. */
  lemma MergePreserves(img: seq<Byte>, s: seq<Request>)
    requires |s| > 0 && Sorted(s) && AllWhole(s) && NoTailLost(s)
    ensures Apply(img, Merge(s)) == Apply(img, s)
  {
    hide Apply, Merge, Joins;
    assert s[..|s|] == s;
    forall x | 0 <= x < |img| ensures Apply(img, Merge(s))[x] == Apply(img, s)[x] {
      PrefixPreserved(img, s, |s|, x);
    }
  }

  // ----- When something is lost -----

  /** The vector limit is never met. */
  ghost predicate NeverCapped(s: seq<Request>)
    requires Sorted(s)
  {
    |s| > 1 ==> NeverCapped(s[..|s| - 1]) && (var out := Merge(s[..|s| - 1]); !Capped(out[|out| - 1], s[|s| - 1]))
  }

  /** Between consecutive requests there is a sector that neither writes. */
  ghost predicate Gapped(out: seq<Request>) {
    forall i, j :: 0 <= i < j < |out| ==> End(out[i]) < Start(out[j])
  }

  lemma {:induction false} MergeGapped(s: seq<Request>)
    requires |s| > 0 && Sorted(s) && AllWhole(s) && NeverCapped(s)
    ensures Gapped(Merge(s))
  {
    hide Flatten, Joined, Whole, Gapped;
    var s', r := s[..|s| - 1], s[|s| - 1];
    if s' == [] {
      GappedOne(r);
      assert s == [r];
    } else {
      var out := Merge(s');
      MergeGapped(s');
      MergeLast(s');
      if Mergeable(out[|out| - 1], r) {
        JoinedIs(out[|out| - 1], r);
        GappedReplace(out, Joined(out[|out| - 1], r));
      } else {
        GappedAppend(out, r);
      }
    }
  }

  lemma GappedOne(r: Request)
    ensures Gapped([r])
  {}

  lemma GappedReplace(out: seq<Request>, r: Request)
    requires |out| > 0 && Gapped(out) && Start(r) == Start(out[|out| - 1])
    ensures Gapped(out[..|out| - 1] + [r])
  {}

  lemma GappedAppend(out: seq<Request>, r: Request)
    requires |out| > 0 && Gapped(out) && End(out[|out| - 1]) < Start(r)
    ensures Gapped(out + [r])
  {}

  ghost predicate CoveredBy(out: seq<Request>, x: nat) {
    exists k :: 0 <= k < |out| && Covers(out[k], x)
  }

  /** What request i does to the covered bytes when the limit is not met. */
  lemma CoverStep(s: seq<Request>, x: nat)
    requires |s| > 1 && Sorted(s) && AllWhole(s) && NeverCapped(s)
    ensures var s', r := s[..|s| - 1], s[|s| - 1];
            CoveredBy(Merge(s), x) ==> Covers(r, x) || (CoveredBy(Merge(s'), x) && !(End(r) <= x < End(s'[|s'| - 1])))
  {
    hide Joined, Whole, Merge, CoveredBy, Covers, End, Mergeable, Sorted, AllWhole, Gapped;
    var n := |s|;
    SortedPrefix(s, n - 1);
    WholePrefix(s, n - 1);
    var s', r := s[..n - 1], s[n - 1];
    var out := Merge(s');
    MergeUnfold(s, n);
    MergeGapped(s');
    assert s[..n] == s;
    if Mergeable(out[|out| - 1], r) {
      CoverJoined(out, r, x);
    } else {
      CoverAdded(out, r, x);
    }
  }

  lemma CoverJoined(out: seq<Request>, r: Request, x: nat)
    requires |out| > 0 && AllWhole(out) && Whole(r) && Gapped(out)
    requires var o := out[|out| - 1]; o.sector <= r.sector && Mergeable(o, r)
    ensures var o := out[|out| - 1];
            CoveredBy(out[..|out| - 1] + [Joined(o, r)], x) ==> Covers(r, x) || (CoveredBy(out, x) && !(End(r) <= x < End(o)))
  {
    hide Joined, Whole;
    var o := out[|out| - 1];
    JoinedAt(o, r, x);
  }

  lemma CoverAdded(out: seq<Request>, r: Request, x: nat)
    requires |out| > 0 && AllWhole(out) && Whole(r)
    requires var o := out[|out| - 1]; !Mergeable(o, r) && !Capped(o, r)
    ensures CoveredBy(out + [r], x) ==> Covers(r, x) || (CoveredBy(out, x) && !(End(r) <= x < End(out[|out| - 1])))
  {
    hide Whole, Capped;
  }

  /** A byte behind request j + 1 that no later request writes is in none of the merged requests. */
  lemma {:induction false} LostByte(s: seq<Request>, i: nat, j: nat, x: nat)
    requires Sorted(s) && AllWhole(s) && j + 2 <= i <= |s| && NeverCapped(s[..i])
    requires End(s[j + 1]) <= x && Covers(s[j], x) && !CoveredFrom(s, j + 2, x)
    ensures !CoveredBy(Merge(s[..i]), x)
    decreases i
  {
    hide Merge, CoveredBy;
    assert s[..i][..i - 1] == s[..i - 1];
    CoverStep(s[..i], x);
    if i > j + 2 {
      LostByte(s, i - 1, j, x);
    }
  }

  lemma {:induction false} UncoveredKept(img: seq<Byte>, s: seq<Request>, x: nat)
    requires AllWhole(s) && x < |img| && !CoveredBy(s, x)
    ensures Apply(img, s)[x] == img[x]
  {
    hide Flatten;
    if s != [] {
      var s', r := s[..|s| - 1], s[|s| - 1];
      assert s == s' + [r];
      UncoveredKept(img, s', x);
      ApplySnoc(img, s', r, x);
    }
  }

  /** The last request that writes a byte decides it. */
  lemma {:induction false} LastWins(img: seq<Byte>, s: seq<Request>, i: nat, j: nat, x: nat)
    requires AllWhole(s) && j < i <= |s| && x < |img| && Covers(s[j], x) && !CoveredFrom(s, j + 1, x)
    ensures Apply(img, s[..i])[x] == ByteAt(s[j], x)
    decreases i
  {
    hide Flatten;
    assert s[..i] == s[..i - 1] + [s[i - 1]];
    ApplySnoc(img, s[..i - 1], s[i - 1], x);
    if i > j + 1 {
      LastWins(img, s, i - 1, j, x);
    }
  }

  // ----- Which request decides a byte after the merge -----

  /** Requests i + 1 to m were all joined. */
  ghost predicate JoinedAll(s: seq<Request>, i: nat, m: nat)
    requires Sorted(s) && m < |s|
  {
    forall p :: i < p <= m ==> Joins(s, p)
  }

  /** Among the first n requests, request i writes x, and none that was joined behind it cut that off. */
  ghost predicate Kept(s: seq<Request>, n: nat, i: nat, x: nat)
    requires Sorted(s) && n <= |s|
  {
    i < n && Covers(s[i], x) && forall m :: i < m < n && JoinedAll(s, i, m) ==> x < End(s[m])
  }

  /** The last request that is kept at x. */
  ghost predicate Decides(s: seq<Request>, n: nat, i: nat, x: nat)
    requires Sorted(s) && n <= |s|
  {
    Kept(s, n, i, x) && forall j :: i < j < n ==> !Kept(s, n, j, x)
  }

  ghost predicate NoneKept(s: seq<Request>, n: nat, x: nat)
    requires Sorted(s) && n <= |s|
  {
    forall i: nat :: !Kept(s, n, i, x)
  }

  /** Where the requests joined up to request n - 1 begin. */
  ghost function GroupStart(s: seq<Request>, n: nat): (g: nat)
    requires Sorted(s) && 0 < n <= |s|
    ensures g < n && JoinedAll(s, g, n - 1) && (g > 0 ==> !Joins(s, g))
  {
    if n == 1 || !Joins(s, n - 1) then n - 1 else GroupStart(s, n - 1)
  }

  /** What is in front of the group in the array. */
  function Front(out: seq<Request>): seq<Request>
    requires |out| > 0
  {
    out[..|out| - 1]
  }

  lemma {:induction false} GroupFront(s: seq<Request>, n: nat)
    requires Sorted(s) && AllWhole(s) && 0 < n <= |s|
    ensures var g := GroupStart(s, n);
            Front(Merge(s[..n])) == if g == 0 then [] else Merge(s[..g])
  {
    hide Merge, Mergeable, Joined, Sorted, AllWhole, Joins;
    SortedPrefix(s, n);
    if n == 1 {
      MergeOne(s[..n]);
    } else {
      var m := n - 1;
      SortedPrefix(s, m);
      MergeUnfold(s, n);
      JoinsIs(s, m);
      if Joins(s, m) {
        GroupFront(s, m);
      }
    }
  }

  /** Up to request n - 1, a joined request that ends early, or not: what is kept changes only then. */
  lemma KeptStep(s: seq<Request>, n: nat, i: nat, x: nat)
    requires Sorted(s) && 1 < n <= |s| && i < n - 1
    ensures Kept(s, n, i, x) <==> Kept(s, n - 1, i, x) && !(JoinedAll(s, i, n - 1) && End(s[n - 1]) <= x)
  {
    hide JoinedAll, Covers;
  }

  /** A joined request that ends at or before x but not before the one in front of it cuts nothing off. */
  lemma KeptSame(s: seq<Request>, n: nat, i: nat, x: nat)
    requires Sorted(s) && 1 < n <= |s| && i < n - 1
    requires !(Joins(s, n - 1) && End(s[n - 1]) <= x < End(s[n - 2]))
    ensures Kept(s, n, i, x) <==> Kept(s, n - 1, i, x)
  {
    hide Joins;
    KeptStep(s, n, i, x);
    if JoinedAll(s, i, n - 1) && i < n - 2 {
      assert JoinedAll(s, i, n - 2);
    }
  }

  /** One that does cuts off its whole group, and nothing in front of it. */
  lemma KeptCut(s: seq<Request>, n: nat, i: nat, x: nat)
    requires Sorted(s) && 1 < n <= |s| && i < n && Joins(s, n - 1) && End(s[n - 1]) <= x
    ensures var g := GroupStart(s, n); Kept(s, n, i, x) <==> i < g && Kept(s, g, i, x)
  {
    hide Joins;
    var g := GroupStart(s, n);
    if i >= g {
      assert i == n - 1 || JoinedAll(s, i, n - 1);
    } else {
      assert forall m :: g <= m < n ==> !JoinedAll(s, i, m);
    }
  }

  /** After the merge, the last request that is kept decides a byte; without one it stays. */
  lemma {:induction false} MergedByte(img: seq<Byte>, s: seq<Request>, n: nat, x: nat)
    requires Sorted(s) && AllWhole(s) && 0 < n <= |s| && x < |img|
    ensures forall i: nat :: Decides(s, n, i, x) ==> Apply(img, Merge(s[..n]))[x] == ByteAt(s[i], x)
    ensures NoneKept(s, n, x) ==> Apply(img, Merge(s[..n]))[x] == img[x]
    decreases n
  {
    hide Merge, Apply, ByteAt, Kept, Joins, Covers, AllWhole, Sorted;
    if n == 1 {
      FirstByte(img, s, x);
      assert Kept(s, 1, 0, x) <==> Covers(s[0], x);
    } else {
      MergeByte(img, s, n, x);
      if Covers(s[n - 1], x) {
        NewestDecides(s, n, x);
      } else if Joins(s, n - 1) && End(s[n - 1]) <= x < End(s[n - 2]) {
        CutByte(img, s, n, x);
      } else {
        MergedByte(img, s, n - 1, x);
        SameDecides(s, n, n - 1, x);
      }
    }
  }

  lemma FirstByte(img: seq<Byte>, s: seq<Request>, x: nat)
    requires Sorted(s) && AllWhole(s) && 0 < |s| && x < |img|
    ensures forall i: nat :: Kept(s, 1, i, x) <==> i == 0 && Covers(s[0], x)
    ensures Apply(img, Merge(s[..1]))[x] == if Covers(s[0], x) then ByteAt(s[0], x) else img[x]
  {
    assert s[..1] == [] + [s[0]];
    ApplySnoc(img, [], s[0], x);
  }

  lemma NewestDecides(s: seq<Request>, n: nat, x: nat)
    requires Sorted(s) && 0 < n <= |s| && Covers(s[n - 1], x)
    ensures Kept(s, n, n - 1, x) && forall i: nat :: Decides(s, n, i, x) ==> i == n - 1
  {
    hide Joins, Covers;
    assert Kept(s, n, n - 1, x);
  }

  lemma SameDecides(s: seq<Request>, n: nat, m: nat, x: nat)
    requires Sorted(s) && 1 < n <= |s| && m == n - 1 && !Covers(s[m], x)
    requires !(Joins(s, m) && End(s[m]) <= x < End(s[n - 2]))
    ensures NoneKept(s, n, x) ==> NoneKept(s, m, x)
    ensures forall i: nat :: Decides(s, n, i, x) ==> Decides(s, m, i, x)
  {
    hide Kept, Joins, Covers, Sorted, End;
    forall i: nat ensures (Kept(s, n, i, x) <==> Kept(s, m, i, x)) && (Kept(s, n, i, x) ==> i < m) {
      SameKept(s, n, i, x);
    }
  }

  lemma SameKept(s: seq<Request>, n: nat, i: nat, x: nat)
    requires Sorted(s) && 1 < n <= |s| && !Covers(s[n - 1], x)
    requires !(Joins(s, n - 1) && End(s[n - 1]) <= x < End(s[n - 2]))
    ensures (Kept(s, n, i, x) <==> Kept(s, n - 1, i, x)) && (Kept(s, n, i, x) ==> i < n - 1)
  {
    hide Joins, JoinedAll, Sorted;
    if i < n - 1 {
      KeptSame(s, n, i, x);
    }
  }

  lemma {:induction false} CutByte(img: seq<Byte>, s: seq<Request>, n: nat, x: nat)
    requires Sorted(s) && AllWhole(s) && 1 < n <= |s| && x < |img|
    requires Joins(s, n - 1) && End(s[n - 1]) <= x
    ensures forall i: nat :: Decides(s, n, i, x) ==> Apply(img, Merge(s[..n]))[x] == ByteAt(s[i], x)
    ensures NoneKept(s, n, x) ==> Apply(img, Merge(s[..n]))[x] == img[x]
    decreases n, 0
  {
    hide Merge, Apply, ByteAt, Joins, Covers, AllWhole, Sorted, JoinedAll;
    var g := GroupStart(s, n);
    MergeCut(img, s, n, x);
    GroupFront(s, n - 1);
    CutDecides(s, n, x);
    if g > 0 {
      MergedByte(img, s, g, x);
    } else {
      ApplyNone(img);
    }
  }

  lemma ApplyNone(img: seq<Byte>)
    ensures Apply(img, []) == img
  {}

  lemma CutDecides(s: seq<Request>, n: nat, x: nat)
    requires Sorted(s) && 1 < n <= |s| && Joins(s, n - 1) && End(s[n - 1]) <= x
    ensures var g := GroupStart(s, n);
            && g == GroupStart(s, n - 1)
            && (forall i: nat :: Kept(s, n, i, x) <==> i < g && Kept(s, g, i, x))
            && (forall i: nat :: Decides(s, n, i, x) ==> g > 0 && Decides(s, g, i, x))
  {
    var g := GroupStart(s, n);
    forall i: nat ensures Kept(s, n, i, x) <==> i < g && Kept(s, g, i, x) {
      if i < n {
        KeptCut(s, n, i, x);
      }
    }
    hide Joins, Covers, JoinedAll;
  }

  /** A byte other than the one that is lost. */
  function Other(b: nat): (o: Byte)
    requires b < 256
    ensures o != b
  {
    (b + 1) % 256
  }

  lemma LostValue(img: seq<Byte>, s: seq<Request>, j: nat, x: nat)
    requires Sorted(s) && AllWhole(s) && Lost(s, j, x) && x < |img|
    ensures Apply(img, s)[x] == ByteAt(s[j], x)
  {
    hide Apply, ByteAt, Joins, Whole;
    assert s[..|s|] == s;
    LastWins(img, s, |s|, j, x);
  }

  /** The merged requests do to every image what the requests do. */
  ghost predicate SameMeaning(s: seq<Request>)
    requires |s| > 0 && Sorted(s)
  {
    forall img :: Apply(img, Merge(s)) == Apply(img, s)
  }

  /** Some request still decides x, with the value b. */
  ghost predicate Decided(s: seq<Request>, x: nat, b: Byte)
    requires Sorted(s) && AllWhole(s)
  {
    exists i: nat :: Decides(s, |s|, i, x) && ByteAt(s[i], x) == b
  }

  /** Wherever joining a request takes a byte away for good, an earlier request in a group of its own, for the
      limit was met, still writes the same value. */
  ghost predicate LostElsewhere(s: seq<Request>)
    requires Sorted(s) && AllWhole(s)
  {
    forall j: nat, x: nat :: Lost(s, j, x) ==> Decided(s, x, ByteAt(s[j], x))
  }

  /** Exactly when the merge keeps the meaning. */
  lemma MergeLaw(s: seq<Request>)
    requires |s| > 0 && Sorted(s) && AllWhole(s)
    ensures SameMeaning(s) <==> LostElsewhere(s)
  {
    hide Merge, Apply, AllWhole, Sorted, Lost, Decided, ByteAt;
    if LostElsewhere(s) {
      forall img ensures Apply(img, Merge(s)) == Apply(img, s) {
        KeptImage(img, s);
      }
    } else {
      SomethingLost(s);
    }
  }

  lemma KeptImage(img: seq<Byte>, s: seq<Request>)
    requires |s| > 0 && Sorted(s) && AllWhole(s) && LostElsewhere(s)
    ensures Apply(img, Merge(s)) == Apply(img, s)
  {
    hide Merge, Apply, AllWhole, Sorted, Lost, Decided, ByteAt;
    forall x | 0 <= x < |img| ensures Apply(img, Merge(s))[x] == Apply(img, s)[x] {
      KeptByte(img, s, x);
    }
  }

  lemma SomethingLost(s: seq<Request>)
    requires |s| > 0 && Sorted(s) && AllWhole(s) && !LostElsewhere(s)
    ensures !SameMeaning(s)
  {
    hide Merge, Apply, Joins, Decided, ByteAt;
    var j: nat, x: nat :| Lost(s, j, x) && !Decided(s, x, ByteAt(s[j], x));
    var img := LostImage(s, j, x);
  }

  lemma KeptByte(img: seq<Byte>, s: seq<Request>, x: nat)
    requires |s| > 0 && Sorted(s) && AllWhole(s) && x < |img|
    requires forall j: nat :: Lost(s, j, x) ==> Decided(s, x, ByteAt(s[j], x))
    ensures Apply(img, Merge(s))[x] == Apply(img, s)[x]
  {
    hide Merge, Apply, Decides, ByteAt, Whole, Sorted, Joins;
    assert s[..|s|] == s;
    if j: nat :| Lost(s, j, x) {
      LostValue(img, s, j, x);
      MergedByte(img, s, |s|, x);
    } else {
      PrefixPreserved(img, s, |s|, x);
    }
  }

  lemma {:induction false} LastKept(s: seq<Request>, i: nat, x: nat) returns (d: nat)
    requires Sorted(s) && Kept(s, |s|, i, x)
    ensures Decides(s, |s|, d, x)
    decreases |s| - i
  {
    hide Kept;
    d := i;
    if j: nat :| i < j < |s| && Kept(s, |s|, j, x) {
      d := LastKept(s, j, x);
    }
  }

  /** An image on which the merged requests do not do what the requests do. */
  lemma LostImage(s: seq<Request>, j: nat, x: nat) returns (img: seq<Byte>)
    requires |s| > 0 && Sorted(s) && AllWhole(s)
    requires Lost(s, j, x) && !Decided(s, x, ByteAt(s[j], x))
    ensures Apply(img, Merge(s)) != Apply(img, s)
  {
    hide Merge, Apply, ByteAt, Whole, Sorted, Joins, Kept;
    var b := ByteAt(s[j], x);
    img := seq(x + 1, _ => Other(b));
    assert s[..|s|] == s;
    LostValue(img, s, j, x);
    MergedByte(img, s, |s|, x);
    if i: nat :| Kept(s, |s|, i, x) {
      var d := LastKept(s, i, x);
    }
    assert Apply(img, Merge(s))[x] != Apply(img, s)[x];
  }

  /** As long as the limit is not met, that is a matter of the ranges alone: every tail behind a request that
      ends early is written again. */
  lemma UncappedLaw(s: seq<Request>)
    requires |s| > 0 && Sorted(s) && AllWhole(s) && NeverCapped(s)
    ensures SameMeaning(s) <==> NoTailLost(s)
  {
    hide Merge, Apply, Joins, AllWhole, Sorted, NeverCapped, ByteAt, Lost;
    if NoTailLost(s) {
      forall img ensures Apply(img, Merge(s)) == Apply(img, s) {
        MergePreserves(img, s);
      }
    } else {
      var j: nat, x: nat :| j < |s| - 1 && End(s[j + 1]) <= x && Covers(s[j], x) && !CoveredFrom(s, j + 2, x);
      var img := UncappedImage(s, j, x);
    }
  }

  lemma UncappedImage(s: seq<Request>, j: nat, x: nat) returns (img: seq<Byte>)
    requires |s| > 0 && Sorted(s) && AllWhole(s) && NeverCapped(s)
    requires j < |s| - 1 && End(s[j + 1]) <= x && Covers(s[j], x) && !CoveredFrom(s, j + 2, x)
    ensures Lost(s, j, x) && Apply(img, Merge(s)) != Apply(img, s)
  {
    hide Merge, ByteAt, Apply, Whole;
    UncappedJoins(s, j + 1);
    assert s[..|s|] == s;
    MergeLast(s);
    LostByte(s, |s|, j, x);
    img := seq(x + 1, _ => Other(ByteAt(s[j], x)));
    UncoveredKept(img, Merge(s), x);
    LostValue(img, s, j, x);
    assert Apply(img, Merge(s))[x] != Apply(img, s)[x];
  }

  lemma UncappedJoins(s: seq<Request>, i: nat)
    requires Sorted(s) && AllWhole(s) && NeverCapped(s) && 0 < i < |s| && Start(s[i]) <= End(s[i - 1])
    ensures Joins(s, i)
  {
    hide Merge, Capped, Flatten, NeverCapped, Mergeable, Whole;
    var t := s[..i + 1];
    UncappedPrefix(s, i + 1);
    assert t[..i] == s[..i];
    UncappedLast(t);
  }

  lemma UncappedLast(s: seq<Request>)
    requires Sorted(s) && AllWhole(s) && NeverCapped(s) && |s| > 1 && Start(s[|s| - 1]) <= End(s[|s| - 2])
    ensures var out := Merge(s[..|s| - 1]); Mergeable(out[|out| - 1], s[|s| - 1])
  {
    MergeLast(s[..|s| - 1]);
    hide Merge, Capped, Flatten, Whole;
  }

  lemma {:induction false} UncappedPrefix(s: seq<Request>, i: nat)
    requires Sorted(s) && NeverCapped(s) && i <= |s|
    ensures NeverCapped(s[..i])
    decreases |s|
  {
    if i < |s| {
      if |s| > 1 {
        UncappedPrefix(s[..|s| - 1], i);
        assert s[..|s| - 1][..i] == s[..i];
      }
    } else {
      assert s[..i] == s;
    }
  }

  /** A request inside another: its end cuts the other short. */
  lemma ContainedLosesTail(o: Request, r: Request) returns (img: seq<Byte>)
    requires Whole(o) && Whole(r) && o.sector <= r.sector && End(r) < End(o) && !Capped(o, r)
    ensures Apply(img, Merge([o, r])) != Apply(img, [o, r])
  {
    hide Merge, Apply, Whole;
    var s := [o, r];
    var x := End(r);
    assert Covers(s[0], x) && !CoveredFrom(s, 2, x) && s[0 + 1] == r;
    NotCapped(o, r);
    img := UncappedImage(s, 0, x);
  }

  /** Sectors 0 and 1, then sector 0 again: sector 1 is not written. */
  lemma ContainedExample(d: seq<Byte>)
    requires |d| == SECTOR
    ensures var s := [Request(0, 2, [d + d]), Request(0, 1, [d])];
            Sorted(s) && AllWhole(s) && exists img :: Apply(img, Merge(s)) != Apply(img, s)
  {
    hide Merge, Apply, Flatten;
    WholeOne(0, 2, d + d);
    WholeOne(0, 1, d);
    var img := ContainedLosesTail(Request(0, 2, [d + d]), Request(0, 1, [d]));
  }

  lemma WholeOne(sector: nat, n: nat, d: seq<Byte>)
    requires |d| == n * SECTOR
    ensures Whole(Request(sector, n, [d])) && Flatten([d]) == d
  {
    FlattenOne(d);
  }

  lemma NotCapped(o: Request, r: Request)
    requires o.sector <= r.sector && !Capped(o, r)
    ensures Sorted([o, r]) && NeverCapped([o, r])
  {
    assert [o, r][..1] == [o];
  }

  function TotalIov(s: seq<Request>): nat {
    if s == [] then 0 else TotalIov(s[..|s| - 1]) + |s[|s| - 1].iov|
  }

  /** No request left has a longer vector than the limit, if none of the caller's had. */
  lemma {:induction false} VectorsFit(s: seq<Request>)
    requires |s| > 0 && Sorted(s) && AllWhole(s) && forall r :: r in s ==> |r.iov| <= 1024
    ensures forall r :: r in Merge(s) ==> |r.iov| <= 1024
  {
    hide Joined, Whole, Merge, Sorted;
    var n := |s|;
    if n == 1 {
      MergeOne(s);
    } else {
      SortedPrefix(s, n - 1);
      WholePrefix(s, n - 1);
      var s', r := s[..n - 1], s[n - 1];
      VectorsFit(s');
      MergeUnfold(s, n);
      assert s[..n] == s;
      var out := Merge(s');
      if Mergeable(out[|out| - 1], r) {
        JoinedIs(out[|out| - 1], r);
      }
    }
  }

  /** Two requests that touch or overlap are joined exactly if their vectors, with one element to spare, stay below the
      limit of 1024. */
  lemma MergeableIs(o: Request, r: Request)
    requires o.sector <= r.sector
    ensures Merge([o, r]) == (if r.sector <= o.sector + o.nbSectors && |o.iov| + |r.iov| < 1024 then [Joined(o, r)] else [o, r])
  {
    hide Joined;
    assert [o, r][..1] == [o];
  }

  /** Short vectors never meet the limit. */
  lemma {:induction false} ShortVectors(s: seq<Request>)
    requires |s| > 0 && Sorted(s) && AllWhole(s) && TotalIov(s) < IOV_MAX
    ensures NeverCapped(s) && |Merge(s)[|Merge(s)| - 1].iov| <= TotalIov(s)
  {
    hide Flatten, Joined, Whole;
    var s', r := s[..|s| - 1], s[|s| - 1];
    if |s| > 1 {
      ShortVectors(s');
      MergeLast(s');
      var o := Merge(s')[|Merge(s')| - 1];
      if Mergeable(o, r) {
        JoinedIs(o, r);
      }
    }
  }

  // ----- Order -----

  /** Requests that write the same byte write the same value there. */
  ghost predicate Consistent(s: seq<Request>) {
    && AllWhole(s)
    && forall i, j, x: nat :: 0 <= i < |s| && 0 <= j < |s| && Covers(s[i], x) && Covers(s[j], x) ==> ByteAt(s[i], x) == ByteAt(s[j], x)
  }

  lemma {:induction false} ConsistentByte(img: seq<Byte>, s: seq<Request>, x: nat, r: Request)
    requires Consistent(s) && x < |img| && r in s && Covers(r, x)
    ensures Apply(img, s)[x] == ByteAt(r, x)
  {
    hide Flatten;
    var s', l := s[..|s| - 1], s[|s| - 1];
    assert s == s' + [l];
    ApplySnoc(img, s', l, x);
    if !Covers(l, x) {
      ConsistentByte(img, s', x, r);
    }
  }

  /** Requests that do not conflict may be carried out in any order. */
  lemma AnyOrder(img: seq<Byte>, s: seq<Request>, t: seq<Request>)
    requires Consistent(s) && multiset(s) == multiset(t)
    ensures Apply(img, s) == Apply(img, t)
  {
    hide Apply, ByteAt, Whole;
    SameMembers(s, t);
    forall x | 0 <= x < |img| ensures Apply(img, s)[x] == Apply(img, t)[x] {
      if CoveredBy(s, x) {
        var k :| 0 <= k < |s| && Covers(s[k], x);
        assert s[k] in t;
        ConsistentByte(img, s, x, s[k]);
        ConsistentByte(img, t, x, s[k]);
      } else {
        assert forall k :: 0 <= k < |t| ==> t[k] in s;
        UncoveredKept(img, s, x);
        UncoveredKept(img, t, x);
      }
    }
  }

  lemma SameMembers(s: seq<Request>, t: seq<Request>)
    requires multiset(s) == multiset(t)
    ensures forall r :: r in s <==> r in t
    ensures Consistent(s) ==> Consistent(t)
    ensures AllWhole(s) ==> AllWhole(t)
  {
    hide ByteAt, Covers, Whole;
    assert forall r :: r in s <==> r in multiset(s);
    assert forall r :: r in t <==> r in multiset(t);
    assert forall k :: 0 <= k < |t| ==> t[k] in s;
  }

  /** When the limit is not met, the merged requests may complete in any order. */
  lemma MergedAnyOrder(img: seq<Byte>, s: seq<Request>, t: seq<Request>)
    requires |s| > 0 && Sorted(s) && AllWhole(s) && NeverCapped(s) && NoTailLost(s)
    requires multiset(t) == multiset(Merge(s))
    ensures Apply(img, t) == Apply(img, s)
  {
    hide Apply, Merge, ByteAt, Whole;
    MergeGapped(s);
    MergeLast(s);
    MergePreserves(img, s);
    AnyOrder(img, Merge(s), t);
  }

  // ----- The array -----

  /** The array a after the first i requests of s: merged requests up to `last`, the old entries
      behind. */
  ghost predicate Merged(a: seq<Request>, s: seq<Request>, last: nat, i: nat)
    requires Sorted(s)
  {
    && last < i <= |s| == |a|
    && a[..last + 1] == Merge(s[..i])
    && a[last + 1..] == s[last + 1..]
  }

  lemma MergedFirst(s: seq<Request>)
    requires |s| > 0 && Sorted(s)
    ensures Merged(s, s, 0, 1)
  {
    assert s[..1] == [s[0]];
  }

  lemma SetLast(a: seq<Request>, last: nat, r: Request)
    requires last < |a|
    ensures a[last := r][..last + 1] == a[..last + 1][..last] + [r] && a[last := r][last + 1..] == a[last + 1..]
  {}

  lemma SetNext(a: seq<Request>, s: seq<Request>, last: nat, r: Request)
    requires last + 1 < |a| && |s| == |a| && a[last + 1..] == s[last + 1..]
    ensures a[last + 1 := r][..last + 2] == a[..last + 1] + [r] && a[last + 1 := r][last + 2..] == s[last + 2..]
  {
    assert a[last + 1..][1..] == s[last + 1..][1..];
  }

  lemma MergedEntries(a: seq<Request>, s: seq<Request>, last: nat, i: nat)
    requires Sorted(s) && AllWhole(s) && Merged(a, s, last, i) && i < |s|
    ensures a[i] == s[i] && a[last].sector <= s[i].sector
    ensures var out := Merge(s[..i]);
            && a[last] == out[|out| - 1] && a[..last + 1] == out && |out| == last + 1
            && Merge(s[..i + 1]) == if Mergeable(a[last], a[i]) then out[..last] + [Joined(a[last], a[i])] else out + [a[i]]
  {
    hide Joined, Whole, Mergeable, Merge, AllWhole, End, Sorted;
    SortedPrefix(s, i);
    SortedPrefix(s, i + 1);
    assert a[last + 1..][i - last - 1] == s[last + 1..][i - last - 1];
    assert a[last] == a[..last + 1][last];
    MergeUnfold(s, i + 1);
  }

  lemma MergedStep(a: seq<Request>, s: seq<Request>, last: nat, i: nat)
    requires Sorted(s) && AllWhole(s) && Merged(a, s, last, i) && i < |s|
    ensures a[i] == s[i] && a[last].sector <= s[i].sector
    ensures if Mergeable(a[last], a[i])
            then Merged(a[last := Joined(a[last], a[i])], s, last, i + 1)
            else Merged(a[last + 1 := a[i]], s, last + 1, i + 1)
  {
    MergedEntries(a, s, last, i);
    hide Joined, Whole, Mergeable, Merge, Sorted, AllWhole, End;
    if Mergeable(a[last], a[i]) {
      SetLast(a, last, Joined(a[last], a[i]));
    } else {
      SetNext(a, s, last, a[i]);
    }
  }

  /** The merge loop of multiwrite_merge, on a sorted array: the first n entries hold the merged
      requests afterwards. */
  method MergeInPlace(reqs: array<Request>) returns (n: nat)
    requires reqs.Length > 0 && Sorted(reqs[..]) && AllWhole(reqs[..])
    modifies reqs
    ensures 0 < n <= reqs.Length && reqs[..n] == Merge(old(reqs[..]))
    ensures reqs[n..] == old(reqs[n..])
  {
    hide Joined, Flatten, Whole, Merge, Sorted, AllWhole;
    ghost var s := reqs[..];
    var outidx: nat, i: nat := 0, 1;
    MergedFirst(s);
    while i < reqs.Length
      invariant i <= reqs.Length == |s|
      invariant Merged(reqs[..], s, outidx, i)
    {
      hide Merged;
      MergedBounds(reqs[..], s, outidx, i);
      MergedStep(reqs[..], s, outidx, i);
      ghost var a := reqs[..];
      if Mergeable(reqs[outidx], reqs[i]) {
        reqs[outidx] := Joined(reqs[outidx], reqs[i]);
        assert reqs[..] == a[outidx := Joined(a[outidx], a[i])];
      } else {
        outidx := outidx + 1;
        reqs[outidx] := reqs[i];
        assert reqs[..] == a[outidx := a[i]];
      }
      i := i + 1;
    }
    assert s[..i] == s;
    assert reqs[..outidx + 1] == reqs[..][..outidx + 1];
    assert reqs[outidx + 1..] == reqs[..][outidx + 1..];
    return outidx + 1;
  }

  lemma MergedBounds(a: seq<Request>, s: seq<Request>, last: nat, i: nat)
    requires Sorted(s) && Merged(a, s, last, i)
    ensures last < i <= |s| == |a|
  {}

  /** One place further to the left, as often as needed. */
  function Insert(s: seq<Request>, r: Request): (t: seq<Request>)
    ensures |t| == |s| + 1
  {
    if s == [] || s[|s| - 1].sector <= r.sector then s + [r] else Insert(s[..|s| - 1], r) + [s[|s| - 1]]
  }

  lemma SortedSnoc(s: seq<Request>, r: Request)
    requires Sorted(s) && (s == [] || s[|s| - 1].sector <= r.sector)
    ensures Sorted(s + [r])
  {}

  lemma SortedFront(s: seq<Request>)
    requires |s| > 0 && Sorted(s)
    ensures Sorted(s[..|s| - 1]) && (|s| > 1 ==> s[|s| - 2].sector <= s[|s| - 1].sector)
  {}

  lemma {:induction false} InsertIs(s: seq<Request>, r: Request)
    requires Sorted(s)
    ensures Sorted(Insert(s, r)) && multiset(Insert(s, r)) == multiset(s) + multiset{r}
    ensures Insert(s, r)[|s|] == if s == [] || s[|s| - 1].sector <= r.sector then r else s[|s| - 1]
  {
    hide Sorted;
    if s == [] || s[|s| - 1].sector <= r.sector {
      SortedSnoc(s, r);
    } else {
      var front, l := s[..|s| - 1], s[|s| - 1];
      SortedFront(s);
      InsertIs(front, r);
      InsertLast(front, r, l);
      assert s == front + [l];
    }
  }

  lemma InsertLast(front: seq<Request>, r: Request, l: Request)
    requires Sorted(Insert(front, r)) && Insert(front, r)[|front|].sector <= l.sector
    requires multiset(Insert(front, r)) == multiset(front) + multiset{r}
    ensures Sorted(Insert(front, r) + [l]) && multiset(Insert(front, r) + [l]) == multiset(front + [l]) + multiset{r}
  {
    hide Sorted, Insert;
    SortedSnoc(Insert(front, r), l);
  }

  lemma SortedNone()
    ensures Sorted([])
  {}

  method SortValues(s: seq<Request>) returns (t: seq<Request>)
    ensures Sorted(t) && multiset(t) == multiset(s) && |t| == |s|
  {
    hide Insert, Sorted;
    t := [];
    SortedNone();
    for i := 0 to |s|
      invariant |t| == i && Sorted(t) && multiset(t) == multiset(s[..i])
    {
      assert s[..i + 1] == s[..i] + [s[i]];
      InsertIs(t, s[i]);
      t := Insert(t, s[i]);
    }
    assert s[..|s|] == s;
  }

  /** The sort by start sector; the library may order requests of equal sectors differently. */
  method Sort(reqs: array<Request>)
    modifies reqs
    ensures Sorted(reqs[..]) && multiset(reqs[..]) == multiset(old(reqs[..]))
  {
    hide Sorted;
    var t := SortValues(reqs[..]);
    CopyBack(reqs, t);
  }

  method CopyBack(reqs: array<Request>, t: seq<Request>)
    requires |t| == reqs.Length
    modifies reqs
    ensures reqs[..] == t
  {
    for i := 0 to reqs.Length
      invariant reqs[..i] == t[..i]
    {
      reqs[i] := t[i];
    }
  }

  /** Different requests do not overlap, and none is empty. */
  ghost predicate Disjoint(s: seq<Request>) {
    && (forall r :: r in s ==> Whole(r) && r.nbSectors > 0)
    && forall q, r :: q in s && r in s && q != r ==> End(q) <= Start(r) || End(r) <= Start(q)
  }

  lemma DisjointSorted(s: seq<Request>, t: seq<Request>)
    requires Disjoint(s) && multiset(s) == multiset(t) && Sorted(t)
    ensures Consistent(s) && Disjoint(t) && NoTailLost(t) && AllWhole(t)
  {
    hide Flatten, Whole;
    SameMembers(s, t);
    assert EndsRise(t) by {
      forall j | 0 <= j < |t| - 1 ensures End(t[j]) <= End(t[j + 1]) {
        assert t[j] in s && t[j + 1] in s;
      }
    }
    RisingLosesNothing(t);
  }

  /** multiwrite_merge: what is left is the merge of some sorted order of the requests; when the
      requests do not overlap, it does to every image what the caller's requests do. */
  method MultiwriteMerge(reqs: array<Request>) returns (n: nat)
    requires reqs.Length > 0 && AllWhole(reqs[..])
    modifies reqs
    ensures 0 < n <= reqs.Length
    ensures exists s :: s != [] && Sorted(s) && multiset(s) == multiset(old(reqs[..])) && reqs[..n] == Merge(s)
    ensures Disjoint(old(reqs[..])) ==> forall img :: Apply(img, reqs[..n]) == Apply(img, old(reqs[..]))
  {
    hide Merge, Apply, NoTailLost, Flatten, Disjoint, Consistent;
    ghost var r := reqs[..];
    Sort(reqs);
    ghost var s := reqs[..];
    SameMembers(r, s);
    n := MergeInPlace(reqs);
    if Disjoint(r) {
      DisjointSorted(r, s);
      forall img ensures Apply(img, reqs[..n]) == Apply(img, r) {
        AnyOrder(img, r, s);
        MergePreserves(img, s);
      }
    }
  }
}
