/**
  A live migration as a whole: the guest writes while rounds of pages are sent, its writes reach the
  dirty bitmap when the dirty log is read, and a last round is sent when the guest has stopped. Scan
  and stream together leave the receiver with the sender's memory, exactly unless the scan loses the
  last page.
 */
module Migration {
  import opened Bytes
  import opened Common
  import Bitmap = MigrationBitmap
  import Stream = MigrationStream

  /** The contents of every page of every block. */
  type Memory = seq<seq<seq<Byte>>>

  /** What happens during the rounds: a guest write, reading the dirty log, sending a page. */
  datatype Op = GuestWrite(b: nat, o: nat, data: seq<Byte>) | ReadLog | SendPage

  /** The names of the blocks, and their pages in the bitmap. */
  datatype Config = Config(names: seq<seq<Byte>>, blocks: seq<Bitmap.Block>)

  /** The state of the sender: the scan, the pages written since the dirty log was read, the memory, and the
      pages sent so far. */
  datatype State = State(bits: seq<bool>, seen: Option<nat>, off: nat, bulk: bool,
                         log: set<(nat, nat)>, mem: Memory, sent: seq<Stream.Page>)

  predicate Page(c: Config, b: int, o: int) {
    InBlocks(c.blocks, b, o)
  }

  predicate InBlocks(blocks: seq<Bitmap.Block>, b: int, o: int) {
    0 <= b < |blocks| && 0 <= o < blocks[b].len
  }

  predicate Shaped(c: Config, mem: Memory) {
    && |mem| == |c.blocks|
    && (forall b :: 0 <= b < |mem| ==> |mem[b]| == c.blocks[b].len)
    && forall b, o :: 0 <= b < |mem| && 0 <= o < |mem[b]| ==> |mem[b][o]| == PAGE
  }

  ghost predicate Sane(c: Config, pages: nat) {
    && Bitmap.Layout(c.blocks, pages) && |c.names| == |c.blocks|
    && forall i, j :: 0 <= i < j < |c.names| ==> c.names[i] != c.names[j]
  }

  predicate Possible(c: Config, op: Op) {
    op.GuestWrite? ==> Page(c, op.b, op.o) && |op.data| == PAGE
  }

  /** The last page of the last block, on which the first pass ends. */
  predicate IsLast(c: Config, b: int, o: int) {
    b == |c.blocks| - 1 && 0 <= b && o == c.blocks[b].len - 1
  }

  predicate WritesLast(c: Config, op: Op) {
    op.GuestWrite? && IsLast(c, op.b, op.o)
  }

  ghost predicate Dirty(c: Config, s: State, b: int, o: int) {
    Bitmap.Dirty(c.blocks, s.bits, b, o)
  }

  /** The state from which the scan sends nothing although the last page is dirty. */
  ghost predicate Stuck(c: Config, s: State) {
    Bitmap.OnlyCursor(c.blocks, s.bits, s.seen, s.off, s.bulk)
  }

  // ----- Memory and page writes -----

  function Write(mem: Memory, op: Op): Memory {
    if op.GuestWrite? && op.b < |mem| && op.o < |mem[op.b]| then mem[op.b := mem[op.b][op.o := op.data]] else mem
  }

  /** The guest's memory after the operations. */
  function After(mem: Memory, ops: seq<Op>): Memory {
    if ops == [] then mem else Write(After(mem, ops[..|ops| - 1]), ops[|ops| - 1])
  }

  /** What the last write to a page left there. */
  function LastWrite(ps: seq<Stream.Page>, name: seq<Byte>, o: nat): Option<seq<Byte>> {
    if ps == [] then None
    else
      var p := ps[|ps| - 1];
      if p.name == name && p.offset == o then Some(p.data) else LastWrite(ps[..|ps| - 1], name, o)
  }

  lemma LastSnoc(ps: seq<Stream.Page>, p: Stream.Page, name: seq<Byte>, o: nat)
    ensures LastWrite(ps + [p], name, o) == if p.name == name && p.offset == o then Some(p.data) else LastWrite(ps, name, o)
  {
    assert (ps + [p])[..|ps|] == ps;
  }

  /** The last write to the page brought its contents in mem, whatever was there before. */
  ghost predicate Arrived(c: Config, mem: Memory, writes: seq<Stream.Page>, b: int, o: int)
    requires Page(c, b, o) && |c.names| == |c.blocks| && Shaped(c, mem)
  {
    LastWrite(writes, c.names[b], o) == Some(mem[b][o])
  }

  // ----- Steps -----

  /** The first dirty page from the cursor on. */
  ghost predicate First(c: Config, s: State, b: int, o: int) {
    Bitmap.Soonest(c.blocks, s.bits, Bitmap.Home(s.seen), Bitmap.From(s.off, s.bulk), b, o)
  }

  /** Page (b, o), dirty before, is sent as it is. */
  ghost predicate SendsOne(c: Config, s: State, t: State, b: int, o: int)
    requires |c.names| == |c.blocks| && Shaped(c, s.mem)
  {
    && Dirty(c, s, b, o) && Page(c, b, o) && First(c, s, b, o) && |s.bits| == |t.bits|
    && t.sent == s.sent + [Stream.Page(c.names[b], o, s.mem[b][o])]
    && (forall d, p :: Dirty(c, t, d, p) <==> Dirty(c, s, d, p) && !(d == b && p == o))
    && t.seen == Some(b) && t.off == o
  }

  /** Nothing is sent, and no page is dirty afterwards; the first pass, if it was not, is over. */
  ghost predicate SendsNone(c: Config, s: State, t: State) {
    && Bitmap.AllClean(c.blocks, t.bits) && |s.bits| == |t.bits| && t.sent == s.sent && !t.bulk
    && s.seen.Some? && s.seen.value < |c.blocks| && t.seen == s.seen
    && t.off == if Stuck(c, s) then s.off else c.blocks[s.seen.value].len
  }

  /** The first pass goes on exactly as long as a page is next in it. */
  ghost predicate KeepsPass(c: Config, s: State, t: State) {
    && (s.seen.Some? ==> s.seen.value < |c.blocks|)
    && var next := Bitmap.NextPage(c.blocks, s.bits, s.seen, s.off);
       && (t.bulk <==> s.bulk && next.0 < |c.blocks|)
       && (t.bulk ==> t.seen == Some(next.0) && t.off == next.1)
  }

  /** ram_save_block: nothing is sent exactly when no page is dirty or the scan is stuck. */
  ghost predicate Sends(c: Config, s: State, t: State)
    requires |c.names| == |c.blocks| && Shaped(c, s.mem)
  {
    && KeepsPass(c, s, t)
    && if Bitmap.AllClean(c.blocks, s.bits) || Stuck(c, s) then SendsNone(c, s, t) else exists b, o :: SendsOne(c, s, t, b, o)
  }

  /** The operation takes s to t. */
  ghost predicate Next(c: Config, s: State, op: Op, t: State)
    requires |c.names| == |c.blocks| && Shaped(c, s.mem)
  {
    match op
    case GuestWrite(b, o, _) => t == s.(mem := Write(s.mem, op), log := s.log + {(b, o)})
    case ReadLog =>
      && t == s.(bits := t.bits, log := {})
      && forall b: nat, o: nat :: Page(c, b, o) ==> (Dirty(c, t, b, o) <==> Dirty(c, s, b, o) || (b, o) in s.log)
    case SendPage => t.mem == s.mem && t.log == s.log && Sends(c, s, t)
  }

  ghost predicate Start(c: Config, mem: Memory, s: State) {
    && s.log == {} && s.sent == [] && s.mem == mem && s.seen == None && s.off == 0 && s.bulk
    && forall b, o :: Page(c, b, o) ==> Dirty(c, s, b, o)
  }

  /** h holds the states before, between and after the operations. */
  ghost predicate IsRun(c: Config, mem: Memory, ops: seq<Op>, h: seq<State>) {
    && |c.names| == |c.blocks| && |h| == |ops| + 1 && Start(c, mem, h[0])
    && (forall k :: 0 <= k < |h| ==> Shaped(c, h[k].mem))
    && forall k :: 0 <= k < |ops| ==> Possible(c, ops[k]) && Next(c, h[k], ops[k], h[k + 1])
  }

  /** The last round, from a state with an empty log: the pages in list are sent, in that order, each once. */
  ghost predicate Completes(c: Config, s: State, list: seq<(nat, nat)>) {
    && s.log == {} && (forall k :: 0 <= k < |list| ==> Page(c, list[k].0, list[k].1))
    && if Stuck(c, s) then list == []
       else && (forall b: nat, o: nat :: Page(c, b, o) ==> (Dirty(c, s, b, o) <==> (b, o) in list))
            && forall j, k :: 0 <= j < k < |list| ==> list[j] != list[k]
  }

  // ----- What a step does to a page -----

  /** The page is still to be sent, or was sent as it is. */
  ghost predicate Settled(c: Config, s: State, b: nat, o: nat)
    requires Page(c, b, o) && |c.names| == |c.blocks| && Shaped(c, s.mem)
  {
    Dirty(c, s, b, o) || (b, o) in s.log || Arrived(c, s.mem, s.sent, b, o)
  }

  /** The operation loses page (b, o): the scan is stuck on it, the log does not know of it, and it was not sent
      as it is. */
  ghost predicate Loses(c: Config, s: State, op: Op, b: nat, o: nat)
    requires Page(c, b, o) && |c.names| == |c.blocks| && Shaped(c, s.mem)
  {
    op.SendPage? && Stuck(c, s) && IsLast(c, b, o) && (b, o) !in s.log && !Arrived(c, s.mem, s.sent, b, o)
  }

  lemma StuckLast(c: Config, s: State, b: nat, o: nat)
    requires Stuck(c, s) && Page(c, b, o)
    ensures Dirty(c, s, b, o) <==> IsLast(c, b, o)
  {}

  /** A page stays settled unless it is lost, and once it is not settled only a guest write changes that. */
  lemma NextSettled(c: Config, s: State, op: Op, t: State, b: nat, o: nat, pages: nat)
    requires Sane(c, pages) && Shaped(c, s.mem) && Shaped(c, t.mem) && Possible(c, op) && Next(c, s, op, t) && Page(c, b, o)
    ensures Settled(c, s, b, o) ==> (Settled(c, t, b, o) <==> !Loses(c, s, op, b, o))
    ensures !Settled(c, s, b, o) ==> (Settled(c, t, b, o) <==> op.GuestWrite? && op.b == b && op.o == o)
    ensures Loses(c, s, op, b, o) ==> op.SendPage?
  {
    hide Bitmap.Dirty, Bitmap.Layout, Bitmap.OnlyCursor, LastWrite;
    match op {
      case GuestWrite(_, _, _) =>
      case ReadLog =>
      case SendPage =>
        SendSettled(c, s, t, b, o, pages);
    }
  }

  lemma SendSettled(c: Config, s: State, t: State, b: nat, o: nat, pages: nat)
    requires Sane(c, pages) && Shaped(c, s.mem) && t.mem == s.mem && t.log == s.log && Sends(c, s, t) && Page(c, b, o)
    ensures Settled(c, s, b, o) ==> (Settled(c, t, b, o) <==> !Loses(c, s, SendPage, b, o))
    ensures !Settled(c, s, b, o) ==> !Settled(c, t, b, o)
  {
    if Bitmap.AllClean(c.blocks, s.bits) || Stuck(c, s) {
      if Stuck(c, s) {
        StuckLast(c, s, b, o);
      }
    } else {
      hide Bitmap.Dirty, Bitmap.Layout, Bitmap.OnlyCursor, LastWrite;
      var d, p :| SendsOne(c, s, t, d, p);
      LastSnoc(s.sent, Stream.Page(c.names[d], p, s.mem[d][p]), c.names[b], o);
    }
  }

  // ----- Runs -----

  /** Operation k loses the page, and none after it, before n, writes to it. */
  ghost predicate LostAt(c: Config, ops: seq<Op>, h: seq<State>, k: int, n: int, b: nat, o: nat)
    requires Page(c, b, o) && |c.names| == |c.blocks| && 0 <= k < n <= |ops| < |h| && Shaped(c, h[k].mem)
  {
    Loses(c, h[k], ops[k], b, o) && forall m :: k < m < n ==> !(ops[m].GuestWrite? && ops[m].b == b && ops[m].o == o)
  }

  /** Some operation before n loses the page for good. */
  ghost predicate LostBefore(c: Config, mem: Memory, ops: seq<Op>, h: seq<State>, n: nat, b: nat, o: nat)
    requires IsRun(c, mem, ops, h) && n <= |ops| && Page(c, b, o)
  {
    exists k :: 0 <= k < n && LostAt(c, ops, h, k, n, b, o)
  }

  /** At every point of every run, a page is settled exactly unless an operation has lost it for good. */
  lemma {:induction false} RunSettled(c: Config, pages: nat, mem: Memory, ops: seq<Op>, h: seq<State>, n: nat, b: nat, o: nat)
    requires Sane(c, pages) && IsRun(c, mem, ops, h) && n <= |ops| && Page(c, b, o)
    ensures Settled(c, h[n], b, o) <==> !LostBefore(c, mem, ops, h, n, b, o)
  {
    hide Settled, Loses, Next, Sane;
    if n == 0 {
      StartSettled(c, mem, h[0], b, o);
    } else {
      var m := n - 1;
      RunSettled(c, pages, mem, ops, h, m, b, o);
      NextSettled(c, h[m], ops[m], h[m + 1], b, o, pages);
      LostStep(c, mem, ops, h, m, n, b, o);
    }
  }

  lemma StartSettled(c: Config, mem: Memory, s: State, b: nat, o: nat)
    requires Start(c, mem, s) && Page(c, b, o) && |c.names| == |c.blocks| && Shaped(c, s.mem)
    ensures Settled(c, s, b, o)
  {}

  /** Lost before n: lost before, without a guest write now, or lost now. */
  lemma LostStep(c: Config, mem: Memory, ops: seq<Op>, h: seq<State>, m: nat, n: nat, b: nat, o: nat)
    requires IsRun(c, mem, ops, h) && n == m + 1 <= |ops| && Page(c, b, o)
    ensures LostBefore(c, mem, ops, h, n, b, o) <==>
              || (LostBefore(c, mem, ops, h, m, b, o) && !(ops[m].GuestWrite? && ops[m].b == b && ops[m].o == o))
              || Loses(c, h[m], ops[m], b, o)
  {
    hide Loses, Next;
    if Loses(c, h[m], ops[m], b, o) {
      assert LostAt(c, ops, h, m, n, b, o);
    }
    if k :| 0 <= k < m && LostAt(c, ops, h, k, m, b, o) {
      if !(ops[m].GuestWrite? && ops[m].b == b && ops[m].o == o) {
        assert LostAt(c, ops, h, k, n, b, o);
      }
    }
    if k :| 0 <= k < n && LostAt(c, ops, h, k, n, b, o) {
      if k < m {
        assert LostAt(c, ops, h, k, m, b, o);
      }
    }
  }

  // ----- The first pass -----

  lemma PassStep(c: Config, s: State, op: Op, t: State)
    requires |c.names| == |c.blocks| && Shaped(c, s.mem) && Next(c, s, op, t)
    ensures t.bulk ==> s.bulk
    ensures op.SendPage? && Stuck(c, s) ==> !t.bulk
  {
    hide Bitmap.Dirty, Bitmap.Soonest;
  }

  /** Once over, the first pass does not come back. */
  lemma {:induction false} PassOver(c: Config, mem: Memory, ops: seq<Op>, h: seq<State>, k: nat, n: nat)
    requires IsRun(c, mem, ops, h) && k <= n <= |ops| && !h[k].bulk
    ensures !h[n].bulk && !Stuck(c, h[n])
  {
    hide Next;
    if k < n {
      var m := n - 1;
      PassOver(c, mem, ops, h, k, m);
      PassStep(c, h[m], ops[m], h[m + 1]);
    }
  }

  /** A send while the scan is stuck ends the first pass, so the scan is never stuck again. */
  lemma LossEndsPass(c: Config, mem: Memory, ops: seq<Op>, h: seq<State>, k: nat, n: nat)
    requires IsRun(c, mem, ops, h) && k < n <= |ops| && ops[k].SendPage? && Stuck(c, h[k])
    ensures !Stuck(c, h[n])
  {
    hide Next, Stuck;
    PassStep(c, h[k], ops[k], h[k + 1]);
    PassOver(c, mem, ops, h, k + 1, n);
  }

  /** Of all the operations of a run, and the last round, at most one loses a page. */
  lemma OneLoss(c: Config, mem: Memory, ops: seq<Op>, h: seq<State>, j: nat, b: nat, o: nat, k: nat, d: nat, p: nat)
    requires IsRun(c, mem, ops, h) && j < |ops| && k < |ops| && Page(c, b, o) && Page(c, d, p)
    requires Loses(c, h[j], ops[j], b, o) && Loses(c, h[k], ops[k], d, p)
    ensures j == k && !Loses(c, h[|ops|], SendPage, b, o)
  {
    hide Next, Stuck;
    LossEndsPass(c, mem, ops, h, j, |ops|);
    if j < k {
      LossEndsPass(c, mem, ops, h, j, k);
    } else if k < j {
      LossEndsPass(c, mem, ops, h, k, j);
    }
  }

  /** After the first pass a send sends nothing exactly if no page is dirty. */
  lemma SendsWhenDirty(c: Config, mem: Memory, ops: seq<Op>, h: seq<State>, k: nat, n: nat)
    requires IsRun(c, mem, ops, h) && k <= n < |ops| && !h[k].bulk && ops[n].SendPage?
    ensures h[n + 1].sent == h[n].sent <==> Bitmap.AllClean(c.blocks, h[n].bits)
  {
    PassOver(c, mem, ops, h, k, n);
    assert Next(c, h[n], ops[n], h[n + 1]);
    hide Next, Stuck, Bitmap.AllClean, Bitmap.Dirty, Bitmap.Soonest;
  }

  /** In the first pass every page up to the cursor was sent. */
  ghost predicate PassSent(c: Config, s: State)
    requires |c.names| == |c.blocks|
  {
    s.bulk && s.seen.Some? ==> forall b: nat, o: nat :: Page(c, b, o) && (b < s.seen.value || (b == s.seen.value && o <= s.off)) ==>
      LastWrite(s.sent, c.names[b], o).Some?
  }

  /** The first pass sends every page, in order: at any point of it, all those up to the cursor. */
  lemma {:induction false} PassSends(c: Config, mem: Memory, ops: seq<Op>, h: seq<State>, n: nat)
    requires IsRun(c, mem, ops, h) && n <= |ops|
    ensures PassSent(c, h[n])
  {
    hide Next, PassSent;
    if n == 0 {
      NoneSent(c, mem, h[0]);
    } else {
      var m := n - 1;
      PassSends(c, mem, ops, h, m);
      PassSentStep(c, h[m], ops[m], h[m + 1]);
    }
  }

  lemma NoneSent(c: Config, mem: Memory, s: State)
    requires |c.names| == |c.blocks| && Start(c, mem, s)
    ensures PassSent(c, s)
  {}

  lemma PassSentStep(c: Config, s: State, op: Op, t: State)
    requires |c.names| == |c.blocks| && Shaped(c, s.mem) && Next(c, s, op, t) && PassSent(c, s)
    ensures PassSent(c, t)
  {
    hide Bitmap.Dirty, Bitmap.Soonest, LastWrite, Bitmap.OnlyCursor, Bitmap.AllClean;
    if op.SendPage? && t.bulk {
      var d, p :| SendsOne(c, s, t, d, p);
      forall b: nat, o: nat | Page(c, b, o) && (b < d || (b == d && o <= p)) ensures LastWrite(t.sent, c.names[b], o).Some? {
        LastSnoc(s.sent, Stream.Page(c.names[d], p, s.mem[d][p]), c.names[b], o);
      }
    }
  }

  /** So when the scan is stuck, every page was sent at least once. */
  lemma StuckSent(c: Config, mem: Memory, ops: seq<Op>, h: seq<State>, n: nat, b: nat, o: nat)
    requires IsRun(c, mem, ops, h) && n <= |ops| && Stuck(c, h[n]) && Page(c, b, o)
    ensures LastWrite(h[n].sent, c.names[b], o).Some?
  {
    hide Next, LastWrite;
    PassSends(c, mem, ops, h, n);
  }

  // ----- The last round -----

  predicate InMemory(names: seq<seq<Byte>>, mem: Memory, list: seq<(nat, nat)>) {
    |names| == |mem| && forall k :: 0 <= k < |list| ==> list[k].0 < |mem| && list[k].1 < |mem[list[k].0]|
  }

  /** The pages of a list, as they are in memory. */
  function Contents(names: seq<seq<Byte>>, mem: Memory, list: seq<(nat, nat)>): seq<Stream.Page>
    requires InMemory(names, mem, list)
  {
    if list == [] then []
    else
      var (b, o) := list[|list| - 1];
      Contents(names, mem, list[..|list| - 1]) + [Stream.Page(names[b], o, mem[b][o])]
  }

  lemma {:induction false} ContentsAre(names: seq<seq<Byte>>, mem: Memory, list: seq<(nat, nat)>, p: Stream.Page)
    requires InMemory(names, mem, list) && p in Contents(names, mem, list)
    ensures exists k :: 0 <= k < |list| && p == Stream.Page(names[list[k].0], list[k].1, mem[list[k].0][list[k].1])
  {
    var n := |list| - 1;
    if p in Contents(names, mem, list[..n]) {
      ContentsAre(names, mem, list[..n], p);
    }
  }

  lemma {:induction false} FinalWrite(names: seq<seq<Byte>>, mem: Memory, sent: seq<Stream.Page>, list: seq<(nat, nat)>, b: nat, o: nat)
    requires InMemory(names, mem, list) && b < |mem| && o < |mem[b]|
    requires forall i, j :: 0 <= i < j < |names| ==> names[i] != names[j]
    ensures LastWrite(sent + Contents(names, mem, list), names[b], o) ==
              if (b, o) in list then Some(mem[b][o]) else LastWrite(sent, names[b], o)
  {
    hide LastWrite, Contents;
    ContentsLast(names, mem, list);
    if list == [] {
      assert sent + [] == sent;
    } else {
      var front := list[..|list| - 1];
      var (c, p) := list[|list| - 1];
      var page := Stream.Page(names[c], p, mem[c][p]);
      FinalWrite(names, mem, sent, front, b, o);
      JoinAssoc(sent, Contents(names, mem, front), [page]);
      LastSnoc(sent + Contents(names, mem, front), page, names[b], o);
      assert list == front + [(c, p)];
    }
  }

  lemma ContentsLast(names: seq<seq<Byte>>, mem: Memory, list: seq<(nat, nat)>)
    requires InMemory(names, mem, list)
    ensures list == [] ==> Contents(names, mem, list) == []
    ensures list != [] ==> var (b, o) := list[|list| - 1];
                           Contents(names, mem, list) == Contents(names, mem, list[..|list| - 1]) + [Stream.Page(names[b], o, mem[b][o])]
  {}

  /** After the last round a page has arrived exactly if it was settled and is not the one the scan is stuck on,
      unless that was sent as it is. */
  lemma FinishArrives(c: Config, pages: nat, s: State, list: seq<(nat, nat)>, b: nat, o: nat)
    requires Sane(c, pages) && Shaped(c, s.mem) && Completes(c, s, list) && Page(c, b, o)
    ensures InMemory(c.names, s.mem, list)
    ensures Arrived(c, s.mem, s.sent + Contents(c.names, s.mem, list), b, o) <==>
              Settled(c, s, b, o) && !Loses(c, s, SendPage, b, o)
  {
    hide Bitmap.Dirty, Bitmap.Layout, Bitmap.OnlyCursor, LastWrite;
    FinalWrite(c.names, s.mem, s.sent, list, b, o);
    if Stuck(c, s) {
      StuckLast(c, s, b, o);
    }
  }

  /** The page is lost over the run: an operation loses it for good, or the last round does. */
  ghost predicate Lost(c: Config, mem: Memory, ops: seq<Op>, h: seq<State>, b: nat, o: nat)
    requires IsRun(c, mem, ops, h) && Page(c, b, o)
  {
    LostBefore(c, mem, ops, h, |ops|, b, o) || Loses(c, h[|ops|], SendPage, b, o)
  }

  /** Exactly when the receiver has a page of the sender's memory in the end. */
  lemma ArrivalLaw(c: Config, pages: nat, mem: Memory, ops: seq<Op>, h: seq<State>, list: seq<(nat, nat)>, b: nat, o: nat)
    requires Sane(c, pages) && IsRun(c, mem, ops, h) && Completes(c, h[|ops|], list) && Page(c, b, o)
    ensures InMemory(c.names, h[|ops|].mem, list)
    ensures Arrived(c, h[|ops|].mem, h[|ops|].sent + Contents(c.names, h[|ops|].mem, list), b, o) <==> !Lost(c, mem, ops, h, b, o)
  {
    hide Settled, Loses, Next, Completes, Sane, Contents, Arrived;
    RunSettled(c, pages, mem, ops, h, |ops|, b, o);
    FinishArrives(c, pages, h[|ops|], list, b, o);
  }

  /** Only the last page of the last block can be lost. */
  lemma OnlyLastLost(c: Config, mem: Memory, ops: seq<Op>, h: seq<State>, b: nat, o: nat)
    requires IsRun(c, mem, ops, h) && Page(c, b, o) && Lost(c, mem, ops, h, b, o)
    ensures IsLast(c, b, o)
  {
    hide Next, Stuck;
  }

  /** With the cursor on the last page, that page is clean; and the log does not know of it. */
  ghost predicate LastSent(c: Config, s: State) {
    forall b: nat, o: nat :: IsLast(c, b, o) ==> (b, o) !in s.log && (s.seen == Some(b) && s.off == o ==> !Dirty(c, s, b, o))
  }

  lemma NextLastSent(c: Config, s: State, op: Op, t: State)
    requires |c.names| == |c.blocks| && Shaped(c, s.mem) && Possible(c, op) && Next(c, s, op, t)
    requires LastSent(c, s) && !WritesLast(c, op) && forall i :: 0 <= i < |c.blocks| ==> c.blocks[i].len > 0
    ensures LastSent(c, t)
  {
    hide Bitmap.Dirty;
    if op.SendPage? {
      SendLastSent(c, s, t);
    }
  }

  lemma SendLastSent(c: Config, s: State, t: State)
    requires |c.names| == |c.blocks| && Shaped(c, s.mem) && t.log == s.log && Sends(c, s, t) && LastSent(c, s)
    ensures LastSent(c, t)
  {
    if !(Bitmap.AllClean(c.blocks, s.bits) || Stuck(c, s)) {
      hide Bitmap.Dirty, Bitmap.OnlyCursor;
      var b, o :| SendsOne(c, s, t, b, o);
    }
  }

  /** If the guest never writes to the last page, the scan is never stuck, so no page is lost. */
  lemma {:induction false} NothingLost(c: Config, pages: nat, mem: Memory, ops: seq<Op>, h: seq<State>, n: nat)
    requires Sane(c, pages) && IsRun(c, mem, ops, h) && n <= |ops| && forall k :: 0 <= k < |ops| ==> !WritesLast(c, ops[k])
    ensures LastSent(c, h[n]) && !Stuck(c, h[n])
  {
    hide Next, LastSent;
    if n == 0 {
      StartLastSent(c, mem, h[0]);
    } else {
      var m := n - 1;
      NothingLost(c, pages, mem, ops, h, m);
      NextLastSent(c, h[m], ops[m], h[m + 1]);
    }
    NotStuck(c, h[n]);
  }

  lemma NoneLost(c: Config, pages: nat, mem: Memory, ops: seq<Op>, h: seq<State>, b: nat, o: nat)
    requires Sane(c, pages) && IsRun(c, mem, ops, h) && Page(c, b, o) && forall k :: 0 <= k < |ops| ==> !WritesLast(c, ops[k])
    ensures !Lost(c, mem, ops, h, b, o)
  {
    hide Next, Stuck, LastSent, Sane, WritesLast;
    forall n | 0 <= n <= |ops| ensures !Stuck(c, h[n]) {
      NothingLost(c, pages, mem, ops, h, n);
    }
  }

  lemma StartLastSent(c: Config, mem: Memory, s: State)
    requires Start(c, mem, s)
    ensures LastSent(c, s)
  {}

  lemma NotStuck(c: Config, s: State)
    requires LastSent(c, s)
    ensures !Stuck(c, s)
  {
    if s.seen.Some? {
      var b, o := s.seen.value, s.off;
      assert IsLast(c, b, o) ==> !Dirty(c, s, b, o);
    }
  }

  // ----- The sender -----

  lemma DirtySet(blocks: seq<Bitmap.Block>, bits: seq<bool>, b: nat, o: nat)
    requires Bitmap.Layout(blocks, |bits|) && b < |blocks| && o < blocks[b].len
    ensures forall c, p :: Bitmap.Dirty(blocks, bits[blocks[b].base + o := true], c, p) <==>
                             Bitmap.Dirty(blocks, bits, c, p) || (c == b && p == o)
  {
    var t := bits[blocks[b].base + o := true];
    forall c, p | InBlocks(blocks, c, p) && !(c == b && p == o)
      ensures blocks[c].base + p != blocks[b].base + o
    {
      if c < b { assert 0 <= c < b < |blocks|; } else if b < c { assert 0 <= b < c < |blocks|; }
    }
    assert Bitmap.Dirty(blocks, t, b, o);
  }

  lemma TakesOne(c: Config, s: State, t: State, b: nat, o: nat)
    requires |c.names| == |c.blocks| && Shaped(c, s.mem) && Bitmap.Layout(c.blocks, |s.bits|) && Page(c, b, o)
    requires !(Bitmap.AllClean(c.blocks, s.bits) || Stuck(c, s)) && KeepsPass(c, s, t) && Dirty(c, s, b, o) && First(c, s, b, o)
    requires c.blocks[b].base + o < |s.bits|
    requires t == State(s.bits[c.blocks[b].base + o := false], Some(b), o, t.bulk, s.log, s.mem,
                        s.sent + [Stream.Page(c.names[b], o, s.mem[b][o])])
    ensures Next(c, s, SendPage, t)
  {
    hide Bitmap.Dirty, Bitmap.Layout, Bitmap.OnlyCursor, Bitmap.AllClean, Bitmap.Soonest, KeepsPass;
    Bitmap.DirtyAfter(c.blocks, s.bits, b, o);
    assert SendsOne(c, s, t, b, o);
  }

  lemma TakesNone(c: Config, s: State, t: State)
    requires |c.names| == |c.blocks| && Shaped(c, s.mem)
    requires (Bitmap.AllClean(c.blocks, s.bits) || Stuck(c, s)) && KeepsPass(c, s, t) && SendsNone(c, s, t)
    requires t.mem == s.mem && t.log == s.log
    ensures Next(c, s, SendPage, t)
  {
    hide Bitmap.AllClean, KeepsPass, Stuck;
  }

  class Source {
    const config: Config
    const scan: Bitmap.Scan
    var mem: Memory
    var log: set<(nat, nat)>            // pages written since the dirty log was read
    var sent: seq<Stream.Page>

    ghost function Now(): State
      reads this, scan, scan.bitmap
    {
      State(scan.bitmap[..], scan.lastSeen, scan.lastOffset, scan.bulk, log, mem, sent)
    }

    ghost predicate Valid()
      reads this, scan, scan.bitmap
    {
      && scan.Valid() && scan.blocks == config.blocks && Sane(config, scan.bitmap.Length) && Shaped(config, mem)
      && forall p :: p in log ==> Page(config, p.0, p.1)
    }

    constructor (config: Config, pages: nat, mem: Memory)
      requires Sane(config, pages) && Shaped(config, mem)
      ensures Valid() && fresh(scan) && fresh(scan.bitmap) && this.config == config && scan.bitmap.Length == pages
      ensures Start(config, mem, Now())
    {
      this.config, this.mem, log, sent := config, mem, {}, [];
      scan := new Bitmap.Scan(config.blocks, pages);
      new;
      forall b, o | Page(config, b, o) ensures Bitmap.Dirty(config.blocks, scan.bitmap[..], b, o) {
        assert scan.bitmap[..][config.blocks[b].base + o];
      }
    }

    /** The guest writes a page; the dirty log notes it. */
    method GuestWrites(op: Op)
      requires Valid() && op.GuestWrite? && Possible(config, op)
      modifies this`mem, this`log
      ensures Valid() && Next(config, old(Now()), op, Now())
    {
      mem := mem[op.b := mem[op.b][op.o := op.data]];
      log := log + {(op.b, op.o)};
    }

    /** migration_bitmap_sync: every page in the log becomes dirty. */
    method ReadsLog()
      requires Valid()
      modifies this`log, scan, scan.bitmap
      ensures Valid() && Next(config, old(Now()), ReadLog, Now())
    {
      hide Bitmap.Dirty, Bitmap.Layout, Bitmap.Ahead;
      ghost var s := Now();
      while log != {}
        invariant Valid() && log <= s.log && Now() == s.(bits := Now().bits, log := log)
        invariant forall b: nat, o: nat :: Page(config, b, o) ==>
                    (Dirty(config, Now(), b, o) <==> Dirty(config, s, b, o) || ((b, o) in s.log && (b, o) !in log))
        decreases |log|
      {
        var p :| p in log;
        ReadsOne(p);
      }
    }

    method ReadsOne(p: (nat, nat))
      requires Valid() && p in log
      modifies this`log, scan, scan.bitmap
      ensures Valid() && log == old(log) - {p} && Now() == old(Now()).(bits := Now().bits, log := log)
      ensures forall b: nat, o: nat :: Page(config, b, o) ==>
                (Dirty(config, Now(), b, o) <==> Dirty(config, old(Now()), b, o) || (b, o) == p)
    {
      hide Bitmap.Dirty, Bitmap.Layout, Bitmap.Ahead;
      ghost var bits := scan.bitmap[..];
      Laid(scan);
      DirtySet(scan.blocks, bits, p.0, p.1);
      var _ := scan.SetDirty(p.0, p.1);
      log := log - {p};
      ghost var blocks, now := scan.blocks, scan.bitmap[..];
      assert now == bits[blocks[p.0].base + p.1 := true];
    }

    /** ram_save_block sends a page as it is now, or nothing. */
    method SendsPage() returns (page: Option<Stream.Page>)
      requires Valid()
      modifies this`sent, scan, scan.bitmap
      ensures Valid() && Next(config, old(Now()), SendPage, Now())
      ensures sent == old(sent) + Listed(page) && (page.Some? ==> Mine(config, page.value))
    {
      hide Bitmap.Dirty, Bitmap.Layout, Bitmap.Ahead, Bitmap.OnlyCursor, Bitmap.AllClean, Bitmap.Soonest, Bitmap.NextPage, Next;
      ghost var s, bits := Now(), scan.bitmap[..];
      Laid(scan);
      var found := scan.SaveBlock();
      page := None;
      assert sent + [] == sent;
      if found.Some? {
        var (b, o) := found.value;
        Bitmap.InBlock(scan.blocks, bits, b, o);
        page := Some(Stream.Page(config.names[b], o, mem[b][o]));
        sent := sent + [page.value];
        TakesOne(config, s, Now(), b, o);
      } else {
        TakesNone(config, s, Now());
      }
    }

    /** ram_save_complete: with the guest stopped and the log read, every dirty page is sent. */
    method Finishes() returns (ghost list: seq<(nat, nat)>, pages: seq<Stream.Page>)
      requires Valid() && log == {}
      modifies scan, scan.bitmap
      ensures Completes(config, old(Now()), list) && InMemory(config.names, mem, list) && pages == Contents(config.names, mem, list)
      ensures forall p :: p in pages ==> Mine(config, p)
    {
      hide Bitmap.Dirty, Bitmap.Layout, Bitmap.Ahead, Bitmap.OnlyCursor;
      ghost var bits := scan.bitmap[..];
      var all := scan.Complete();
      list := all;
      forall k | 0 <= k < |all| ensures Page(config, all[k].0, all[k].1) {
        if !old(scan.CursorOnly()) {
          assert all[k] in all;
          Bitmap.InBlock(scan.blocks, bits, all[k].0, all[k].1);
        }
      }
      pages := Contents(config.names, mem, all);
      forall p | p in pages ensures Mine(config, p) {
        ContentsAre(config.names, mem, all, p);
      }
    }

    /** One operation. */
    method Step(op: Op) returns (page: Option<Stream.Page>)
      requires Valid() && Possible(config, op)
      modifies this, scan, scan.bitmap
      ensures Valid() && Next(config, old(Now()), op, Now())
      ensures sent == old(sent) + Listed(page) && (page.Some? ==> op.SendPage? && Mine(config, page.value))
    {
      hide Next, Now;
      page := None;
      assert sent + [] == sent;
      match op {
        case GuestWrite(_, _, _) =>
          GuestWrites(op);
        case ReadLog =>
          ReadsLog();
        case SendPage =>
          page := SendsPage();
      }
    }
  }

  // ----- The whole -----

  function NamesOf(bs: seq<Stream.Block>): (names: seq<seq<Byte>>)
    ensures |names| == |bs| && forall i :: 0 <= i < |bs| ==> names[i] == bs[i].name
  {
    if bs == [] then [] else NamesOf(bs[..|bs| - 1]) + [bs[|bs| - 1].name]
  }

  /** The sender's blocks, to the stream and to the bitmap, and the receiver's. */
  ghost predicate Matching(dst: seq<Stream.Block>, bs: seq<Stream.Block>, c: Config) {
    && Stream.Matching(dst, bs) && c.names == NamesOf(bs)
    && |bs| == |c.blocks| && forall i :: 0 <= i < |bs| ==> bs[i].length == c.blocks[i].len * PAGE
  }

  lemma {:induction false} TotalAtLeast(bs: seq<Stream.Block>, i: nat)
    requires i < |bs|
    ensures bs[i].length <= Stream.Total(bs)
  {
    if i > 0 {
      TotalAtLeast(bs[1..], i - 1);
    }
  }

  lemma MineSendable(dst: seq<Stream.Block>, bs: seq<Stream.Block>, c: Config, p: Stream.Page)
    requires Matching(dst, bs, c) && Mine(c, p)
    ensures Stream.Sendable(dst, p)
  {
    var b :| 0 <= b < |c.names| && p.name == c.names[b] && p.offset < c.blocks[b].len && |p.data| == PAGE;
    TotalAtLeast(bs, b);
    assert Stream.Accepted(dst, bs[b]);
  }

  lemma AllMineSendable(dst: seq<Stream.Block>, bs: seq<Stream.Block>, c: Config, ps: seq<Stream.Page>)
    requires Matching(dst, bs, c) && forall p :: p in ps ==> Mine(c, p)
    ensures Stream.AllSendable(dst, ps)
  {
    hide Matching, Mine, Stream.Sendable;
    forall i | 0 <= i < |ps| ensures Stream.Sendable(dst, ps[i]) {
      MineSendable(dst, bs, c, ps[i]);
    }
  }

  lemma RunStart(c: Config, mem: Memory, s: State)
    requires (exists pages: nat :: Sane(c, pages)) && Shaped(c, mem) && Start(c, mem, s)
    ensures IsRun(c, mem, [], [s])
  {}

  lemma RunSnoc(c: Config, mem: Memory, ops: seq<Op>, h: seq<State>, op: Op, t: State)
    requires IsRun(c, mem, ops, h) && Possible(c, op) && Shaped(c, t.mem) && Next(c, h[|ops|], op, t)
    ensures IsRun(c, mem, ops + [op], h + [t])
  {
    hide Next, Shaped, Start, Possible;
    var ops', h' := ops + [op], h + [t];
    forall k | 0 <= k < |ops'| ensures Possible(c, ops'[k]) && Next(c, h'[k], ops'[k], h'[k + 1]) {
      assert k < |ops| ==> h'[k] == h[k] && h'[k + 1] == h[k + 1] && ops'[k] == ops[k];
    }
  }

  /** A run of one sender, so far. */
  ghost predicate Running(src: Source, mem0: Memory, ops: seq<Op>, h: seq<State>)
    reads src, src.scan, src.scan.bitmap
  {
    src.Valid() && IsRun(src.config, mem0, ops, h) && h[|ops|] == src.Now()
  }

  /** One operation prolongs the run. */
  method Prolong(src: Source, op: Op, ghost mem0: Memory, ghost ops: seq<Op>, ghost h: seq<State>)
    returns (page: Option<Stream.Page>, ghost h': seq<State>)
    requires Running(src, mem0, ops, h) && Possible(src.config, op)
    modifies src, src.scan, src.scan.bitmap
    ensures Running(src, mem0, ops + [op], h')
    ensures src.sent == old(src.sent) + Listed(page) && (page.Some? ==> op.SendPage? && Mine(src.config, page.value))
  {
    hide Next, IsRun;
    page := src.Step(op);
    h' := h + [src.Now()];
    RunSnoc(src.config, mem0, ops, h, op, src.Now());
    RunLength(src.config, mem0, ops, h);
  }

  lemma RunLength(c: Config, mem: Memory, ops: seq<Op>, h: seq<State>)
    requires IsRun(c, mem, ops, h)
    ensures |h| == |ops| + 1
  {}

  /** One round: what ram_save_iterate sends while the guest runs. */
  method Round(src: Source, ops: seq<Op>, ghost mem0: Memory, ghost before: seq<Op>, ghost h: seq<State>)
    returns (pages: seq<Stream.Page>, ghost h': seq<State>)
    requires Running(src, mem0, before, h) && forall i :: 0 <= i < |ops| ==> Possible(src.config, ops[i])
    modifies src, src.scan, src.scan.bitmap
    ensures Running(src, mem0, before + ops, h')
    ensures src.sent == old(src.sent) + pages && forall p :: p in pages ==> Mine(src.config, p)
  {
    hide Running, Mine, Possible;
    pages, h' := [], h;
    assert before + ops[..0] == before && src.sent == old(src.sent) + [];
    for i := 0 to |ops|
      invariant Running(src, mem0, before + ops[..i], h')
      invariant src.sent == old(src.sent) + pages && forall p :: p in pages ==> Mine(src.config, p)
    {
      var page: Option<Stream.Page>;
      page, h' := Prolong(src, ops[i], mem0, before + ops[..i], h');
      assert before + ops[..i] + [ops[i]] == before + ops[..i + 1];
      assert old(src.sent) + pages + Listed(page) == old(src.sent) + (pages + Listed(page));
      pages := pages + Listed(page);
    }
    assert ops[..|ops|] == ops;
  }

  lemma {:induction false} RunMemory(c: Config, mem: Memory, ops: seq<Op>, h: seq<State>, n: nat)
    requires IsRun(c, mem, ops, h) && n <= |ops|
    ensures h[n].mem == After(mem, ops[..n])
  {
    hide Sends, Dirty;
    if n > 0 {
      var m := n - 1;
      RunMemory(c, mem, ops, h, m);
      assert ops[..n][..m] == ops[..m];
      assert Next(c, h[m], ops[m], h[m + 1]);
    }
  }

  /** The guest's memory in the end is what its writes made of it; reading the log changes nothing. */
  lemma FinalMemory(c: Config, mem: Memory, ops: seq<Op>, h: seq<State>)
    requires IsRun(c, mem, ops + [ReadLog], h)
    ensures |h| == |ops| + 2 && h[|ops| + 1].mem == After(mem, ops) && Shaped(c, h[|ops| + 1].mem)
    ensures h[|ops| + 1].log == {}
  {
    hide Sends, Dirty, Write;
    var n := |ops|;
    var all := ops + [ReadLog];
    RunMemory(c, mem, all, h, n);
    assert all[..n] == ops;
    assert Next(c, h[n], all[n], h[n + 1]);
  }

  /** Every page arrives exactly unless it is lost over the run. */
  ghost predicate ArriveUnlessLost(c: Config, mem0: Memory, ops: seq<Op>, h: seq<State>, mem: Memory, writes: seq<Stream.Page>)
    requires IsRun(c, mem0, ops, h) && Shaped(c, mem)
  {
    forall b: nat, o: nat :: Page(c, b, o) ==> (Arrived(c, mem, writes, b, o) <==> !Lost(c, mem0, ops, h, b, o))
  }

  lemma AllArrive(c: Config, pages: nat, mem0: Memory, ops: seq<Op>, h: seq<State>, list: seq<(nat, nat)>)
    requires Sane(c, pages) && IsRun(c, mem0, ops, h) && Completes(c, h[|ops|], list)
    requires InMemory(c.names, h[|ops|].mem, list)
    ensures ArriveUnlessLost(c, mem0, ops, h, h[|ops|].mem, h[|ops|].sent + Contents(c.names, h[|ops|].mem, list))
  {
    hide Sane, Completes, Lost, Next, Contents, Arrived;
    forall b: nat, o: nat | Page(c, b, o)
      ensures Arrived(c, h[|ops|].mem, h[|ops|].sent + Contents(c.names, h[|ops|].mem, list), b, o) <==> !Lost(c, mem0, ops, h, b, o)
    {
      ArrivalLaw(c, pages, mem0, ops, h, list, b, o);
    }
  }

  ghost predicate AllPossible(c: Config, rounds: seq<seq<Op>>) {
    forall k, i :: 0 <= k < |rounds| && 0 <= i < |rounds[k]| ==> Possible(c, rounds[k][i])
  }

  /** The rounds, each a section of the stream. */
  method Rounds(dst: seq<Stream.Block>, bs: seq<Stream.Block>, src: Source, rounds: seq<seq<Op>>, ghost mem0: Memory, ghost h0: seq<State>)
    returns (sections: seq<seq<Stream.Page>>, ghost h: seq<State>)
    requires Matching(dst, bs, src.config) && AllPossible(src.config, rounds)
    requires Running(src, mem0, [], h0) && src.sent == []
    modifies src, src.scan, src.scan.bitmap
    ensures Running(src, mem0, Flatten(rounds), h) && src.sent == Flatten(sections)
    ensures forall j :: 0 <= j < |sections| ==> Stream.AllSendable(dst, sections[j])
  {
    hide Running, Mine, Flatten, Matching, Stream.AllSendable, Possible;
    sections, h := [], h0;
    FlattenNone<Stream.Page>();
    FlattenNone<Op>();
    assert rounds[..0] == [];
    for k := 0 to |rounds|
      invariant Running(src, mem0, Flatten(rounds[..k]), h) && src.sent == Flatten(sections)
      invariant forall j :: 0 <= j < |sections| ==> Stream.AllSendable(dst, sections[j])
    {
      var section: seq<Stream.Page>;
      section, h := Round(src, rounds[k], mem0, Flatten(rounds[..k]), h);
      AllMineSendable(dst, bs, src.config, section);
      FlattenSnoc(sections, section);
      FlattenSnoc(rounds[..k], rounds[k]);
      assert rounds[..k] + [rounds[k]] == rounds[..k + 1];
      sections := sections + [section];
    }
    assert rounds[..|rounds|] == rounds;
  }

  /** The last round: the dirty log is read, and what is dirty is sent. */
  method LastRound(src: Source, ghost mem0: Memory, ghost ops: seq<Op>, ghost h: seq<State>)
    returns (pages: seq<Stream.Page>, ghost h': seq<State>)
    requires Running(src, mem0, ops, h)
    modifies src, src.scan, src.scan.bitmap
    ensures src.mem == After(mem0, ops) && Shaped(src.config, src.mem) && IsRun(src.config, mem0, ops + [ReadLog], h')
    ensures ArriveUnlessLost(src.config, mem0, ops + [ReadLog], h', src.mem, old(src.sent) + pages)
    ensures forall p :: p in pages ==> Mine(src.config, p)
  {
    hide Mine, IsRun, Completes, ArriveUnlessLost, Contents, InMemory, After, Sane, Shaped, Bitmap.Scan.Valid;
    ghost var page;
    page, h' := Prolong(src, ReadLog, mem0, ops, h);
    assert src.sent == old(src.sent);
    FinalMemory(src.config, mem0, ops, h');
    ghost var list;
    list, pages := src.Finishes();
    AllArrive(src.config, src.scan.bitmap.Length, mem0, ops + [ReadLog], h', list);
  }

  lemma SameStream(dst: seq<Stream.Block>, bs: seq<Stream.Block>, c: Config)
    requires Matching(dst, bs, c)
    ensures Stream.Matching(dst, bs)
  {}

  /** Any number of rounds with the guest running, then the last one: the receiver accepts the stream, and in the
      end it has every page of the sender's memory exactly unless the page is lost over the run. */
  method LiveMigration(dst: seq<Stream.Block>, bs: seq<Stream.Block>, c: Config, pages: nat, mem0: Memory, rounds: seq<seq<Op>>)
    returns (mem: Memory, r: Stream.Receiver, ok: bool, ghost h: seq<State>)
    requires Matching(dst, bs, c) && Sane(c, pages) && Shaped(c, mem0) && AllPossible(c, rounds)
    ensures ok && mem == After(mem0, Flatten(rounds)) && Shaped(c, mem)
    ensures IsRun(c, mem0, Flatten(rounds) + [ReadLog], h)
    ensures ArriveUnlessLost(c, mem0, Flatten(rounds) + [ReadLog], h, mem, r.writes)
  {
    hide Mine, Flatten, Matching, Stream.AllSendable, Stream.Matching, AllPossible, IsRun, ArriveUnlessLost, After, Sane;
    var src := new Source(c, pages, mem0);
    h := [src.Now()];
    RunStart(c, mem0, src.Now());
    var sections: seq<seq<Stream.Page>>;
    sections, h := Rounds(dst, bs, src, rounds, mem0, h);
    var last: seq<Stream.Page>;
    last, h := LastRound(src, mem0, Flatten(rounds), h);
    mem := src.mem;
    AllMineSendable(dst, bs, c, last);
    FlattenSnoc(sections, last);
    SameStream(dst, bs, c);
    r, ok := Stream.Migrate(bs, dst, sections + [last]);
  }

  /** A page of this machine, with its name and a page of contents. */
  ghost predicate Mine(c: Config, p: Stream.Page) {
    exists b :: 0 <= b < |c.names| == |c.blocks| && p.name == c.names[b] && p.offset < c.blocks[b].len && |p.data| == PAGE
  }

  function Listed<T>(x: Option<T>): seq<T> {
    if x.Some? then [x.value] else []
  }

  lemma Laid(scan: Bitmap.Scan)
    requires scan.Valid()
    ensures Bitmap.Layout(scan.blocks, scan.bitmap.Length)
  {}
}
