/**
  The list of RAM blocks: best-fit placement of new blocks in the RAM address space, a list kept
  sorted by decreasing length, and lookup through a most-recently-used block.
 */
module RamBlocks {
  import opened Common

  const RAM_ADDR_MAX := 0xffff_ffff_ffff_ffff

  datatype Block = Block(offset: nat, length: nat) {
    function End(): nat { offset + length }
    predicate Has(addr: nat) { offset <= addr < offset + length }
  }

  /** addr - block->offset < block->length, in unsigned 64-bit arithmetic. */
  predicate WrappedHas(b: Block, addr: nat) {
    (addr - b.offset) % WORD < b.length
  }

  /** TARGET_PAGE_ALIGN in 64 bits. */
  function PageAlign(size: nat): nat {
    var s := (size + PAGE - 1) % WORD;
    s - s % PAGE
  }

  /** len is size rounded up to whole pages. */
  ghost predicate Rounded(size: nat, len: nat) {
    len % PAGE == 0 && size <= len < size + PAGE
  }

  /** A size that rounding neither leaves at zero nor takes over the end of the 64 bits. */
  predicate Roundable(size: nat) {
    0 < size && size + PAGE - 1 < WORD
  }

  /** The 64-bit sum gives the rounded size exactly when it does not wrap; when it does, or for no bytes at all, the
      result is zero, on which find_ram_offset aborts. */
  lemma AlignLaw(size: nat)
    requires size < WORD
    ensures Roundable(size) ==> Rounded(size, PageAlign(size)) && PageAlign(size) > 0
    ensures !Roundable(size) ==> PageAlign(size) == 0
  {
    var t := size + PAGE - 1;
    if t < WORD {
      var q := t / PAGE;
      DivIs(t, PAGE, q);
      DivIs(q * PAGE, PAGE, q);
    } else {
      assert t % WORD == t - WORD;
    }
  }

  /** There is one rounded size. */
  lemma RoundedUnique(size: nat, len: nat, len': nat)
    requires Rounded(size, len) && Rounded(size, len')
    ensures len == len'
  {
    var q, q' := len / PAGE, len' / PAGE;
    assert len == q * PAGE && len' == q' * PAGE;
  }

  /** The end of the gap that starts at `end`: the lowest block at or above it. */
  ghost function NextStart(blocks: seq<Block>, end: nat): (next: nat)
    ensures next <= RAM_ADDR_MAX
  {
    if blocks == [] then RAM_ADDR_MAX
    else
      var b, next := blocks[|blocks| - 1], NextStart(blocks[..|blocks| - 1], end);
      if end <= b.offset < next then b.offset else next
  }

  ghost function Gap(blocks: seq<Block>, b: Block): int {
    NextStart(blocks, b.End()) - b.End()
  }

  /** b is followed by the smallest gap that holds `size` bytes, among the gaps that follow a block. */
  ghost predicate BestFit(blocks: seq<Block>, b: Block, size: nat) {
    && b in blocks && size <= Gap(blocks, b)
    && forall c :: c in blocks && size <= Gap(blocks, c) ==> Gap(blocks, b) <= Gap(blocks, c)
  }

  /** Position k is in front of the first block shorter than `size`. */
  ghost predicate BeforeShorter(blocks: seq<Block>, k: nat, size: nat) {
    && k <= |blocks| && (forall i :: 0 <= i < k ==> blocks[i].length >= size)
    && (k < |blocks| ==> blocks[k].length < size)
  }

  /** Where find_ram_offset puts a block of `size` bytes. */
  ghost predicate Placed(blocks: seq<Block>, at: nat, size: nat) {
    if blocks == [] then at == 0 else exists b :: BestFit(blocks, b, size) && at == b.End()
  }

  /** No gap that follows a block holds `size` bytes. */
  ghost predicate NoGap(blocks: seq<Block>, size: nat) {
    blocks != [] && forall c :: c in blocks ==> Gap(blocks, c) < size
  }

  function Insert(blocks: seq<Block>, k: nat, b: Block): (r: seq<Block>)
    requires k <= |blocks|
    ensures |r| == |blocks| + 1
  {
    blocks[..k] + [b] + blocks[k..]
  }

  /** No block starts inside a gap. */
  lemma {:induction false} GapIsFree(blocks: seq<Block>, end: nat, b: Block)
    requires b in blocks
    ensures b.offset < end || b.offset >= NextStart(blocks, end)
  {
    if b != blocks[|blocks| - 1] {
      GapIsFree(blocks[..|blocks| - 1], end, b);
    }
  }

  ghost predicate Apart(a: Block, b: Block) { a.End() <= b.offset || b.End() <= a.offset }

  ghost predicate Disjoint(blocks: seq<Block>) {
    forall i, j :: 0 <= i < j < |blocks| ==> Apart(blocks[i], blocks[j])
  }

  ghost predicate Sorted(blocks: seq<Block>) {
    forall i, j :: 0 <= i < j < |blocks| ==> blocks[i].length >= blocks[j].length
  }

  ghost predicate InRange(blocks: seq<Block>) {
    forall i :: 0 <= i < |blocks| ==> 0 < blocks[i].length && blocks[i].End() <= RAM_ADDR_MAX
  }

  ghost predicate Good(blocks: seq<Block>) {
    Disjoint(blocks) && Sorted(blocks) && InRange(blocks)
  }

  /** A block of `size` bytes in the gap after some block is apart from every block. */
  lemma FitsGap(blocks: seq<Block>, b: Block, size: nat)
    requires Good(blocks) && b in blocks && 0 < size <= Gap(blocks, b)
    ensures forall c :: c in blocks ==> Apart(Block(b.End(), size), c)
    ensures b.End() + size <= RAM_ADDR_MAX
  {
    forall c | c in blocks ensures Apart(Block(b.End(), size), c) {
      GapIsFree(blocks, b.End(), c);
      var i :| 0 <= i < |blocks| && blocks[i] == b;
      var j :| 0 <= j < |blocks| && blocks[j] == c;
      if i < j { assert Apart(blocks[i], blocks[j]); } else if j < i { assert Apart(blocks[j], blocks[i]); }
    }
  }

  /** The block that owns an address, if any. */
  ghost function Owner(blocks: seq<Block>, addr: nat): Option<Block> {
    if blocks == [] then None
    else if blocks[0].Has(addr) then Some(blocks[0])
    else Owner(blocks[1..], addr)
  }

  lemma {:induction false} OwnerIs(blocks: seq<Block>, addr: nat, b: Block)
    requires Disjoint(blocks) && b in blocks && b.Has(addr)
    ensures Owner(blocks, addr) == Some(b)
  {
    if blocks[0] != b {
      var k :| 0 <= k < |blocks| && blocks[k] == b;
      assert Apart(blocks[0], blocks[k]);
      OwnerIs(blocks[1..], addr, b);
    }
  }

  lemma {:induction false} OwnerIn(blocks: seq<Block>, addr: nat)
    ensures var o := Owner(blocks, addr); o.Some? ==> o.value in blocks && o.value.Has(addr)
  {
    if blocks != [] {
      OwnerIn(blocks[1..], addr);
    }
  }

  lemma {:induction false} OwnerNone(blocks: seq<Block>, addr: nat)
    ensures Owner(blocks, addr) == None <==> forall b :: b in blocks ==> !b.Has(addr)
  {
    if blocks != [] {
      OwnerNone(blocks[1..], addr);
      assert forall b :: b in blocks <==> b == blocks[0] || b in blocks[1..];
    }
  }

  /** Inside the RAM address space the wrapped comparison is plain containment. */
  lemma WrappedHasIs(b: Block, addr: nat)
    requires b.End() <= RAM_ADDR_MAX && addr < WORD
    ensures WrappedHas(b, addr) <==> b.Has(addr)
  {
    if addr < b.offset {
      assert (addr - b.offset) % WORD == addr - b.offset + WORD;
    }
  }

  /** Where find_ram_offset puts a block of the aligned size, it is apart from every block. */
  lemma NewBlockFits(blocks: seq<Block>, at: nat, len: nat)
    requires Good(blocks) && 0 < len <= RAM_ADDR_MAX && Placed(blocks, at, len)
    ensures at + len <= RAM_ADDR_MAX
    ensures forall c :: c in blocks ==> Apart(Block(at, len), c)
  {
    if blocks != [] {
      hide Good, Apart, Gap;
      var b :| BestFit(blocks, b, len) && at == b.End();
      FitsGap(blocks, b, len);
    }
  }

  /** Inserting a block that is apart from all others, before the first shorter one, keeps the list good. */
  lemma InsertGood(blocks: seq<Block>, k: nat, b: Block)
    requires Good(blocks) && k <= |blocks| && 0 < b.length && b.End() <= RAM_ADDR_MAX
    requires forall c :: c in blocks ==> Apart(b, c)
    requires BeforeShorter(blocks, k, b.length)
    ensures Good(Insert(blocks, k, b))
  {
    hide Insert, Apart;
    var r := Insert(blocks, k, b);
    forall i | 0 <= i < |r| ensures 0 < r[i].length && r[i].End() <= RAM_ADDR_MAX {
      InsertAt(blocks, k, b, i);
    }
    forall i, j | 0 <= i < j < |r|
      ensures Apart(r[i], r[j]) && r[i].length >= r[j].length
    {
      InsertPair(blocks, k, b, i, j);
    }
  }

  lemma InsertAt(blocks: seq<Block>, k: nat, b: Block, i: nat)
    requires k <= |blocks| && i <= |blocks|
    ensures Insert(blocks, k, b)[i] == if i < k then blocks[i] else if i == k then b else blocks[i - 1]
  {}

  lemma InsertPair(blocks: seq<Block>, k: nat, b: Block, i: nat, j: nat)
    requires Good(blocks) && k <= |blocks| && i < j <= |blocks|
    requires BeforeShorter(blocks, k, b.length) && forall c :: c in blocks ==> Apart(b, c)
    ensures var r := Insert(blocks, k, b); Apart(r[i], r[j]) && r[i].length >= r[j].length
  {
    hide Insert;
    InsertAt(blocks, k, b, i);
    InsertAt(blocks, k, b, j);
    if i == k {
      var c := blocks[j - 1];
      assert c in blocks && Apart(b, c) && blocks[k].length >= c.length;
    } else if j == k {
      var c := blocks[i];
      assert c in blocks && Apart(b, c);
    } else {
      var x, y := if i < k then i else i - 1, if j < k then j else j - 1;
      assert Apart(blocks[x], blocks[y]) && blocks[x].length >= blocks[y].length;
    }
  }

  lemma RoundedBound(size: nat, len: nat)
    requires Roundable(size) && Rounded(size, len)
    ensures 0 < len <= RAM_ADDR_MAX
  {}

  class RamList {
    var blocks: seq<Block>
    var mru: Option<Block>
    var version: nat

    ghost predicate Valid()
      reads this
    {
      Good(blocks) && (mru.Some? ==> mru.value in blocks)
    }

    constructor ()
      ensures Valid() && blocks == [] && mru == None && version == 0
    {
      blocks, mru, version := [], None, 0;
    }

    /** find_ram_offset: the smallest gap that fits, among the gaps that follow a block. None where
        the source gives up and aborts. */
    method FindRamOffset(size: nat) returns (r: Option<nat>)
      requires Valid() && 0 < size
      ensures r.Some? ==> Placed(blocks, r.value, size)
      ensures r == None <==> NoGap(blocks, size)
    {
      if |blocks| == 0 {
        return Some(0);
      }
      var offset, mingap := RAM_ADDR_MAX, RAM_ADDR_MAX;
      ghost var best := blocks[0];
      var k := 0;
      while k < |blocks|
        invariant 0 <= k <= |blocks|
        invariant offset == RAM_ADDR_MAX ==> mingap == RAM_ADDR_MAX
        invariant offset != RAM_ADDR_MAX ==> best in blocks && offset == best.End() && size <= Gap(blocks, best) == mingap
        invariant forall i :: 0 <= i < k && size <= Gap(blocks, blocks[i]) ==>
                    offset != RAM_ADDR_MAX && mingap <= Gap(blocks, blocks[i])
      {
        var end := blocks[k].End();
        var next := NextBlock(end);
        assert next - end == Gap(blocks, blocks[k]) < RAM_ADDR_MAX;
        if next - end >= size && next - end < mingap {
          offset, mingap := end, next - end;
          best := blocks[k];
        }
        k := k + 1;
      }
      if offset == RAM_ADDR_MAX {
        r := None;
      } else {
        r := Some(offset);
        assert BestFit(blocks, best, size);
      }
    }

    /** The inner loop of find_ram_offset: where the gap that starts at `end` stops. */
    method NextBlock(end: nat) returns (next: nat)
      ensures next == NextStart(blocks, end)
    {
      next := RAM_ADDR_MAX;
      var j := 0;
      while j < |blocks|
        invariant 0 <= j <= |blocks| && next == NextStart(blocks[..j], end)
      {
        assert blocks[..j + 1][..j] == blocks[..j];
        if blocks[j].offset >= end {
          next := if next <= blocks[j].offset then next else blocks[j].offset;
        }
        j := j + 1;
      }
      assert blocks[..j] == blocks;
    }

    /** qemu_ram_alloc_from_ptr: place a block of size0 bytes rounded up to len, insert it before the first shorter
        one. None where the source aborts: for no bytes, for a size that wraps, or for want of a gap. */
    method Alloc(size0: nat) returns (r: Option<nat>, ghost len: nat)
      requires Valid() && size0 < WORD
      modifies this
      ensures Valid() && (Roundable(size0) ==> Rounded(size0, len))
      ensures r == None ==> blocks == old(blocks) && mru == old(mru) && version == old(version)
      ensures r == None <==> !Roundable(size0) || NoGap(old(blocks), len)
      ensures r.Some? ==> Placed(old(blocks), r.value, len)
      ensures r.Some? ==> exists k :: BeforeShorter(old(blocks), k, len) && blocks == Insert(old(blocks), k, Block(r.value, len))
      ensures r.Some? ==> mru == None && version == old(version) + 1
    {
      hide Good, Apart, Placed, NoGap, PageAlign, Roundable;
      var size := PageAlign(size0);
      len := size;
      AlignLaw(size0);
      if size == 0 {
        return None, len;
      }
      r := FindRamOffset(size);
      if r == None {
        return;
      }
      var block := Block(r.value, size);
      RoundedBound(size0, size);
      NewBlockFits(blocks, r.value, size);
      var k := 0;
      while k < |blocks| && blocks[k].length >= size
        invariant 0 <= k <= |blocks|
        invariant forall i :: 0 <= i < k ==> blocks[i].length >= size
      {
        k := k + 1;
      }
      assert BeforeShorter(blocks, k, size);
      InsertGood(blocks, k, block);
      blocks := Insert(blocks, k, block);
      mru := None;
      version := version + 1;
    }

    /** qemu_ram_free: drop the block that starts at addr, if there is one. */
    method Free(addr: nat)
      requires Valid()
      modifies this
      ensures Valid()
      ensures forall b :: b in blocks <==> b in old(blocks) && b.offset != addr
      ensures (forall b :: b in old(blocks) ==> b.offset != addr) ==>
                blocks == old(blocks) && mru == old(mru) && version == old(version)
      ensures (exists b :: b in old(blocks) && b.offset == addr) ==>
                && mru == None && version == old(version) + 1
                && exists k :: 0 <= k < |old(blocks)| && old(blocks)[k].offset == addr && blocks == Remove(old(blocks), k)
    {
      var k := 0;
      while k < |blocks|
        invariant 0 <= k <= |blocks|
        invariant forall i :: 0 <= i < k ==> blocks[i].offset != addr
      {
        if addr == blocks[k].offset {
          RemoveGood(blocks, k);
          RemoveMembers(blocks, k);
          blocks := Remove(blocks, k);
          mru := None;
          version := version + 1;
          return;
        }
        k := k + 1;
      }
    }

    /** qemu_get_ram_block: the owner of the address, whatever block was used last. None where the
        source aborts. */
    method GetRamBlock(addr: nat) returns (r: Option<Block>)
      requires Valid() && addr < WORD
      modifies this`mru
      ensures Valid() && r == Owner(blocks, addr)
      ensures mru == if r.Some? then r else old(mru)
    {
      if mru.Some? && WrappedHas(mru.value, addr) {
        WrappedHasIs(mru.value, addr);
        OwnerIs(blocks, addr, mru.value);
        return mru;
      }
      var k := 0;
      while k < |blocks|
        invariant 0 <= k <= |blocks| && mru == old(mru)
        invariant forall i :: 0 <= i < k ==> !blocks[i].Has(addr)
      {
        WrappedHasIs(blocks[k], addr);
        if WrappedHas(blocks[k], addr) {
          OwnerIs(blocks, addr, blocks[k]);
          mru := Some(blocks[k]);
          return mru;
        }
        k := k + 1;
      }
      OwnerNone(blocks, addr);
      r := None;
    }

    function Now(): State
      reads this
    {
      State(blocks, mru, version)
    }

    /** One operation; false where the source aborts. */
    method Step(op: Op) returns (ok: bool)
      requires Valid() && Possible(op)
      modifies this
      ensures Valid() && (ok ==> Next(old(Now()), op, Now())) && (!ok ==> Aborts(old(Now()), op))
    {
      hide Good, Placed, NoGap, Insert, Remove, Owner;
      match op {
        case AllocOp(size) =>
          ghost var len;
          var r: Option<nat>;
          r, len := Alloc(size);
          ok := r.Some?;
          if ok {
            ghost var k: nat :| BeforeShorter(old(blocks), k, len) && blocks == Insert(old(blocks), k, Block(r.value, len));
            assert Adds(old(Now()), size, Now(), r.value, len, k);
          }
        case FreeOp(addr) =>
          Free(addr);
          ok := true;
          if b :| b in old(blocks) && b.offset == addr {
            ghost var k: nat :| k < |old(blocks)| && old(blocks)[k].offset == addr && blocks == Remove(old(blocks), k);
            assert Drops(old(Now()), addr, Now(), k);
          }
        case GetOp(addr) =>
          var r := GetRamBlock(addr);
          ok := r.Some?;
      }
    }
  }

  function Remove(s: seq<Block>, k: nat): (r: seq<Block>)
    requires k < |s|
    ensures |r| == |s| - 1
  {
    s[..k] + s[k + 1..]
  }

  lemma RemoveAt(s: seq<Block>, k: nat, i: nat)
    requires k < |s| && i < |s| - 1
    ensures Remove(s, k)[i] == if i < k then s[i] else s[i + 1]
  {}

  lemma RemoveGood(s: seq<Block>, k: nat)
    requires Good(s) && k < |s|
    ensures Good(Remove(s, k))
  {
    var r := Remove(s, k);
    forall i, j | 0 <= i < j < |r|
      ensures Apart(r[i], r[j]) && r[i].length >= r[j].length
    {
      var i', j' := if i < k then i else i + 1, if j < k then j else j + 1;
      assert r[i] == s[i'] && r[j] == s[j'] && Apart(s[i'], s[j']);
    }
    forall i | 0 <= i < |r| ensures 0 < r[i].length && r[i].End() <= RAM_ADDR_MAX {
      assert r[i] == s[if i < k then i else i + 1];
    }
  }

  /** Blocks of a good list start at different addresses, so only one block goes. */
  lemma RemoveMembers(s: seq<Block>, k: nat)
    requires Good(s) && k < |s|
    ensures forall b :: b in Remove(s, k) <==> b in s && b.offset != s[k].offset
  {
    hide Remove;
    var r := Remove(s, k);
    forall b | b in s && b.offset != s[k].offset ensures b in r {
      var i :| 0 <= i < |s| && s[i] == b;
      RemoveAt(s, k, if i < k then i else i - 1);
    }
    forall b | b in r ensures b in s && b.offset != s[k].offset {
      var i :| 0 <= i < |r| && r[i] == b;
      RemoveAt(s, k, i);
      if i < k { assert Apart(s[i], s[k]); } else { assert Apart(s[k], s[i + 1]); }
    }
  }

  // ----- Runs -----

  datatype Op = AllocOp(size: nat) | FreeOp(addr: nat) | GetOp(addr: nat)

  datatype State = State(blocks: seq<Block>, mru: Option<Block>, version: nat)

  const EMPTY := State([], None, 0)

  predicate Possible(op: Op) {
    match op case AllocOp(size) => size < WORD case FreeOp(_) => true case GetOp(a) => a < WORD
  }

  /** A block of len bytes, the rounded size, is put at `at`, and into the list at position k. */
  ghost predicate Adds(s: State, size: nat, t: State, at: nat, len: nat, k: nat) {
    && Roundable(size) && Rounded(size, len) && Placed(s.blocks, at, len) && BeforeShorter(s.blocks, k, len)
    && t == State(Insert(s.blocks, k, Block(at, len)), None, s.version + 1)
  }

  /** The block at position k, which starts at addr, is taken out. */
  ghost predicate Drops(s: State, addr: nat, t: State, k: nat) {
    k < |s.blocks| && s.blocks[k].offset == addr && t == State(Remove(s.blocks, k), None, s.version + 1)
  }

  /** The operation takes s to t. */
  ghost predicate Next(s: State, op: Op, t: State) {
    match op
    case AllocOp(size) => exists at: nat, len: nat, k: nat :: Adds(s, size, t, at, len, k)
    case FreeOp(addr) =>
      if forall b :: b in s.blocks ==> b.offset != addr then t == s else exists k: nat :: Drops(s, addr, t, k)
    case GetOp(addr) => Owner(s.blocks, addr).Some? && t == s.(mru := Owner(s.blocks, addr))
  }

  /** The source aborts. */
  ghost predicate Aborts(s: State, op: Op) {
    match op
    case AllocOp(size) => Roundable(size) ==> exists len: nat :: Rounded(size, len) && NoGap(s.blocks, len)
    case FreeOp(_) => false
    case GetOp(addr) => Owner(s.blocks, addr) == None
  }

  /** h holds the states before, between and after the operations, up to where the source aborts. */
  ghost predicate IsRun(ops: seq<Op>, h: seq<State>) {
    && 0 < |h| <= |ops| + 1 && h[0] == EMPTY && (forall k :: 0 <= k < |ops| ==> Possible(ops[k]))
    && (forall k :: 0 <= k < |h| - 1 ==> Next(h[k], ops[k], h[k + 1]))
    && (|h| <= |ops| ==> Aborts(h[|h| - 1], ops[|h| - 1]))
  }

  /** What every operation keeps. */
  ghost predicate StateGood(s: State) {
    Good(s.blocks) && (s.mru.Some? ==> s.mru.value in s.blocks)
  }

  lemma NextGood(s: State, op: Op, t: State)
    requires StateGood(s) && Possible(op) && Next(s, op, t)
    ensures StateGood(t)
  {
    hide Good, Placed, BeforeShorter, Rounded, Insert, Remove;
    match op {
      case AllocOp(size) =>
        var at: nat, len: nat, k: nat :| Adds(s, size, t, at, len, k);
        AddsGood(s, size, t, at, len, k);
      case FreeOp(addr) =>
        if k: nat :| Drops(s, addr, t, k) {
          RemoveGood(s.blocks, k);
        }
      case GetOp(addr) =>
        OwnerIn(s.blocks, addr);
    }
  }

  lemma AddsGood(s: State, size: nat, t: State, at: nat, len: nat, k: nat)
    requires Good(s.blocks) && Adds(s, size, t, at, len, k)
    ensures Good(t.blocks)
  {
    hide Good, Placed, Rounded, Roundable, Insert, Apart;
    RoundedBound(size, len);
    NewBlockFits(s.blocks, at, len);
    InsertGood(s.blocks, k, Block(at, len));
  }

  lemma {:induction false} RunGood(ops: seq<Op>, h: seq<State>, n: nat)
    requires IsRun(ops, h) && n < |h|
    ensures StateGood(h[n])
  {
    hide Next, StateGood;
    if n == 0 {
      EmptyGood();
    } else {
      var m := n - 1;
      RunGood(ops, h, m);
      NextGood(h[m], ops[m], h[m + 1]);
    }
  }

  lemma EmptyGood()
    ensures StateGood(EMPTY)
  {}

  /** One operation changes the members of the list only as its name says. */
  lemma NextMembers(s: State, op: Op, t: State, b: Block)
    requires StateGood(s) && Next(s, op, t)
    ensures b in t.blocks <==> (b in s.blocks && op != FreeOp(b.offset)) || Allocates(s, op, t, b)
  {
    hide Good, Placed, Rounded, Insert, Remove;
    match op {
      case AllocOp(size) =>
        var at: nat, len: nat, k: nat :| Adds(s, size, t, at, len, k);
        InsertedIs(s.blocks, k, Block(at, len), b);
      case FreeOp(addr) =>
        if k: nat :| Drops(s, addr, t, k) {
          RemoveMembers(s.blocks, k);
        }
      case GetOp(addr) =>
    }
  }

  lemma InsertedIs(blocks: seq<Block>, k: nat, b: Block, c: Block)
    requires k <= |blocks|
    ensures c in Insert(blocks, k, b) <==> c in blocks || c == b
  {
    hide Insert;
    InsertAt(blocks, k, b, k);
    if c in blocks {
      var i :| 0 <= i < |blocks| && blocks[i] == c;
      InsertAt(blocks, k, b, if i < k then i else i + 1);
    }
    if c in Insert(blocks, k, b) {
      var i :| 0 <= i < |Insert(blocks, k, b)| && Insert(blocks, k, b)[i] == c;
      InsertAt(blocks, k, b, i);
    }
  }

  /** The operation adds b, of the size asked for rounded up to whole pages. */
  ghost predicate Allocates(s: State, op: Op, t: State, b: Block) {
    op.AllocOp? && b !in s.blocks && b in t.blocks && Rounded(op.size, b.length)
  }

  /** Operation k allocates b, and no operation between it and n frees it. */
  ghost predicate AllocatedAt(ops: seq<Op>, h: seq<State>, k: int, n: int, b: Block)
    requires 0 <= k < n < |h| <= |ops| + 1
  {
    Allocates(h[k], ops[k], h[k + 1], b) && forall m :: k < m < n ==> ops[m] != FreeOp(b.offset)
  }

  ghost predicate Live(ops: seq<Op>, h: seq<State>, n: nat, b: Block)
    requires n < |h| <= |ops| + 1
  {
    exists k :: 0 <= k < n && AllocatedAt(ops, h, k, n, b)
  }

  /** At every point of every run the list holds exactly the blocks allocated, each of its size in whole pages, and
      not freed since. */
  lemma {:induction false} RunLive(ops: seq<Op>, h: seq<State>, n: nat, b: Block)
    requires IsRun(ops, h) && n < |h|
    ensures b in h[n].blocks <==> Live(ops, h, n, b)
  {
    hide Next, StateGood;
    if n > 0 {
      var m := n - 1;
      RunLive(ops, h, m, b);
      RunGood(ops, h, m);
      NextMembers(h[m], ops[m], h[m + 1], b);
      LiveStep(ops, h, m, n, b);
    }
  }

  lemma LiveStep(ops: seq<Op>, h: seq<State>, m: nat, n: nat, b: Block)
    requires n == m + 1 < |h| <= |ops| + 1
    ensures Live(ops, h, n, b) <==>
              (Live(ops, h, m, b) && ops[m] != FreeOp(b.offset)) || Allocates(h[m], ops[m], h[n], b)
  {
    hide Allocates;
    if Allocates(h[m], ops[m], h[n], b) {
      assert AllocatedAt(ops, h, m, n, b);
    }
    if k :| 0 <= k < m && AllocatedAt(ops, h, k, m, b) {
      if ops[m] != FreeOp(b.offset) {
        assert AllocatedAt(ops, h, k, n, b);
      }
    }
    if k :| 0 <= k < n && AllocatedAt(ops, h, k, n, b) {
      if k < m {
        assert AllocatedAt(ops, h, k, m, b);
      }
    }
  }

  /** At every point of every run the owner of an address is the one live block that has it. */
  lemma RunOwner(ops: seq<Op>, h: seq<State>, n: nat, addr: nat, b: Block)
    requires IsRun(ops, h) && n < |h|
    ensures Owner(h[n].blocks, addr) == Some(b) <==> Live(ops, h, n, b) && b.Has(addr)
  {
    hide Next, Live, Owner, Apart;
    RunGood(ops, h, n);
    RunLive(ops, h, n, b);
    if b in h[n].blocks && b.Has(addr) {
      OwnerIs(h[n].blocks, addr, b);
    }
    OwnerIn(h[n].blocks, addr);
  }

  /** Any run of allocations, frees and lookups from an empty list, stopped where the source aborts. What the lemmas
      above say of runs, they say of the states returned. */
  method Run(ops: seq<Op>) returns (h: seq<State>)
    requires forall i :: 0 <= i < |ops| ==> Possible(ops[i])
    ensures IsRun(ops, h)
  {
    hide Next, Aborts, Possible;
    var l := new RamList();
    h := [l.Now()];
    for i := 0 to |ops|
      invariant fresh(l) && l.Valid()
      invariant |h| == i + 1 && h[0] == EMPTY && h[i] == l.Now()
      invariant forall k :: 0 <= k < i ==> Next(h[k], ops[k], h[k + 1])
    {
      var ok := l.Step(ops[i]);
      if !ok {
        return;
      }
      h := h + [l.Now()];
    }
  }
}
