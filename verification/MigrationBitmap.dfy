/**
  The dirty-page bookkeeping of RAM migration: a bitmap over all RAM pages, a redundant counter of
  its set bits, and a round-robin scan that in its first pass skips the search. Offsets are in pages.
 */
module MigrationBitmap {
  import opened Common

  /** The pages base..base + len of the bitmap belong to the block. */
  datatype Block = Block(base: nat, len: nat)

  /** Number of set bits. */
  ghost function Count(bits: seq<bool>): (n: nat)
    ensures n <= |bits|
  {
    if bits == [] then 0 else Count(bits[..|bits| - 1]) + if bits[|bits| - 1] then 1 else 0
  }

  lemma {:induction false} CountUpdate(bits: seq<bool>, k: nat, v: bool)
    requires k < |bits|
    ensures Count(bits[k := v]) == Count(bits) - (if bits[k] then 1 else 0) + (if v then 1 else 0)
  {
    var n := |bits| - 1;
    if k < n {
      CountUpdate(bits[..n], k, v);
      assert bits[k := v][..n] == bits[..n][k := v];
    } else {
      assert bits[k := v][..n] == bits[..n];
    }
  }

  lemma {:induction false} CountAll(n: nat)
    ensures Count(seq(n, _ => true)) == n
  {
    if n > 0 {
      CountAll(n - 1);
      assert seq(n, _ => true)[..n - 1] == seq(n - 1, _ => true);
    }
  }

  /** Blocks have pages, lie inside the bitmap and do not share pages. */
  ghost predicate Layout(blocks: seq<Block>, n: nat) {
    && blocks != []
    && (forall i :: 0 <= i < |blocks| ==> blocks[i].len > 0 && blocks[i].base + blocks[i].len <= n)
    && (forall i, j :: 0 <= i < j < |blocks| ==>
          blocks[i].base + blocks[i].len <= blocks[j].base || blocks[j].base + blocks[j].len <= blocks[i].base)
  }

  /** Page o of block b is dirty. */
  ghost predicate Dirty(blocks: seq<Block>, bits: seq<bool>, b: int, o: int) {
    0 <= b < |blocks| && 0 <= o < blocks[b].len && 0 <= blocks[b].base + o < |bits| && bits[blocks[b].base + o]
  }

  /** No page lo..hi of block b is dirty. */
  ghost predicate Clean(blocks: seq<Block>, bits: seq<bool>, b: int, lo: int, hi: int) {
    forall o :: lo <= o < hi ==> !Dirty(blocks, bits, b, o)
  }

  ghost predicate AllClean(blocks: seq<Block>, bits: seq<bool>) {
    forall b, o :: !Dirty(blocks, bits, b, o)
  }

  /** The page found, if any, is marked clean. */
  ghost function Taken(blocks: seq<Block>, bits: seq<bool>, b: nat, o: nat): (r: seq<bool>)
    requires b < |blocks| && blocks[b].base + blocks[b].len <= |bits|
    ensures |r| == |bits|
  {
    if o < blocks[b].len then bits[blocks[b].base + o := false] else bits
  }

  /** Clearing one page's bit cleans that page and no other. */
  lemma DirtyAfter(blocks: seq<Block>, bits: seq<bool>, b: nat, o: nat)
    requires Layout(blocks, |bits|) && Dirty(blocks, bits, b, o)
    ensures forall c, p :: Dirty(blocks, bits[blocks[b].base + o := false], c, p) <==> Dirty(blocks, bits, c, p) && !(c == b && p == o)
  {
    forall c, p | Dirty(blocks, bits, c, p) && !(c == b && p == o)
      ensures blocks[c].base + p != blocks[b].base + o
    {
      if c < b { assert 0 <= c < b < |blocks|; } else if b < c { assert 0 <= b < c < |blocks|; }
    }
  }

  /** Every page after the cursor is dirty, as it is during the first pass. */
  ghost predicate Ahead(blocks: seq<Block>, bits: seq<bool>, seen: Option<nat>, off: nat) {
    forall b, o :: 0 <= b < |blocks| && 0 <= o < blocks[b].len && (seen == None || b > seen.value || (b == seen.value && o > off))
      ==> Dirty(blocks, bits, b, o)
  }

  lemma AheadStep(blocks: seq<Block>, bits: seq<bool>, seen: Option<nat>, off: nat, b: nat, o: nat)
    requires Layout(blocks, |bits|) && Ahead(blocks, bits, seen, off) && Dirty(blocks, bits, b, o)
    requires seen.Some? ==> b > seen.value || (b == seen.value && o >= off)
    ensures Ahead(blocks, bits[blocks[b].base + o := false], Some(b), o)
  {
    DirtyAfter(blocks, bits, b, o);
    var bits' := bits[blocks[b].base + o := false];
    forall c, p | 0 <= c < |blocks| && 0 <= p < blocks[c].len && (c > b || (c == b && p > o))
      ensures Dirty(blocks, bits', c, p)
    {
      assert Dirty(blocks, bits, c, p);
    }
  }

  /** When only the page at the cursor is dirty, the cursor is on the last page. */
  lemma NothingAhead(blocks: seq<Block>, bits: seq<bool>, b: nat, off: nat)
    requires Layout(blocks, |bits|) && Ahead(blocks, bits, Some(b), off) && b < |blocks| && off < blocks[b].len
    requires forall c, p :: Dirty(blocks, bits, c, p) ==> c == b && p == off
    ensures b == |blocks| - 1 && off == blocks[b].len - 1
  {
    var nextBlock, nextPage := Dirty(blocks, bits, b + 1, 0), Dirty(blocks, bits, b, off + 1);
  }

  /** What a search that found nothing to send tells: no page is dirty, or only the one at the cursor,
      which it then cleared. */
  lemma SearchFailed(blocks: seq<Block>, bits: seq<bool>, b: nat, o: nat, cursor: nat, bulk: bool)
    requires Layout(blocks, |bits|) && b < |blocks| && cursor <= o <= blocks[b].len
    requires bulk ==> Ahead(blocks, bits, Some(b), cursor)
    requires Clean(blocks, bits, b, 0, o) && Clean(blocks, bits, b, if bulk && 0 < cursor then cursor + 1 else cursor, blocks[b].len)
    requires forall c :: 0 <= c < |blocks| && c != b ==> Clean(blocks, bits, c, 0, blocks[c].len)
    requires o < blocks[b].len ==> Dirty(blocks, bits, b, o)
    ensures o == blocks[b].len ==> AllClean(blocks, bits)
    ensures o < blocks[b].len ==>
              && bulk && 0 < cursor == o && b == |blocks| - 1 && o == blocks[b].len - 1
              && (forall c, p :: Dirty(blocks, bits, c, p) ==> c == b && p == o)
              && AllClean(blocks, bits[blocks[b].base + o := false])
  {
    forall c, p | Dirty(blocks, bits, c, p) ensures c == b && p == o == cursor && bulk && 0 < cursor {
    }
    if o < blocks[b].len {
      NothingAhead(blocks, bits, b, o);
      DirtyAfter(blocks, bits, b, o);
      var bits' := bits[blocks[b].base + o := false];
      forall c, p ensures !Dirty(blocks, bits', c, p) {
        assert Dirty(blocks, bits', c, p) ==> Dirty(blocks, bits, c, p);
      }
    }
  }

  /** The pages sent are, without repetition, those dirty in bits0 that are no longer dirty. */
  ghost predicate SentExactly(blocks: seq<Block>, bits0: seq<bool>, bits: seq<bool>, sent: seq<(nat, nat)>) {
    && (forall b, o :: 0 <= b && 0 <= o ==> (Dirty(blocks, bits0, b, o) <==> Dirty(blocks, bits, b, o) || (b, o) in sent))
    && (forall k :: 0 <= k < |sent| ==> !Dirty(blocks, bits, sent[k].0, sent[k].1))
    && (forall j, k :: 0 <= j < k < |sent| ==> sent[j] != sent[k])
  }

  lemma SentStep(blocks: seq<Block>, bits0: seq<bool>, bits: seq<bool>, sent: seq<(nat, nat)>, b: nat, o: nat)
    requires Layout(blocks, |bits|) && Dirty(blocks, bits, b, o) && SentExactly(blocks, bits0, bits, sent)
    ensures SentExactly(blocks, bits0, bits[blocks[b].base + o := false], sent + [(b, o)])
  {
    DirtyAfter(blocks, bits, b, o);
  }

  /** The scan from page `from` of block b0 has come to the start of `block` (after wrapping around, in
      the last round) and met no dirty page. */
  ghost predicate Swept(blocks: seq<Block>, bits: seq<bool>, b0: nat, from: nat, block: nat, round: bool)
    requires b0 < |blocks|
  {
    && (round || block > b0 ==> Clean(blocks, bits, b0, from, blocks[b0].len))
    && (forall b :: b0 < b < |blocks| && (round || b < block) ==> Clean(blocks, bits, b, 0, blocks[b].len))
    && (round ==> forall b :: 0 <= b < block && b < |blocks| ==> Clean(blocks, bits, b, 0, blocks[b].len))
  }

  lemma SweptStart(blocks: seq<Block>, bits: seq<bool>, b0: nat, from: nat)
    requires b0 < |blocks|
    ensures Swept(blocks, bits, b0, from, b0, false)
  {}

  lemma SweptStep(blocks: seq<Block>, bits: seq<bool>, b0: nat, from: nat, block: nat, round: bool)
    requires b0 < |blocks| && block < |blocks| && Swept(blocks, bits, b0, from, block, round)
    requires if round then block < b0 else block >= b0
    requires Clean(blocks, bits, block, if !round && block == b0 then from else 0, blocks[block].len)
    ensures if block + 1 < |blocks| then Swept(blocks, bits, b0, from, block + 1, round) else Swept(blocks, bits, b0, from, 0, true)
  {}

  lemma SweptEnd(blocks: seq<Block>, bits: seq<bool>, b0: nat, from: nat)
    requires b0 < |blocks| && Swept(blocks, bits, b0, from, b0, true)
    ensures Clean(blocks, bits, b0, from, blocks[b0].len)
    ensures forall b :: 0 <= b < |blocks| && b != b0 ==> Clean(blocks, bits, b, 0, blocks[b].len)
  {}

  // ----- The search of ram_save_block, from a cursor over unchanging bits -----

  /** The block the search begins in. */
  ghost function Home(seen: Option<nat>): nat {
    if seen == None then 0 else seen.value
  }

  /** The page the search begins on; the first pass skips the cursor's own page, unless it is the first. */
  ghost function From(off: nat, first: bool): nat {
    if first && 0 < off then off + 1 else off
  }

  /** The search has come to page `offset` of `block` and found nothing to send. */
  ghost predicate Scanning(blocks: seq<Block>, bits: seq<bool>, seen: Option<nat>, off: nat, first: bool,
                           block: nat, offset: nat, round: bool, bulk: bool)
  {
    var b0 := Home(seen);
    && block < |blocks| && b0 < |blocks| && offset <= blocks[block].len
    && (if round then block <= b0 && offset == 0 && !bulk else b0 <= block && bulk == first)
    && (!round ==> offset == if block == b0 then off else 0)
    && (round || block > b0 ==> seen.Some?)
    && Swept(blocks, bits, b0, From(off, first), block, round)
    && (first ==> if round then b0 == |blocks| - 1 else block <= b0 + 1)
    && (first && (round || block > b0) ==> off + 1 >= blocks[b0].len && (off == 0 ==> !Dirty(blocks, bits, b0, 0)))
  }

  /** What find_and_reset answers: the first dirty page from start on, or in the first pass the next page. */
  ghost predicate Probed(blocks: seq<Block>, bits: seq<bool>, block: nat, start: nat, o: nat, bulk: bool)
    requires block < |blocks|
  {
    && (if bulk && 0 < start then o == start + 1 else start <= o <= blocks[block].len && Clean(blocks, bits, block, start, o))
    && (o < blocks[block].len ==> Dirty(blocks, bits, block, o))
  }

  /** The cursor, and in the first pass the pages after it, as the scan keeps them. */
  ghost predicate CursorOk(blocks: seq<Block>, bits: seq<bool>, seen: Option<nat>, off: nat, bulk: bool) {
    && (seen.Some? ==> seen.value < |blocks| && off <= blocks[seen.value].len)
    && (seen.Some? && bulk ==> off < blocks[seen.value].len)
    && (seen == None ==> off == 0 && bulk)
    && (bulk ==> Ahead(blocks, bits, seen, off))
  }

  /** The page the first pass sends next: the one after the cursor, or the cursor's own page again if
      that is the first of its block and was dirtied again. */
  ghost function NextPage(blocks: seq<Block>, bits: seq<bool>, seen: Option<nat>, off: nat): (nat, nat)
    requires seen.Some? ==> seen.value < |blocks|
  {
    if seen == None then (0, 0)
    else if off == 0 && Dirty(blocks, bits, seen.value, 0) then (seen.value, 0)
    else if off + 1 < blocks[seen.value].len then (seen.value, off + 1)
    else (seen.value + 1, 0)
  }

  /** In the order of a scan that begins with page `from` of block b0 and goes round, (c, p) is before (b, o). */
  ghost predicate Sooner(b0: nat, from: nat, c: int, p: int, b: int, o: int) {
    var x, y := c > b0 || (c == b0 && p >= from), b > b0 || (b == b0 && o >= from);
    if x == y then c < b || (c == b && p < o) else x
  }

  /** The first dirty page in that order. */
  ghost predicate Soonest(blocks: seq<Block>, bits: seq<bool>, b0: nat, from: nat, b: int, o: int) {
    Dirty(blocks, bits, b, o) && forall c, p :: Dirty(blocks, bits, c, p) ==> !Sooner(b0, from, c, p, b, o)
  }

  /** There is no more than one. */
  lemma SoonestUnique(blocks: seq<Block>, bits: seq<bool>, b0: nat, from: nat, b: int, o: int, b': int, o': int)
    requires Soonest(blocks, bits, b0, from, b, o) && Soonest(blocks, bits, b0, from, b', o')
    ensures b == b' && o == o'
  {
    hide Dirty;
    assert !Sooner(b0, from, b, o, b', o') && !Sooner(b0, from, b', o', b, o);
  }

  /** The search ends on the first dirty page. */
  ghost predicate FoundPage(blocks: seq<Block>, bits: seq<bool>, seen: Option<nat>, off: nat, first: bool,
                            block: nat, offset: nat, bulk: bool)
  {
    && Soonest(blocks, bits, Home(seen), From(off, first), block, offset) && (seen.Some? ==> seen.value < |blocks|)
    && (bulk && seen.Some? ==> block > seen.value || (block == seen.value && offset >= off))
    && (bulk ==> (block, offset) == NextPage(blocks, bits, seen, off))
    && (first && 0 < off ==> seen != Some(block) || offset != off)
  }

  /** The search comes back to the cursor. */
  ghost predicate CameRound(blocks: seq<Block>, bits: seq<bool>, seen: Option<nat>, off: nat, first: bool, block: nat, offset: nat) {
    && seen == Some(block) && block < |blocks| && off <= offset <= blocks[block].len
    && Clean(blocks, bits, block, 0, offset) && Clean(blocks, bits, block, From(off, first), blocks[block].len)
    && (forall b :: 0 <= b < |blocks| && b != block ==> Clean(blocks, bits, b, 0, blocks[b].len))
    && (offset < blocks[block].len ==> Dirty(blocks, bits, block, offset))
  }

  lemma ScanStart(blocks: seq<Block>, bits: seq<bool>, seen: Option<nat>, off: nat, bulk: bool)
    requires Layout(blocks, |bits|) && CursorOk(blocks, bits, seen, off, bulk)
    ensures Scanning(blocks, bits, seen, off, bulk, Home(seen), off, false, bulk)
  {
    hide Ahead;
    SweptStart(blocks, bits, Home(seen), From(off, bulk));
  }

  /** In the first pass, what follows the cursor is dirty. */
  lemma ScanAhead(blocks: seq<Block>, bits: seq<bool>, seen: Option<nat>, off: nat)
    requires Layout(blocks, |bits|) && CursorOk(blocks, bits, seen, off, true)
    ensures var b0 := Home(seen);
            && b0 < |blocks| && (forall i :: 0 <= i < |blocks| ==> blocks[i].len > 0)
            && (seen == None ==> Dirty(blocks, bits, 0, 0))
            && (off + 1 < blocks[b0].len ==> Dirty(blocks, bits, b0, off + 1))
            && (b0 + 1 < |blocks| ==> Dirty(blocks, bits, b0 + 1, 0))
  {
    var b0 := Home(seen);
    var here, ahead, next := Dirty(blocks, bits, 0, 0), Dirty(blocks, bits, b0, off + 1), Dirty(blocks, bits, b0 + 1, 0);
  }

  /** Where find_and_reset does not search, the page it takes is dirty. */
  lemma ScanProbe(blocks: seq<Block>, bits: seq<bool>, seen: Option<nat>, off: nat, first: bool,
                  block: nat, offset: nat, round: bool, bulk: bool)
    requires Layout(blocks, |bits|) && CursorOk(blocks, bits, seen, off, first)
    requires Scanning(blocks, bits, seen, off, first, block, offset, round, bulk)
    ensures block < |blocks| && offset <= blocks[block].len && blocks[block].base + blocks[block].len <= |bits|
    ensures bulk && 0 < offset && offset + 1 < blocks[block].len ==> Dirty(blocks, bits, block, offset + 1)
  {
    hide Swept, Ahead, Dirty;
    if first {
      ScanAhead(blocks, bits, seen, off);
    }
  }

  lemma TakenNone(blocks: seq<Block>, bits: seq<bool>, b: nat, o: nat)
    requires b < |blocks| && blocks[b].base + blocks[b].len <= |bits| && o >= blocks[b].len
    ensures Taken(blocks, bits, b, o) == bits
  {}

  lemma ScanNext(blocks: seq<Block>, bits: seq<bool>, seen: Option<nat>, off: nat, first: bool,
                 block: nat, offset: nat, o: nat, round: bool, bulk: bool)
    requires Layout(blocks, |bits|) && CursorOk(blocks, bits, seen, off, first)
    requires Scanning(blocks, bits, seen, off, first, block, offset, round, bulk) && Probed(blocks, bits, block, offset, o, bulk)
    requires o >= blocks[block].len && !(round && seen == Some(block) && o >= off)
    ensures if block + 1 < |blocks| then Scanning(blocks, bits, seen, off, first, block + 1, 0, round, bulk)
            else Scanning(blocks, bits, seen, off, first, 0, 0, true, false)
  {
    hide Swept, Ahead, Layout, Dirty;
    if first {
      ScanAhead(blocks, bits, seen, off);
    }
    SweptStep(blocks, bits, Home(seen), From(off, first), block, round);
  }

  lemma ScanFound(blocks: seq<Block>, bits: seq<bool>, seen: Option<nat>, off: nat, first: bool,
                  block: nat, offset: nat, o: nat, round: bool, bulk: bool)
    requires Layout(blocks, |bits|) && CursorOk(blocks, bits, seen, off, first)
    requires Scanning(blocks, bits, seen, off, first, block, offset, round, bulk) && Probed(blocks, bits, block, offset, o, bulk)
    requires o < blocks[block].len && !(round && seen == Some(block) && o >= off)
    ensures FoundPage(blocks, bits, seen, off, first, block, o, bulk)
  {
    hide Swept, Ahead, Layout, Dirty, Soonest;
    if first {
      ScanAhead(blocks, bits, seen, off);
    }
    SweptSoonest(blocks, bits, Home(seen), From(off, first), block, o, round);
  }

  /** A dirty page with nothing dirty behind it in its block, back to where the scan came in, is the first. */
  lemma SweptSoonest(blocks: seq<Block>, bits: seq<bool>, b0: nat, from: nat, block: nat, o: nat, round: bool)
    requires b0 < |blocks| && Swept(blocks, bits, b0, from, block, round) && Dirty(blocks, bits, block, o)
    requires if round then block <= b0 else block >= b0
    requires Clean(blocks, bits, block, if !round && block == b0 then from else 0, o)
    requires block == b0 ==> if round then o < from else o >= from
    ensures Soonest(blocks, bits, b0, from, block, o)
  {
    forall c, p | Dirty(blocks, bits, c, p) ensures !Sooner(b0, from, c, p, block, o) {
      InBlock(blocks, bits, c, p);
      hide Dirty;
    }
  }

  lemma InBlock(blocks: seq<Block>, bits: seq<bool>, b: int, o: int)
    requires Dirty(blocks, bits, b, o)
    ensures 0 <= b < |blocks| && 0 <= o < blocks[b].len
  {}

  lemma ScanEnd(blocks: seq<Block>, bits: seq<bool>, seen: Option<nat>, off: nat, first: bool,
                block: nat, offset: nat, o: nat, bulk: bool)
    requires Scanning(blocks, bits, seen, off, first, block, offset, true, bulk) && Probed(blocks, bits, block, offset, o, bulk)
    requires seen == Some(block) && o >= off
    ensures CameRound(blocks, bits, seen, off, first, block, o)
  {
    hide Swept, Dirty;
    SweptEnd(blocks, bits, block, From(off, first));
  }

  /** The first pass is over exactly when no page is next in it. */
  lemma ScanPass(blocks: seq<Block>, bits: seq<bool>, seen: Option<nat>, off: nat, first: bool,
                 block: nat, offset: nat, round: bool, bulk: bool)
    requires CursorOk(blocks, bits, seen, off, first) && Scanning(blocks, bits, seen, off, first, block, offset, round, bulk)
    ensures bulk ==> first && !round
    ensures first && round ==> seen.Some? && seen.value < |blocks| && NextPage(blocks, bits, seen, off).0 == |blocks|
  {
    hide Swept, Ahead, Dirty;
  }

  /** The cursor is on the very last page at the end of the first pass, that page was dirtied again
      since it was sent, and no other page is dirty. */
  ghost predicate OnlyCursor(blocks: seq<Block>, bits: seq<bool>, seen: Option<nat>, off: nat, bulk: bool) {
    && bulk && seen.Some? && seen.value == |blocks| - 1
    && 0 < off == blocks[seen.value].len - 1
    && Dirty(blocks, bits, seen.value, off)
    && forall b, o :: Dirty(blocks, bits, b, o) ==> b == seen.value && o == off
  }

  lemma TookPage(blocks: seq<Block>, bits: seq<bool>, seen: Option<nat>, off: nat, first: bool, block: nat, offset: nat, bulk: bool)
    requires Layout(blocks, |bits|) && CursorOk(blocks, bits, seen, off, first) && block < |blocks| && (bulk ==> first)
    requires FoundPage(blocks, bits, seen, off, first, block, offset, bulk)
    ensures blocks[block].base + blocks[block].len <= |bits| && offset < blocks[block].len && Dirty(blocks, bits, block, offset)
    ensures Taken(blocks, bits, block, offset) == bits[blocks[block].base + offset := false]
    ensures CursorOk(blocks, Taken(blocks, bits, block, offset), Some(block), offset, bulk)
    ensures !AllClean(blocks, bits) && !OnlyCursor(blocks, bits, seen, off, first)
    ensures Soonest(blocks, bits, Home(seen), From(off, first), block, offset)
    ensures bulk ==> (seen.Some? ==> seen.value < |blocks|) && (block, offset) == NextPage(blocks, bits, seen, off)
  {
    hide Ahead;
    if bulk {
      AheadStep(blocks, bits, seen, off, block, offset);
    }
  }

  lemma TookNothing(blocks: seq<Block>, bits: seq<bool>, seen: Option<nat>, off: nat, first: bool, block: nat, offset: nat)
    requires Layout(blocks, |bits|) && CursorOk(blocks, bits, seen, off, first) && block < |blocks|
    requires CameRound(blocks, bits, seen, off, first, block, offset)
    ensures blocks[block].base + blocks[block].len <= |bits|
    ensures CursorOk(blocks, Taken(blocks, bits, block, offset), Some(block), offset, false)
    ensures AllClean(blocks, Taken(blocks, bits, block, offset))
    ensures AllClean(blocks, bits) || OnlyCursor(blocks, bits, seen, off, first)
    ensures !OnlyCursor(blocks, bits, seen, off, first) ==> Taken(blocks, bits, block, offset) == bits
    ensures seen == Some(block) && offset == if OnlyCursor(blocks, bits, seen, off, first) then off else blocks[block].len
  {
    hide Ahead, Dirty;
    SearchFailed(blocks, bits, block, offset, off, first);
  }

  class Scan {
    const blocks: seq<Block>
    const bitmap: array<bool>
    var dirtyPages: int
    var lastSeen: Option<nat>
    var lastOffset: nat
    var bulk: bool

    ghost predicate Valid()
      reads this, bitmap
    {
      && Layout(blocks, bitmap.Length)
      && dirtyPages == Count(bitmap[..])
      && CursorOk(blocks, bitmap[..], lastSeen, lastOffset, bulk)
    }

    /** ram_save_setup: all pages dirty, the first pass about to begin. */
    constructor (blocks: seq<Block>, pages: nat)
      requires Layout(blocks, pages)
      ensures Valid() && fresh(bitmap) && this.blocks == blocks && bitmap[..] == seq(pages, _ => true)
      ensures lastSeen == None && bulk
    {
      this.blocks := blocks;
      bitmap := new bool[pages](_ => true);
      dirtyPages := pages;
      lastSeen, lastOffset, bulk := None, 0, true;
      new;
      CountAll(pages);
      assert bitmap[..] == seq(pages, _ => true);
    }

    /** migration_bitmap_set_dirty */
    method SetDirty(b: nat, o: nat) returns (was: bool)
      requires Valid() && b < |blocks| && o < blocks[b].len
      modifies bitmap, this`dirtyPages
      ensures Valid() && was == old(bitmap[blocks[b].base + o])
      ensures bitmap[..] == old(bitmap[..])[blocks[b].base + o := true]
    {
      var nr := blocks[b].base + o;
      was := bitmap[nr];
      CountUpdate(bitmap[..], nr, true);
      bitmap[nr] := true;
      assert bitmap[..] == old(bitmap[..])[nr := true];
      if !was {
        dirtyPages := dirtyPages + 1;
      }
      assert forall c, p :: old(Dirty(blocks, bitmap[..], c, p)) ==> Dirty(blocks, bitmap[..], c, p);
    }

    /** find_next_bit: the first set bit in nr..size, or size. */
    method FindNextBit(size: nat, nr: nat) returns (next: nat)
      requires size <= bitmap.Length && nr <= size
      ensures nr <= next <= size && (forall k :: nr <= k < next ==> !bitmap[k]) && (next < size ==> bitmap[next])
    {
      next := nr;
      while next < size && !bitmap[next]
        invariant nr <= next <= size && forall k :: nr <= k < next ==> !bitmap[k]
      {
        next := next + 1;
      }
    }

    /** migration_bitmap_find_and_reset_dirty on block b from page start; the first pass does not search
        but takes the page after start. */
    method FindAndReset(b: nat, start: nat) returns (o: nat)
      requires Layout(blocks, bitmap.Length) && dirtyPages == Count(bitmap[..])
      requires b < |blocks| && start <= blocks[b].len
      requires bulk && 0 < start && start + 1 < blocks[b].len ==> Dirty(blocks, bitmap[..], b, start + 1)
      modifies bitmap, this`dirtyPages
      ensures dirtyPages == Count(bitmap[..])
      ensures Probed(blocks, old(bitmap[..]), b, start, o, bulk)
      ensures bitmap[..] == Taken(blocks, old(bitmap[..]), b, o)
    {
      var base := blocks[b].base;
      var nr, size := base + start, base + blocks[b].len;
      var next;
      if bulk && nr > base {
        next := nr + 1;
      } else {
        next := FindNextBit(size, nr);
      }
      o := next - base;
      if next < size {
        CountUpdate(bitmap[..], next, false);
        bitmap[next] := false;
        assert bitmap[..] == old(bitmap[..])[next := false];
        dirtyPages := dirtyPages - 1;
      }
    }

    ghost function NextInPass(): (nat, nat)
      reads this, bitmap
      requires lastSeen.Some? ==> lastSeen.value < |blocks|
    {
      NextPage(blocks, bitmap[..], lastSeen, lastOffset)
    }

    /** The cursor is on the last page of the last block. */
    ghost predicate AtLastPage()
      reads this
    {
      lastSeen == Some(|blocks| - 1) && lastOffset + 1 >= blocks[|blocks| - 1].len
    }

    /** The state that loses a page. */
    ghost predicate CursorOnly()
      reads this, bitmap
    {
      OnlyCursor(blocks, bitmap[..], lastSeen, lastOffset, bulk)
    }

    /** ram_save_block, without XBZRLE and RDMA: the page to send, or None when it sends nothing. It
        takes the first dirty page from the cursor on, and finds one unless there is none - or unless the only dirty page
        is the one the first pass ended on, which is then marked clean without being sent. */
    method SaveBlock() returns (page: Option<(nat, nat)>)
      requires Valid()
      modifies this, bitmap
      ensures Valid()
      ensures page == None <==> old(AllClean(blocks, bitmap[..])) || old(CursorOnly())
      ensures page == None ==> AllClean(blocks, bitmap[..]) && !bulk
      ensures page == None && !old(CursorOnly()) ==> bitmap[..] == old(bitmap[..])
      ensures page == None ==> lastSeen.Some? && lastSeen == old(lastSeen)
                               && lastOffset == if old(CursorOnly()) then old(lastOffset) else blocks[lastSeen.value].len
      ensures page.Some? ==> var (b, o) := page.value;
                && Dirty(blocks, old(bitmap[..]), b, o) && bitmap[..] == old(bitmap[..])[blocks[b].base + o := false]
                && Soonest(blocks, old(bitmap[..]), Home(old(lastSeen)), From(old(lastOffset), old(bulk)), b, o)
                && lastSeen == Some(b) && lastOffset == o
      ensures bulk ==> page == Some(old(NextInPass()))
      ensures old(bulk) && !bulk ==> old(AtLastPage())
      // the first pass goes on as long as there is a next page, and does not come back
      ensures bulk <==> old(bulk) && old(NextInPass()).0 < |blocks|
    {
      hide Count, Layout, CursorOk, Dirty, AllClean, OnlyCursor, FoundPage, CameRound, NextPage, Taken, Soonest;
      var found, block, offset := Search();
      ghost var bits0 := old(bitmap[..]);
      if found {
        TookPage(blocks, bits0, lastSeen, lastOffset, old(bulk), block, offset, bulk);
        page := Some((block, offset));
      } else {
        page := None;
        TookNothing(blocks, bits0, lastSeen, lastOffset, old(bulk), block, offset);
      }
      lastSeen := Some(block);
      lastOffset := offset;
    }

    /** The loop of ram_save_complete: send until nothing is found. It sends every dirty page exactly
        once, if and only if it does not start in the state that loses a page. */
    method Complete() returns (sent: seq<(nat, nat)>)
      requires Valid()
      modifies this, bitmap
      ensures Valid() && AllClean(blocks, bitmap[..])
      ensures old(CursorOnly()) ==> sent == []
      ensures !old(CursorOnly()) ==> SentExactly(blocks, old(bitmap[..]), bitmap[..], sent)
    {
      hide Layout, Count, Ahead;
      sent := [];
      ghost var bits0, lost := bitmap[..], CursorOnly();
      while true
        invariant Valid() && SentExactly(blocks, bits0, bitmap[..], sent)
        invariant sent == [] ==> bitmap[..] == bits0 && CursorOnly() == lost
        invariant sent != [] ==> !lost && !CursorOnly()
        decreases dirtyPages
      {
        ghost var bits := bitmap[..];
        var page := SaveBlock();
        if page == None {
          break;
        }
        SentStep(blocks, bits0, bits, sent, page.value.0, page.value.1);
        CountUpdate(bits, blocks[page.value.0].base + page.value.1, false);
        sent := sent + [page.value];
      }
    }

    /** The loop of ram_save_block. */
    method Search() returns (found: bool, block: nat, offset: nat)
      requires Valid()
      modifies bitmap, this`dirtyPages, this`bulk
      ensures block < |blocks| && dirtyPages == Count(bitmap[..]) && (bulk ==> old(bulk) && found)
      ensures bitmap[..] == Taken(blocks, old(bitmap[..]), block, offset)
      ensures found ==> FoundPage(blocks, old(bitmap[..]), lastSeen, lastOffset, old(bulk), block, offset, bulk)
      ensures !found ==> CameRound(blocks, old(bitmap[..]), lastSeen, lastOffset, old(bulk), block, offset)
      ensures old(bulk) && !bulk ==> AtLastPage()
      ensures bulk <==> old(bulk) && old(NextInPass()).0 < |blocks|
    {
      hide Count, OnlyCursor, Layout, CursorOk, Dirty, Clean, Probed, CameRound, Swept, Taken, NextPage, Soonest;
      block := if lastSeen == None then 0 else lastSeen.value;
      offset := lastOffset;
      var round := false;
      ghost var first, bits0 := bulk, bitmap[..];
      ScanStart(blocks, bits0, lastSeen, lastOffset, bulk);
      while true
        invariant bitmap[..] == bits0 && dirtyPages == Count(bits0)
        invariant Scanning(blocks, bits0, lastSeen, lastOffset, first, block, offset, round, bulk)
        decreases if round then Home(lastSeen) - block else |blocks| + |blocks| - block
      {
        ghost var start := offset;
        ScanProbe(blocks, bits0, lastSeen, lastOffset, first, block, offset, round, bulk);
        offset := FindAndReset(block, offset);
        if round && lastSeen == Some(block) && offset >= lastOffset {
          found := false;
          ScanPass(blocks, bits0, lastSeen, lastOffset, first, block, start, round, bulk);
          ScanEnd(blocks, bits0, lastSeen, lastOffset, first, block, start, offset, bulk);
          break;
        }
        if offset >= blocks[block].len {
          ScanNext(blocks, bits0, lastSeen, lastOffset, first, block, start, offset, round, bulk);
          TakenNone(blocks, bits0, block, offset);
          offset := 0;
          block := block + 1;
          if block == |blocks| {
            block := 0;
            round := true;
            bulk := false;
          }
        } else {
          found := true;
          ScanPass(blocks, bits0, lastSeen, lastOffset, first, block, start, round, bulk);
          ScanFound(blocks, bits0, lastSeen, lastOffset, first, block, start, offset, round, bulk);
          break;
        }
      }
    }
  }

  /** Two pages, both sent in the first pass. */
  method FirstPass() returns (d: Scan)
    ensures fresh(d) && fresh(d.bitmap) && d.Valid() && d.blocks == [Block(0, 2)] && d.bitmap[..] == [false, false]
    ensures d.bulk && d.lastSeen == Some(0) && d.lastOffset == 1
  {
    hide Count, OnlyCursor, Ahead, Layout;
    TwoPages();
    d := new Scan([Block(0, 2)], 2);
    assert Dirty(d.blocks, d.bitmap[..], 0, 0) && Dirty(d.blocks, d.bitmap[..], 0, 1);
    var first := d.SaveBlock();
    assert first == Some((0, 0)) && d.bitmap[..] == [false, true];
    assert Dirty(d.blocks, d.bitmap[..], 0, 1);
    var second := d.SaveBlock();
    assert second == Some((0, 1)) && d.bitmap[..] == [false, false];
  }

  lemma TwoPages()
    ensures Layout([Block(0, 2)], 2)
  {}

  /** The loss, concretely: the first pass ends on the second page, which is dirtied again. */
  method LostPage() returns (before: bool, page: Option<(nat, nat)>, after: bool)
    ensures before && page == None && !after
  {
    hide Count, OnlyCursor, Ahead, Layout;
    var d := FirstPass();
    var _ := d.SetDirty(0, 1);
    assert d.bitmap[..] == [false, true];
    before := d.bitmap[1];
    LostState(d);
    page := d.SaveBlock();
    after := d.bitmap[1];
    assert !Dirty(d.blocks, d.bitmap[..], 0, 1);
  }

  lemma LostState(d: Scan)
    requires d.blocks == [Block(0, 2)] && d.bitmap[..] == [false, true] && d.bulk && d.lastSeen == Some(0) && d.lastOffset == 1
    ensures d.CursorOnly()
  {
    assert Dirty(d.blocks, d.bitmap[..], 0, 1);
  }
}
