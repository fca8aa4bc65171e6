/**
  The guest memory dump. The file offset of a piece of guest memory is computed before the memory is
  written, by code of its own; both must cut the blocks at the filter in the same way.
 */
module DumpIndex {
  import opened Bytes
  import opened Common


  /** Guest memory [start, end), and its contents. */
  datatype Block = Block(start: nat, end: nat, host: seq<Byte>)

  /** begin and length, when given. */
  datatype Filter = All | Only(begin: nat, length: nat)

  predicate Formed(b: Block) {
    b.start <= b.end && |b.host| == b.end - b.start
  }

  predicate AllFormed(bs: seq<Block>) {
    forall i :: 0 <= i < |bs| ==> Formed(bs[i])
  }

  predicate OutOfRange(f: Filter, b: Block) {
    f.Only? && (b.start >= f.begin + f.length || b.end <= f.begin)
  }

  // ----- What is to be dumped -----

  predicate Wanted(f: Filter, addr: nat) {
    f.Only? ==> f.begin <= addr < f.begin + f.length
  }

  predicate Contains(b: Block, addr: nat) {
    b.start <= addr < b.end
  }

  ghost predicate Dumped(bs: seq<Block>, f: Filter, addr: nat) {
    Wanted(f, addr) && exists i :: 0 <= i < |bs| && Contains(bs[i], addr)
  }

  ghost predicate Disjoint(bs: seq<Block>) {
    forall i, j :: 0 <= i < j < |bs| ==> bs[i].end <= bs[j].start || bs[j].end <= bs[i].start
  }

  /** The byte of guest memory at addr is v. */
  ghost predicate GuestIs(bs: seq<Block>, addr: nat, v: Byte) {
    exists i :: 0 <= i < |bs| && Formed(bs[i]) && Contains(bs[i], addr) && bs[i].host[addr - bs[i].start] == v
  }

  /** s is guest memory from addr on, and all of it is to be dumped. */
  ghost predicate GuestRange(bs: seq<Block>, f: Filter, addr: nat, s: seq<Byte>) {
    forall k: nat :: k < |s| ==> GuestAt(bs, f, addr, s, k)
  }

  ghost predicate GuestAt(bs: seq<Block>, f: Filter, addr: nat, s: seq<Byte>, k: nat)
    requires k < |s|
  {
    Dumped(bs, f, addr + k) && GuestIs(bs, addr + k, s[k])
  }

  lemma GuestUnique(bs: seq<Block>, addr: nat, v: Byte, w: Byte)
    requires Disjoint(bs) && GuestIs(bs, addr, v) && GuestIs(bs, addr, w)
    ensures v == w
  {
    var i :| 0 <= i < |bs| && Formed(bs[i]) && Contains(bs[i], addr) && bs[i].host[addr - bs[i].start] == v;
    var j :| 0 <= j < |bs| && Formed(bs[j]) && Contains(bs[j], addr) && bs[j].host[addr - bs[j].start] == w;
    assert i == j;
  }

  /** On disjoint blocks the bytes of a range are determined. */
  lemma RangeUnique(bs: seq<Block>, f: Filter, addr: nat, s: seq<Byte>, t: seq<Byte>)
    requires Disjoint(bs) && GuestRange(bs, f, addr, s) && GuestRange(bs, f, addr, t) && |s| == |t|
    ensures s == t
  {
    hide GuestIs, Dumped;
    forall k: nat | k < |s| ensures s[k] == t[k] {
      assert GuestAt(bs, f, addr, s, k) && GuestAt(bs, f, addr, t, k);
      GuestUnique(bs, addr + k, s[k], t[k]);
    }
  }

  /** The part of a block that lies inside the filter. */
  function Lo(f: Filter, b: Block): nat {
    if f.Only? && f.begin > b.start then f.begin else b.start
  }

  function Hi(f: Filter, b: Block): nat {
    if f.Only? && f.begin + f.length < b.end then f.begin + f.length else b.end
  }

  lemma CutIs(f: Filter, b: Block, addr: nat)
    requires Formed(b)
    ensures !OutOfRange(f, b) ==> b.start <= Lo(f, b) <= Hi(f, b) <= b.end
    ensures Contains(b, addr) && Wanted(f, addr) <==> !OutOfRange(f, b) && Lo(f, b) <= addr < Hi(f, b)
  {}

  function Part(f: Filter, b: Block): seq<Byte>
    requires Formed(b)
  {
    if OutOfRange(f, b) then [] else b.host[Lo(f, b) - b.start..Hi(f, b) - b.start]
  }

  /** All the memory that goes into the file, block after block. */
  function Memory(f: Filter, bs: seq<Block>): seq<Byte>
    requires AllFormed(bs)
  {
    if bs == [] then [] else Memory(f, bs[..|bs| - 1]) + Part(f, bs[|bs| - 1])
  }

  lemma MemoryNone(f: Filter)
    ensures Memory(f, []) == []
  {}

  lemma MemoryStep(f: Filter, bs: seq<Block>, i: nat)
    requires AllFormed(bs) && i < |bs|
    ensures Memory(f, bs[..i + 1]) == Memory(f, bs[..i]) + Part(f, bs[i])
  {
    hide Part;
    assert bs[..i + 1][..i] == bs[..i];
  }

  /** Blocks outside the filter add nothing. */
  lemma {:induction false} MemorySkip(f: Filter, bs: seq<Block>, i: nat, j: nat)
    requires AllFormed(bs) && i <= j <= |bs| && forall k :: i <= k < j ==> OutOfRange(f, bs[k])
    ensures Memory(f, bs[..j]) == Memory(f, bs[..i])
    decreases j
  {
    if i < j {
      MemorySkip(f, bs, i, j - 1);
      MemoryStep(f, bs, j - 1);
    }
  }

  /** Where the part of block i is in the whole. */
  lemma {:induction false} MemoryAt(f: Filter, bs: seq<Block>, i: nat, n: nat)
    requires AllFormed(bs) && i < n <= |bs|
    ensures var at := |Memory(f, bs[..i])|;
            At(Memory(f, bs[..n]), at, Part(f, bs[i]))
    decreases n
  {
    hide Part, Memory;
    MemoryStep(f, bs, n - 1);
    if i < n - 1 {
      MemoryAt(f, bs, i, n - 1);
    }
  }

  // ----- The dump -----

  class DumpState {
    const blocks: seq<Block>
    const filter: Filter
    const memoryOffset: nat
    const room: nat                 // how much the file can hold
    var file: seq<Byte>
    var nextBlock: nat
    var start: nat

    predicate Valid()
      reads this
    {
      AllFormed(blocks) && |file| <= room
    }

    /** The file is what of `want` fits, and `want` does not fit. */
    predicate Full(want: seq<Byte>)
      reads this
    {
      |want| > room && file == want[..room]
    }

    lemma FullLonger(want: seq<Byte>, more: seq<Byte>)
      requires Full(want)
      ensures Full(want + more)
    {}

    /** get_offset_range: None stands for the offset -1. */
    method GetOffsetRange(physAddr: nat, mappingLength: nat) returns (offset: Option<nat>, filesz: nat)
      requires Valid()
      ensures offset.Some? <==> Dumped(blocks, filter, physAddr)
      ensures filesz <= mappingLength && (offset == None ==> filesz == 0)
      ensures offset.Some? ==> exists i :: 0 <= i < |blocks| && Located(i, physAddr, mappingLength, offset.value, filesz)
    {
      hide Memory, Part;
      if filter.Only? && (physAddr < filter.begin || physAddr >= filter.begin + filter.length) {
        return None, 0;
      }
      var at := memoryOffset;
      MemoryNone(filter);
      for i := 0 to |blocks|
        invariant at == memoryOffset + |Memory(filter, blocks[..i])|
        invariant forall k :: 0 <= k < i ==> !Contains(blocks[k], physAddr)
      {
        var b := blocks[i];
        MemoryStep(filter, blocks, i);
        PartLength(filter, b);
        CutIs(filter, b, physAddr);
        if !OutOfRange(filter, b) {
          var lo, size := b.start, b.end - b.start;
          if filter.Only? {
            lo := if filter.begin <= b.start then b.start else filter.begin;
            size := b.end - lo;
            if filter.begin + filter.length < b.end {
              size := size - (b.end - (filter.begin + filter.length));
            }
          }
          assert lo == Lo(filter, b) && lo + size == Hi(filter, b);
          if lo <= physAddr < lo + size {
            filesz := if physAddr + mappingLength <= lo + size then mappingLength else size - (physAddr - lo);
            assert Located(i, physAddr, mappingLength, physAddr - lo + at, filesz);
            return Some(physAddr - lo + at), filesz;
          }
          at := at + size;
        }
      }
      return None, 0;
    }

    /** The answer for an address in block i: where it is in the file, and the most that is there of
        it in one piece. */
    ghost predicate Located(i: nat, physAddr: nat, mappingLength: nat, offset: nat, filesz: nat)
      requires i < |blocks| && AllFormed(blocks)
    {
      var b := blocks[i];
      && !OutOfRange(filter, b) && Lo(filter, b) <= physAddr < Hi(filter, b)
      && offset == memoryOffset + |Memory(filter, blocks[..i])| + (physAddr - Lo(filter, b))
      && filesz == Min(mappingLength, Hi(filter, b) - physAddr)
    }

    /** write_data */
    method WriteData(buf: seq<Byte>) returns (ok: bool)
      requires Valid()
      modifies this`file
      ensures Valid()
      ensures ok <==> |old(file) + buf| <= room
      ensures if ok then file == old(file) + buf else Full(old(file) + buf)
    {
      if |file| + |buf| <= room {
        file := file + buf;
        return true;
      }
      file := file + buf[..room - |file|];
      return false;
    }

    /** write_memory: a page at a time. */
    method WriteMemory(b: Block, from: nat, size: nat) returns (ok: bool)
      requires Valid() && Formed(b) && from + size <= |b.host|
      modifies this`file
      ensures Valid()
      ensures if ok then file == old(file) + b.host[from..from + size] else Full(old(file) + b.host[from..from + size])
    {
      var i := 0;
      ghost var f0, data := file, b.host[from..from + size];
      while i < size / PAGE
        invariant i <= size / PAGE && Valid()
        invariant file == f0 + data[..i * PAGE]
      {
        ok := WriteData(b.host[from + i * PAGE..from + (i + 1) * PAGE]);
        Chunk(f0, data, i * PAGE, (i + 1) * PAGE);
        assert data[i * PAGE..(i + 1) * PAGE] == b.host[from + i * PAGE..from + (i + 1) * PAGE];
        if !ok {
          FullLonger(f0 + data[..(i + 1) * PAGE], data[(i + 1) * PAGE..]);
          return;
        }
        i := i + 1;
      }
      if size % PAGE != 0 {
        ok := WriteData(b.host[from + i * PAGE..from + size]);
        Chunk(f0, data, i * PAGE, size);
        assert data[i * PAGE..size] == b.host[from + i * PAGE..from + size];
        return;
      }
      assert data[..i * PAGE] == data;
      return true;
    }

    /** Block i is the first one from `first` on that has something to dump. */
    ghost predicate FirstFrom(first: nat, i: nat) {
      && first <= i < |blocks| && !OutOfRange(filter, blocks[i])
      && forall k :: first <= k < i ==> OutOfRange(filter, blocks[k])
    }

    ghost predicate NoneFrom(first: nat) {
      forall k :: first <= k < |blocks| ==> OutOfRange(filter, blocks[k])
    }

    /** The cursor is on a block to be dumped, at the first byte to be dumped. */
    predicate OnBlock()
      reads this
    {
      && nextBlock < |blocks| && !OutOfRange(filter, blocks[nextBlock])
      && start == Lo(filter, blocks[nextBlock]) - blocks[nextBlock].start
    }

    /** get_next_block: false when there is no more block. */
    method GetNextBlock(block: nat) returns (more: bool)
      requires Valid() && block < |blocks|
      modifies this`nextBlock, this`start
      ensures more ==> OnBlock() && FirstFrom(block + 1, nextBlock)
      ensures !more ==> NoneFrom(block + 1)
    {
      var i := block;
      while true
        invariant block <= i < |blocks|
        invariant forall k :: block + 1 <= k <= i ==> OutOfRange(filter, blocks[k])
        decreases |blocks| - i
      {
        i := i + 1;
        if i == |blocks| {
          return false;
        }
        start := 0;
        nextBlock := i;
        if filter.Only? {
          if OutOfRange(filter, blocks[i]) {
            continue;
          }
          if filter.begin > blocks[i].start {
            start := filter.begin - blocks[i].start;
          }
        }
        return true;
      }
    }

    /** get_start_block: false stands for the result -1. */
    method GetStartBlock() returns (found: bool)
      requires Valid() && (filter == All ==> blocks != [])
      modifies this`nextBlock, this`start
      ensures found ==> OnBlock() && FirstFrom(0, nextBlock)
      ensures !found ==> NoneFrom(0)
    {
      if filter == All {
        nextBlock := 0;
        start := 0;
        return true;
      }
      for i := 0 to |blocks|
        invariant forall k :: 0 <= k < i ==> OutOfRange(filter, blocks[k])
      {
        if !OutOfRange(filter, blocks[i]) {
          nextBlock := i;
          start := if filter.begin > blocks[i].start then filter.begin - blocks[i].start else 0;
          return true;
        }
      }
      return false;
    }

    /** How much of the block under the cursor is dumped. */
    method BlockSize() returns (size: nat)
      requires Valid() && OnBlock()
      ensures var b := blocks[nextBlock];
              start + size <= |b.host| && b.host[start..start + size] == Part(filter, b)
    {
      hide Part;
      var b := blocks[nextBlock];
      PartSlice(filter, b);
      size := b.end - b.start;
      if filter.Only? {
        size := b.end - b.start - start;
        if filter.begin + filter.length < b.end {
          size := size - (b.end - (filter.begin + filter.length));
        }
      }
      assert start + size == Hi(filter, b) - b.start;
    }

    /** One block of dump_iterate. */
    method DumpBlock() returns (ok: bool)
      requires Valid() && OnBlock()
      modifies this`file
      ensures Valid()
      ensures var want := old(file) + Part(filter, blocks[nextBlock]);
              if ok then file == want else Full(want)
    {
      hide Part, Full, OnBlock;
      OnIndex();
      var size := BlockSize();
      ok := WriteMemory(blocks[nextBlock], start, size);
    }

    lemma OnIndex()
      requires OnBlock()
      ensures nextBlock < |blocks|
    {}

    /** dump_iterate: the file grows by the wanted part of every block, in order. */
    method DumpIterate() returns (ok: bool)
      requires Valid() && OnBlock() && FirstFrom(0, nextBlock)
      modifies this
      ensures Valid()
      ensures var want := old(file) + Memory(filter, blocks); if ok then file == want else Full(want)
    {
      hide Memory, Part, FirstFrom, NoneFrom, Full, OutOfRange, Lo;
      ghost var f0 := file;
      MemoryNone(filter);
      Skipped(0, nextBlock);
      assert blocks[..0] == [];
      while true
        invariant Valid() && OnBlock()
        invariant file == f0 + Memory(filter, blocks[..nextBlock])
        decreases |blocks| - nextBlock
      {
        var block := nextBlock;
        MemoryStep(filter, blocks, block);
        ok := DumpBlock();
        JoinAssoc(f0, Memory(filter, blocks[..block]), Part(filter, blocks[block]));
        if !ok {
          FullPrefix(f0, block + 1);
          return;
        }
        var more := GetNextBlock(block);
        if !more {
          SkippedAll(block + 1);
          return true;
        }
        Skipped(block + 1, nextBlock);
      }
    }

    lemma Skipped(first: nat, i: nat)
      requires AllFormed(blocks) && FirstFrom(first, i)
      ensures first <= i < |blocks| && Memory(filter, blocks[..i]) == Memory(filter, blocks[..first])
    {
      MemorySkip(filter, blocks, first, i);
    }

    lemma SkippedAll(first: nat)
      requires AllFormed(blocks) && NoneFrom(first) && first <= |blocks|
      ensures Memory(filter, blocks) == Memory(filter, blocks[..first])
    {
      MemorySkip(filter, blocks, first, |blocks|);
      assert blocks[..|blocks|] == blocks;
    }

    lemma FullPrefix(f0: seq<Byte>, n: nat)
      requires AllFormed(blocks) && n <= |blocks| && Full(f0 + Memory(filter, blocks[..n]))
      ensures Full(f0 + Memory(filter, blocks))
      decreases |blocks| - n
    {
      hide Memory, Part;
      if n == |blocks| {
        assert blocks[..n] == blocks;
      } else {
        MemoryStep(filter, blocks, n);
        FullLonger(f0 + Memory(filter, blocks[..n]), Part(filter, blocks[n]));
        JoinAssoc(f0, Memory(filter, blocks[..n]), Part(filter, blocks[n]));
        FullPrefix(f0, n + 1);
      }
    }

    /** The whole dump behind a header of the announced size, and the index of any address: what the
        index says is in the file is guest memory from that address on. */
    method Dump(physAddr: nat, mappingLength: nat) returns (ok: bool, offset: Option<nat>, filesz: nat)
      requires Valid() && (filter == All ==> blocks != []) && |file| == memoryOffset
      modifies this
      ensures offset.Some? <==> Dumped(blocks, filter, physAddr)
      ensures filesz <= mappingLength
      ensures ok ==> file == old(file) + Memory(filter, blocks)
      ensures !ok ==> (file == old(file) && Memory(filter, blocks) == []) || Full(old(file) + Memory(filter, blocks))
      ensures ok && offset.Some? ==>
                && offset.value + filesz <= |file|
                && GuestRange(blocks, filter, physAddr, file[offset.value..offset.value + filesz])
    {
      hide Memory, Part, GuestIs, Dumped, GuestRange, Full;
      ghost var f0 := file;
      offset, filesz := GetOffsetRange(physAddr, mappingLength);
      ok := GetStartBlock();
      if !ok {
        SkippedAll(0);
        MemoryNone(filter);
        assert blocks[..0] == [];
        return;
      }
      ok := DumpIterate();
      if ok && offset.Some? {
        ghost var i :| 0 <= i < |blocks| && Located(i, physAddr, mappingLength, offset.value, filesz);
        InFile(f0, i, physAddr, mappingLength, offset.value, filesz);
      }
    }

    lemma InFile(f0: seq<Byte>, i: nat, physAddr: nat, mappingLength: nat, offset: nat, filesz: nat)
      requires Valid() && file == f0 + Memory(filter, blocks) && |f0| == memoryOffset
      requires i < |blocks| && Located(i, physAddr, mappingLength, offset, filesz)
      ensures offset + filesz <= |file| && GuestRange(blocks, filter, physAddr, file[offset..offset + filesz])
    {
      hide Memory, Part, GuestIs, Dumped;
      var b := blocks[i];
      var lo, at := Lo(filter, b), |Memory(filter, blocks[..i])|;
      assert blocks[..|blocks|] == blocks;
      MemoryAt(filter, blocks, i, |blocks|);
      PartLength(filter, b);
      AtFits(Memory(filter, blocks), at, Part(filter, b));
      var s := file[offset..offset + filesz];
      forall k: nat | k < |s| ensures GuestAt(blocks, filter, physAddr, s, k) {
        PartByte(filter, b, physAddr + k);
        AtByte(Memory(filter, blocks), at, Part(filter, b), physAddr + k - lo);
        GuestIn(blocks, filter, i, physAddr + k);
      }
    }
  }

  lemma GuestIn(bs: seq<Block>, f: Filter, i: nat, addr: nat)
    requires i < |bs| && Formed(bs[i]) && !OutOfRange(f, bs[i]) && Lo(f, bs[i]) <= addr < Hi(f, bs[i])
    ensures Dumped(bs, f, addr) && GuestIs(bs, addr, bs[i].host[addr - bs[i].start])
  {
    CutIs(f, bs[i], addr);
  }

  lemma PartSlice(f: Filter, b: Block)
    requires Formed(b) && !OutOfRange(f, b)
    ensures b.start <= Lo(f, b) <= Hi(f, b) <= b.end && Part(f, b) == b.host[Lo(f, b) - b.start..Hi(f, b) - b.start]
  {}

  lemma PartByte(f: Filter, b: Block, addr: nat)
    requires Formed(b) && !OutOfRange(f, b) && Lo(f, b) <= addr < Hi(f, b)
    ensures addr - Lo(f, b) < |Part(f, b)| && Part(f, b)[addr - Lo(f, b)] == b.host[addr - b.start]
  {}

  lemma Chunk(f: seq<Byte>, data: seq<Byte>, i: nat, j: nat)
    requires i <= j <= |data|
    ensures f + data[..i] + data[i..j] == f + data[..j] && f + data[..j] + data[j..] == f + data
  {}

  lemma PartLength(f: Filter, b: Block)
    requires Formed(b)
    ensures |Part(f, b)| == if OutOfRange(f, b) then 0 else Hi(f, b) - Lo(f, b)
  {}
}
