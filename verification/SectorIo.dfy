/**
  Byte-addressed reads and writes on a disk that only transfers whole sectors: a partial first sector,
  whole sectors in the middle and a partial last sector.
 */
module SectorIo {
  import opened Bytes
  import opened Common

  const SECTOR: nat := 512          // BDRV_SECTOR_SIZE

  lemma PatchNone(s: seq<Byte>, off: nat)
    ensures Patch(s, off, []) == s
  {}

  /** Two adjacent writes are one. */
  lemma PatchAdjacent(s: seq<Byte>, off: nat, a: seq<Byte>, b: seq<Byte>)
    ensures Patch(Patch(s, off, a), off + |a|, b) == Patch(s, off, a + b)
  {}

  /** Changing a slice and writing it back changes that part of the whole. */
  lemma PatchSlice(s: seq<Byte>, at: nat, n: nat, o: nat, d: seq<Byte>)
    requires at + n <= |s| && o + |d| <= n
    ensures Patch(s, at, Patch(s[at..at + n], o, d)) == Patch(s, at + o, d)
  {}

  /** Reading back what was written. */
  lemma PatchRead(s: seq<Byte>, off: nat, d: seq<Byte>)
    requires off + |d| <= |s|
    ensures Patch(s, off, d)[off..off + |d|] == d
  {}

  lemma PatchBeside(s: seq<Byte>, off: nat, d: seq<Byte>, i: nat, j: nat)
    requires i <= j <= |s| && (j <= off || off + |d| <= i)
    ensures Patch(s, off, d)[i..j] == s[i..j]
  {
    var p := Patch(s, off, d);
    assert forall k :: i <= k < j ==> p[k] == s[k];
  }

  /** What a failed write may leave: bytes of the range that were written and bytes that were not. */
  ghost predicate Partly(s: seq<Byte>, s': seq<Byte>, off: nat, d: seq<Byte>) {
    |s'| == |s| && forall i :: 0 <= i < |s| ==> s'[i] == s[i] || (off <= i < off + |d| && s'[i] == d[i - off])
  }

  lemma PartlyNone(s: seq<Byte>, off: nat, d: seq<Byte>)
    ensures Partly(s, s, off, d)
  {}

  /** One more piece of the range is written. */
  lemma PartlyMore(s: seq<Byte>, s': seq<Byte>, off: nat, d: seq<Byte>, i: nat, j: nat)
    requires Partly(s, s', off, d) && i <= j <= |d|
    ensures Partly(s, Patch(s', off + i, d[i..j]), off, d)
  {}

  /** A write in progress: the bytes before n are written, or, when the medium fails, any of the range. */
  ghost predicate Written(s: seq<Byte>, s': seq<Byte>, off: nat, d: seq<Byte>, n: nat, ok: bool)
    requires n <= |d|
  {
    Partly(s, s', off, d) && (ok ==> s' == Patch(s, off, d[..n]))
  }

  lemma WrittenNone(s: seq<Byte>, off: nat, d: seq<Byte>, ok: bool)
    ensures Written(s, s, off, d, 0, ok)
  {
    hide Patch;
    PartlyNone(s, off, d);
    PatchNone(s, off);
    assert d[..0] == [];
  }

  lemma WrittenMore(s: seq<Byte>, s': seq<Byte>, off: nat, d: seq<Byte>, i: nat, j: nat, ok: bool)
    requires i <= j <= |d| && Written(s, s', off, d, i, ok)
    ensures Written(s, Patch(s', off + i, d[i..j]), off, d, j, ok)
  {
    hide Patch, Partly;
    PartlyMore(s, s', off, d, i, j);
    PatchAdjacent(s, off, d[..i], d[i..j]);
    assert d[..i] + d[i..j] == d[..j];
  }

  lemma WrittenSkip(s: seq<Byte>, s': seq<Byte>, off: nat, d: seq<Byte>, i: nat, j: nat)
    requires i <= |d| && j <= |d| && Written(s, s', off, d, i, false)
    ensures Written(s, s', off, d, j, false)
  {}

  lemma WrittenAll(s: seq<Byte>, s': seq<Byte>, off: nat, d: seq<Byte>, ok: bool)
    requires Written(s, s', off, d, |d|, ok)
    ensures |s'| == |s| && Partly(s, s', off, d) && (ok ==> s' == Patch(s, off, d))
  {
    assert d[..|d|] == d;
  }

  /** A write that fails after a finished one fails in the joined write. */
  lemma PartlyLater(s: seq<Byte>, s': seq<Byte>, off: nat, a: seq<Byte>, b: seq<Byte>)
    requires Partly(Patch(s, off, a), s', off + |a|, b)
    ensures Partly(s, s', off, a + b)
  {}

  /** Writing back a changed slice changes nothing else. */
  lemma PartlySlice(s: seq<Byte>, s': seq<Byte>, at: nat, n: nat, o: nat, d: seq<Byte>)
    requires at + n <= |s| && o + |d| <= n && Partly(s, s', at, Patch(s[at..at + n], o, d))
    ensures Partly(s, s', at + o, d)
  {}

  lemma PartlyShorter(s: seq<Byte>, s': seq<Byte>, off: nat, a: seq<Byte>, b: seq<Byte>)
    requires Partly(s, s', off, a)
    ensures Partly(s, s', off, a + b)
  {}

  /** Sector k holds one of the bytes [off, off + count). */
  predicate Touches(k: nat, off: nat, count: nat) {
    k * SECTOR < off + count && off < (k + 1) * SECTOR && count > 0
  }

  class Disk {
    var data: seq<Byte>
    const length: nat
    const badReads: set<nat>          // sectors the medium fails to read
    const badWrites: set<nat>         // sectors the medium fails to write
    const torn: set<nat>              // sectors it has written all the same when a write fails

    predicate Valid()
      reads this
    {
      |data| == length
    }

    predicate CanRead(k: nat) {
      (k + 1) * SECTOR <= length && k !in badReads
    }

    predicate CanWrite(k: nat) {
      (k + 1) * SECTOR <= length && k !in badWrites
    }

    predicate CanReadAll(sector: nat, n: nat) {
      forall k :: sector <= k < sector + n ==> CanRead(k)
    }

    predicate CanWriteAll(sector: nat, n: nat) {
      forall k :: sector <= k < sector + n ==> CanWrite(k)
    }

    /** bdrv_read */
    method Read(sector: nat, n: nat) returns (buf: Option<seq<Byte>>)
      requires n > 0 && Valid()
      ensures buf.Some? <==> CanReadAll(sector, n)
      ensures buf.Some? ==> (sector + n) * SECTOR <= |data| && buf.value == data[sector * SECTOR..(sector + n) * SECTOR]
    {
      if !CanReadAll(sector, n) {
        return None;
      }
      assert CanRead(sector + n - 1);
      return Some(data[sector * SECTOR..(sector + n) * SECTOR]);
    }

    /** bdrv_write and bdrv_writev: nothing is written beyond the end; when the medium fails, any of the
        sectors may have been written. */
    method Write(sector: nat, n: nat, buf: seq<Byte>) returns (ok: bool)
      requires n > 0 && |buf| == n * SECTOR
      requires Valid()
      modifies this`data
      ensures Valid()
      ensures ok <==> CanWriteAll(sector, n)
      ensures ok ==> data == Patch(old(data), sector * SECTOR, buf)
      ensures !ok ==> Partly(old(data), data, sector * SECTOR, buf)
    {
      hide Patch, Partly, Written;
      if (sector + n) * SECTOR > length {
        assert !CanWrite(sector + n - 1);
        PartlyNone(data, sector * SECTOR, buf);
        return false;
      }
      ok := CanWriteAll(sector, n);
      WrittenNone(data, sector * SECTOR, buf, ok);
      var i: nat, at: nat := 0, 0;
      while i < n
        invariant i <= n && at == i * SECTOR && |data| == |old(data)|
        invariant Written(old(data), data, sector * SECTOR, buf, at, ok)
      {
        if ok || sector + i in torn {
          WrittenMore(old(data), data, sector * SECTOR, buf, at, at + SECTOR, ok);
          data := Patch(data, (sector + i) * SECTOR, buf[at..at + SECTOR]);
        } else {
          WrittenSkip(old(data), data, sector * SECTOR, buf, at, at + SECTOR);
        }
        i, at := i + 1, at + SECTOR;
      }
      WrittenAll(old(data), data, sector * SECTOR, buf, ok);
    }

    /** Every byte of the range can be read. */
    ghost predicate Readable(off: nat, count: nat) {
      forall k: nat :: Touches(k, off, count) ==> CanRead(k)
    }

    /** Every byte of the range can be written; sectors touched in part must be read first. */
    ghost predicate Writable(off: nat, count: nat) {
      forall k: nat :: Touches(k, off, count) ==>
        CanWrite(k) && (k * SECTOR < off || off + count < (k + 1) * SECTOR ==> CanRead(k))
    }

    lemma ReadableSplit(off: nat, a: nat, b: nat)
      ensures Readable(off, a + b) <==> Readable(off, a) && Readable(off + a, b)
    {
      if Readable(off, a) && Readable(off + a, b) {
        forall k: nat | Touches(k, off, a + b) ensures CanRead(k) {
          var hint := Touches(k, off, a) || Touches(k, off + a, b);
        }
      }
      if Readable(off, a + b) {
        forall k: nat | Touches(k, off, a) || Touches(k, off + a, b) ensures CanRead(k) {
          var hint := Touches(k, off, a + b);
        }
      }
    }

    lemma WritableSplit(off: nat, a: nat, b: nat)
      requires (off + a) % SECTOR == 0
      ensures Writable(off, a + b) <==> Writable(off, a) && Writable(off + a, b)
    {
      if Writable(off, a) && Writable(off + a, b) {
        forall k: nat | Touches(k, off, a + b)
          ensures CanWrite(k) && (k * SECTOR < off || off + a + b < (k + 1) * SECTOR ==> CanRead(k))
        {
          var hint := Touches(k, off, a) || Touches(k, off + a, b);
        }
      }
      if Writable(off, a + b) {
        forall k: nat | Touches(k, off, a)
          ensures CanWrite(k) && (k * SECTOR < off || off + a < (k + 1) * SECTOR ==> CanRead(k))
        {
          var hint := Touches(k, off, a + b);
        }
        forall k: nat | Touches(k, off + a, b)
          ensures CanWrite(k) && (k * SECTOR < off + a || off + a + b < (k + 1) * SECTOR ==> CanRead(k))
        {
          var hint := Touches(k, off, a + b);
        }
      }
    }

    lemma PartOfSector(sector: nat, o: nat, n: nat)
      requires o + n <= SECTOR && n > 0
      ensures Readable(sector * SECTOR + o, n) <==> CanRead(sector)
      ensures n < SECTOR ==> (Writable(sector * SECTOR + o, n) <==> CanRead(sector) && CanWrite(sector))
    {
      assert Touches(sector, sector * SECTOR + o, n);
      var off := sector * SECTOR + o;
      assert forall k: nat :: Touches(k, off, n) ==> k == sector;
    }

    lemma WholeSectors(sector: nat, n: nat)
      ensures Readable(sector * SECTOR, n * SECTOR) <==> CanReadAll(sector, n)
      ensures Writable(sector * SECTOR, n * SECTOR) <==> CanWriteAll(sector, n)
    {
      assert forall k: nat :: Touches(k, sector * SECTOR, n * SECTOR) <==> sector <= k < sector + n;
    }

    lemma ReadableFits(off: nat, n: nat)
      requires Readable(off, n) && n > 0
      ensures off + n <= length
    {
      assert Touches((off + n - 1) / SECTOR, off, n);
    }

    /** Read n bytes from o on in one sector. */
    method ReadPart(sector: nat, o: nat, n: nat) returns (r: Option<seq<Byte>>)
      requires o + n <= SECTOR && n > 0 && Valid()
      ensures r.Some? <==> Readable(sector * SECTOR + o, n)
      ensures r.Some? ==> Slice(r.value, sector * SECTOR + o, n)
    {
      var tmp := Read(sector, 1);
      PartOfSector(sector, o, n);
      assert CanReadAll(sector, 1) <==> CanRead(sector);
      if tmp == None {
        return None;
      }
      return Some(tmp.value[o..o + n]);
    }

    ghost predicate Slice(r: seq<Byte>, off: nat, n: nat)
      reads this
    {
      |r| == n && (n > 0 ==> off + n <= |data| && r == data[off..off + n])
    }

    lemma SliceJoin(x: seq<Byte>, y: seq<Byte>, off: nat, n: nat, m: nat)
      requires Slice(x, off, n) && Slice(y, off + n, m)
      ensures Slice(x + y, off, n + m)
    {}

    lemma NoBytes(off: nat)
      ensures Readable(off, 0) && Writable(off, 0) && Slice([], off, 0)
    {}

    /** Whole sectors. */
    method ReadWhole(sector: nat, n: nat) returns (r: Option<seq<Byte>>)
      requires n > 0 && Valid()
      ensures r.Some? <==> Readable(sector * SECTOR, n * SECTOR)
      ensures r.Some? ==> Slice(r.value, sector * SECTOR, n * SECTOR)
    {
      hide Readable, CanReadAll;
      r := Read(sector, n);
      WholeSectors(sector, n);
    }

    /** bdrv_pread from a sector boundary on: whole sectors in place, then part of the last. */
    method PreadAligned(first: nat, total: nat) returns (r: Option<seq<Byte>>)
      requires Valid()
      ensures r.Some? <==> Readable(first * SECTOR, total)
      ensures r.Some? ==> Slice(r.value, first * SECTOR, total)
    {
      hide Readable, Slice;
      var sector: nat, count: nat, buf: seq<Byte> := first, total, [];
      var n: nat := count / SECTOR;
      ReadableSplit(first * SECTOR, n * SECTOR, count - n * SECTOR);
      NoBytes(first * SECTOR);
      if n > 0 {
        var tmp := ReadWhole(sector, n);
        if tmp == None {
          return None;
        }
        assert buf + tmp.value == tmp.value;
        buf := buf + tmp.value;
        sector := sector + n;
        count := count - n * SECTOR;
      }
      NoBytes(sector * SECTOR);
      if count > 0 {
        var tmp := ReadPart(sector, 0, count);
        if tmp == None {
          return None;
        }
        SliceJoin(buf, tmp.value, first * SECTOR, n * SECTOR, count);
        buf := buf + tmp.value;
      }
      return Some(buf);
    }

    /** bdrv_pread returns exactly the flat bytes, and fails only when one of their sectors does. */
    method Pread(offset: nat, count1: nat) returns (r: Option<seq<Byte>>)
      requires Valid()
      ensures r.Some? <==> Readable(offset, count1)
      ensures r.Some? ==> Slice(r.value, offset, count1)
    {
      hide Readable, CanReadAll, Slice;
      var len: nat := (SECTOR - offset) % SECTOR;
      if len > count1 {
        len := count1;
      }
      var sector: nat, count: nat, buf: seq<Byte> := offset / SECTOR, count1, [];
      NoBytes(offset);
      if len > 0 {
        ReadableSplit(offset, len, count - len);
        var tmp := ReadPart(sector, offset % SECTOR, len);
        if tmp == None {
          return None;
        }
        buf := tmp.value;
        count := count - len;
        if count == 0 {
          NoBytes(offset + len);
          return Some(buf);
        }
        sector := sector + 1;
      }
      if count == 0 {
        return Some(buf);
      }
      r := PreadAligned(sector, count);
      if r.Some? {
        SliceJoin(buf, r.value, offset, len, count);
        r := Some(buf + r.value);
      }
    }

    /** Read one sector, change it from o on, and write it back. */
    method ReadModifyWrite(sector: nat, o: nat, d: seq<Byte>) returns (ok: bool)
      requires o + |d| <= SECTOR && 0 < |d| < SECTOR
      requires Valid()
      modifies this`data
      ensures Valid()
      ensures ok <==> Writable(sector * SECTOR + o, |d|)
      ensures ok ==> data == Patch(old(data), sector * SECTOR + o, d)
      ensures !ok ==> Partly(old(data), data, sector * SECTOR + o, d)
    {
      hide Writable, Readable, Patch, Partly;
      PartlyNone(data, sector * SECTOR + o, d);
      var tmp := Read(sector, 1);
      PartOfSector(sector, o, |d|);
      assert CanReadAll(sector, 1) <==> CanRead(sector);
      if tmp == None {
        return false;
      }
      assert CanWriteAll(sector, 1) <==> CanWrite(sector);
      PatchSlice(data, sector * SECTOR, SECTOR, o, d);
      ok := Write(sector, 1, Patch(tmp.value, o, d));
      if !ok {
        PartlySlice(old(data), data, sector * SECTOR, SECTOR, o, d);
      }
    }

    /** bdrv_pwritev from a sector boundary on: whole sectors in place, then part of the last. */
    method PwritevAligned(first: nat, d: seq<Byte>) returns (ok: bool)
      requires Valid()
      modifies this`data
      ensures Valid()
      ensures ok <==> Writable(first * SECTOR, |d|)
      ensures ok ==> data == Patch(old(data), first * SECTOR, d)
      ensures !ok ==> Partly(old(data), data, first * SECTOR, d)
    {
      hide Writable, Readable, Patch, Partly;
      var sector: nat, count: nat := first, |d|;
      var n: nat := count / SECTOR;
      var whole, part := d[..n * SECTOR], d[n * SECTOR..];
      assert d == whole + part;
      WritableSplit(first * SECTOR, |whole|, |part|);
      NoBytes(first * SECTOR);
      PatchNone(data, first * SECTOR);
      if n > 0 {
        WholeSectors(sector, n);
        ok := Write(sector, n, whole);
        if !ok {
          PartlyShorter(old(data), data, first * SECTOR, whole, part);
          return;
        }
        sector := sector + n;
        count := count - n * SECTOR;
      }
      ok := LastPart(old(data), first, whole, part);
    }

    /** The partial last sector, after the whole ones. */
    method LastPart(ghost s: seq<Byte>, first: nat, whole: seq<Byte>, part: seq<Byte>) returns (ok: bool)
      requires |whole| % SECTOR == 0 && |part| < SECTOR
      requires data == Patch(s, first * SECTOR, whole)
      requires Valid()
      modifies this`data
      ensures Valid()
      ensures ok <==> Writable(first * SECTOR + |whole|, |part|)
      ensures ok ==> data == Patch(s, first * SECTOR, whole + part)
      ensures !ok ==> Partly(s, data, first * SECTOR, whole + part)
    {
      hide Writable, Patch, Partly;
      PatchAdjacent(s, first * SECTOR, whole, part);
      if |part| > 0 {
        ok := ReadModifyWrite(first + |whole| / SECTOR, 0, part);
        if !ok {
          PartlyLater(s, data, first * SECTOR, whole, part);
        }
      } else {
        NoBytes(first * SECTOR + |whole|);
        assert whole + part == whole;
        return true;
      }
    }

    /** bdrv_pwritev: exactly the bytes [offset, offset + |d|) change, to d. It succeeds exactly when
        the sectors allow it; a failing write changes no other byte, and none to anything but d. */
    method Pwritev(offset: nat, d: seq<Byte>) returns (ok: bool)
      requires Valid()
      modifies this`data
      ensures Valid()
      ensures ok <==> Writable(offset, |d|)
      ensures ok ==> data == Patch(old(data), offset, d)
      ensures !ok ==> Partly(old(data), data, offset, d)
    {
      hide Writable, Readable, Patch, Partly;
      var len: nat := (SECTOR - offset) % SECTOR;
      if len > |d| {
        len := |d|;
      }
      var sector: nat := offset / SECTOR;
      var head, rest := d[..len], d[len..];
      assert d == head + rest;
      NoBytes(offset);
      NoBytes(sector * SECTOR);
      PatchNone(data, offset);
      PatchNone(data, sector * SECTOR);
      if len > 0 {
        ok := ReadModifyWrite(sector, offset % SECTOR, head);
        if rest == [] {
          assert d == head;
          return;
        }
        WritableSplit(offset, len, |rest|);
        if !ok {
          PartlyShorter(old(data), data, offset, head, rest);
          return;
        }
        sector := sector + 1;
      }
      if rest == [] {
        assert d == head;
        PatchNone(data, sector * SECTOR);
        PatchNone(data, offset);
      } else {
        WritableSplit(offset, len, |rest|);
        PatchAdjacent(old(data), offset, head, rest);
      }
      ok := PwritevAligned(sector, rest);
      if !ok {
        PartlyLater(old(data), data, offset, head, rest);
      }
    }

    /** What was written is read back, and every other range reads as before. */
    method WriteThenRead(offset: nat, d: seq<Byte>, i: nat, n: nat) returns (back: Option<seq<Byte>>, other: Option<seq<Byte>>)
      requires Valid() && Writable(offset, |d|) && Readable(offset, |d|) && Readable(i, n)
      requires i + n <= offset || offset + |d| <= i
      modifies this`data
      ensures back == Some(d)
      ensures other.Some? && old(Slice(other.value, i, n))
    {
      hide Writable, Readable;
      ghost var was := data;
      var ok := Pwritev(offset, d);
      if d != [] {
        ReadableFits(offset, |d|);
        PatchRead(was, offset, d);
      }
      if n > 0 {
        ReadableFits(i, n);
        PatchBeside(was, offset, d, i, i + n);
      }
      back := Pread(offset, |d|);
      other := Pread(i, n);
    }
  }
}
