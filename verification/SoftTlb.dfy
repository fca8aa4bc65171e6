/**
  The software TLB: a direct-mapped table per MMU mode that only holds small pages, with one
  power-of-two flush window standing in for all large pages inserted since the last full flush.
 */
module SoftTlb {
  import opened Common

  const WORD_BITS := 64
  const PAGE_BITS := 12        // TARGET_PAGE_BITS
  const INVALID_BIT := 3       // TLB_INVALID_MASK
  const TLB_SIZE := 256        // CPU_TLB_SIZE
  const NO_ADDR: nat := WORD - 1    // (target_ulong)-1

  // ----- Power-of-two blocks of addresses -----

  /** x >> k: the number of the block of 2^k addresses that holds x. */
  function Shr(x: nat, k: nat): nat {
    if k == 0 then x else Shr(x, k - 1) / 2
  }

  /** x & mask, where mask has its k lowest bits clear: the first address of the block of x. */
  function Align(x: nat, k: nat): nat {
    Shr(x, k) * Pow2(k)
  }

  /** Shifting divides by a power of two. */
  lemma {:induction false} ShrIs(x: nat, k: nat)
    ensures Shr(x, k) == x / Pow2(k)
  {
    if k > 0 {
      ShrIs(x, k - 1);
      HalfQuotient(x, Pow2(k - 1));
    }
  }

  /** Masking rounds down to a multiple of it. */
  lemma AlignIs(x: nat, k: nat)
    ensures Align(x, k) == x - x % Pow2(k)
  {
    hide Shr, Pow2;
    ShrIs(x, k);
    QuotientTimes(x, Pow2(k));
  }

  lemma QuotientTimes(x: nat, p: nat)
    requires p > 0
    ensures x / p * p == x - x % p
  {}

  lemma HalfQuotient(x: nat, p: nat)
    requires p > 0
    ensures x / p / 2 == x / (2 * p)
  {
    var q := x / p;
    var h := q / 2;
    assert x == q * p + x % p && (q + 1) * p == q * p + p;
    DoubleProduct(h, p);
    MulMono(2 * h, q, p);
    MulMono(q + 1, 2 * h + 2, p);
    assert (2 * h + 2) * p == (2 * h) * p + 2 * p;
    DivIs(x, 2 * p, h);
  }

  /** The page of an address, and its bit in the place of TLB_INVALID_MASK. */
  lemma PageOf(x: nat)
    ensures Shr(x, PAGE_BITS) == x / PAGE && Shr(x, INVALID_BIT) == x / 8
  {
    ShrIs(x, PAGE_BITS);
    ShrIs(x, INVALID_BIT);
    assert Pow2(6) == 64;
  }

  lemma {:induction false} ShrMono(x: nat, y: nat, j: nat, k: nat)
    requires j <= k && Shr(x, j) == Shr(y, j)
    ensures Shr(x, k) == Shr(y, k)
  {
    if j < k {
      ShrMono(x, y, j, k - 1);
    }
  }

  lemma {:induction false} ShrBound(x: nat, k: nat, n: nat)
    requires x < Pow2(n) && k <= n
    ensures Shr(x, k) < Pow2(n - k)
  {
    if k > 0 {
      ShrBound(x, k - 1, n);
    }
  }

  lemma WordBits()
    ensures Pow2(WORD_BITS) == WORD
  {
    assert Pow2(8) == 0x100;
    assert Pow2(16) == 0x1_0000;
    assert Pow2(24) == 0x100_0000;
    assert Pow2(32) == 0x1_0000_0000;
    assert Pow2(40) == 0x100_0000_0000;
    assert Pow2(48) == 0x1_0000_0000_0000;
    assert Pow2(56) == 0x100_0000_0000_0000;
  }

  /** There is one block of 2^64 addresses. */
  lemma ShrWord(x: nat)
    requires x < WORD
    ensures Shr(x, WORD_BITS) == 0
  {
    WordBits();
    ShrBound(x, WORD_BITS, WORD_BITS);
  }

  lemma {:induction false} ShrMul(y: nat, k: nat, n: nat)
    requires n >= k
    ensures Shr(y * Pow2(n), k) == y * Pow2(n - k)
  {
    if k > 0 {
      ShrMul(y, k - 1, n);
      DoubleProduct(y, Pow2(n - k));
    }
  }

  /** The first address of a block is in the block. */
  lemma AlignInBlock(x: nat, k: nat)
    ensures Shr(Align(x, k), k) == Shr(x, k)
  {
    ShrMul(Shr(x, k), k, k);
  }

  lemma {:induction false} ShrTimes(x: nat, k: nat)
    ensures Shr(x, k) * Pow2(k) <= x
  {
    if k > 0 {
      ShrTimes(x, k - 1);
      var s, p := Shr(x, k - 1), Pow2(k - 1);
      var h := s / 2;
      DoubleProduct(h, p);
      MulMono(2 * h, s, p);
    }
  }

  /** x is in the block that starts at a, when a starts a block. */
  lemma SameBlock(x: nat, a: nat, k: nat)
    requires a == Align(a, k)
    ensures Align(x, k) == a <==> Shr(x, k) == Shr(a, k)
  {
    if Align(x, k) == a {
      AlignInBlock(x, k);
    }
  }

  lemma AlignEven(x: nat, k: nat)
    requires k > 0
    ensures Align(x, k) % 2 == 0
  {
    assert Align(x, k) == 2 * (Shr(x, k) * Pow2(k - 1));
  }

  lemma AlignBound(x: nat, k: nat)
    ensures Align(x, k) <= x && Align(Align(x, k), k) == Align(x, k)
  {
    ShrTimes(x, k);
    AlignInBlock(x, k);
  }

  // ----- Entries -----

  /** An address field: none (-1), or a page number with TLB_INVALID_MASK and other flag bits below it. */
  datatype Field = Empty | At(page: nat, invalid: bool, flags: nat) {
    predicate Usable() { At? && !invalid }
    /** The comparison of tlb_flush_entry keeps the invalid bit, as that of a lookup does. */
    predicate Matches(page: nat) { Usable() && this.page == page }
  }

  datatype Entry = Entry(read: Field, write: Field, code: Field) {
    /** Some access can hit the entry. */
    predicate Live() { read.Usable() || write.Usable() || code.Usable() }
    /** tlb_flush_entry compares all three fields. */
    predicate Matches(page: nat) { read.Matches(page) || write.Matches(page) || code.Matches(page) }
    ghost predicate OnlyAt(page: nat) {
      (read.At? ==> read.page == page) && (write.At? ==> write.page == page) && (code.At? ==> code.page == page)
    }
  }

  const EMPTY_ENTRY := Entry(Empty, Empty, Empty)

  /** The guest page an entry was made from: 2^bits addresses around vaddr. */
  datatype Source = Source(vaddr: nat, bits: nat) {
    ghost predicate Holds(x: nat) { Shr(x, bits) == Shr(vaddr, bits) }
  }

  /** Where the entry for a page goes. */
  function IndexOf(page: nat): nat { page % TLB_SIZE }

  class Tlb {
    const table: array2<Entry>       // by MMU mode and index
    var flushAddr: nat               // tlb_flush_addr
    var flushBits: nat               // tlb_flush_mask has this many low bits clear; all 64 for a zero mask
    ghost var source: map<(int, int), Source>
    ghost var large: set<Source>     // large pages inserted since the last full flush

    ghost predicate WindowOk()
      reads this
    {
      && flushBits <= WORD_BITS
      && (if flushAddr == NO_ADDR then flushBits == WORD_BITS
          else flushAddr < WORD && flushAddr == Align(flushAddr, flushBits) && flushBits > PAGE_BITS)
      && forall s :: s in large ==> InWindow(s)
    }

    /** The whole page s is inside the flush window. */
    ghost predicate InWindow(s: Source)
      reads this
    {
      flushAddr != NO_ADDR && s.bits <= flushBits && Shr(s.vaddr, flushBits) == Shr(flushAddr, flushBits)
    }

    ghost predicate EntryOk(m: int, i: int)
      reads this, table
      requires 0 <= m < table.Length0 && 0 <= i < table.Length1
    {
      table[m, i].Live() ==>
        && (m, i) in source
        && var s := source[(m, i)];
           && table[m, i].OnlyAt(Shr(s.vaddr, PAGE_BITS)) && i == IndexOf(Shr(s.vaddr, PAGE_BITS))
           && (s.bits == PAGE_BITS || s in large)
    }

    ghost predicate Valid()
      reads this, table
    {
      && table.Length1 == TLB_SIZE && WindowOk()
      && forall m, i :: 0 <= m < table.Length0 && 0 <= i < TLB_SIZE ==> EntryOk(m, i)
    }

    constructor (modes: nat)
      ensures Valid() && fresh(table) && table.Length0 == modes && large == {}
      ensures forall m, i :: 0 <= m < modes && 0 <= i < TLB_SIZE ==> !table[m, i].Live()
    {
      table := new Entry[modes, TLB_SIZE]((m, i) => EMPTY_ENTRY);
      flushAddr, flushBits := NO_ADDR, WORD_BITS;
      source, large := map[], {};
    }

    /** tlb_flush */
    method Flush()
      requires table.Length1 == TLB_SIZE
      modifies this, table
      ensures Valid() && large == {} && flushAddr == NO_ADDR && source == old(source)
      ensures forall m, i :: 0 <= m < table.Length0 && 0 <= i < TLB_SIZE ==> !table[m, i].Live()
    {
      var i := 0;
      while i < TLB_SIZE
        invariant 0 <= i <= TLB_SIZE && source == old(source)
        invariant forall m, j :: 0 <= m < table.Length0 && 0 <= j < i ==> table[m, j] == EMPTY_ENTRY
      {
        var m := 0;
        while m < table.Length0
          invariant 0 <= m <= table.Length0 && source == old(source)
          invariant forall n, j :: 0 <= n < table.Length0 && 0 <= j < i ==> table[n, j] == EMPTY_ENTRY
          invariant forall n :: 0 <= n < m ==> table[n, i] == EMPTY_ENTRY
        {
          table[m, i] := EMPTY_ENTRY;
          m := m + 1;
        }
        i := i + 1;
      }
      flushAddr, flushBits := NO_ADDR, WORD_BITS;
      large := {};
    }

    /** tlb_flush_page: no entry made from a page, small or large, that holds addr remains. */
    method FlushPage(addr: nat)
      requires Valid() && addr < WORD
      modifies this, table
      ensures Valid() && source == old(source)
      ensures large == old(large) || (large == {} && forall m, i :: 0 <= m < table.Length0 && 0 <= i < TLB_SIZE ==> !table[m, i].Live())
      ensures forall m, i :: 0 <= m < table.Length0 && 0 <= i < TLB_SIZE && table[m, i].Live() ==>
                (m, i) in source && !source[(m, i)].Holds(addr) && table[m, i] == old(table[m, i])
      ensures !old(WindowHolds(addr)) ==>
                && flushAddr == old(flushAddr) && flushBits == old(flushBits) && large == old(large)
                && forall m, i :: 0 <= m < table.Length0 && 0 <= i < TLB_SIZE && !old(table[m, i]).Matches(Shr(addr, PAGE_BITS)) ==>
                     table[m, i] == old(table[m, i])
    {
      if Align(addr, flushBits) == flushAddr {
        Flush();
        return;
      }
      FlushEntries(Shr(addr, PAGE_BITS));
      forall n, j | 0 <= n < table.Length0 && 0 <= j < TLB_SIZE
        ensures EntryOk(n, j) && (table[n, j].Live() ==> !source[(n, j)].Holds(addr))
      {
        assert old(EntryOk(n, j));
        if table[n, j].Live() {
          NotHeld(n, j, addr);
        }
      }
    }

    /** tlb_flush_entry for the page, in every mode. */
    method FlushEntries(page: nat)
      requires table.Length1 == TLB_SIZE
      modifies table
      ensures forall n, j :: 0 <= n < table.Length0 && 0 <= j < TLB_SIZE ==>
                table[n, j] == if j == IndexOf(page) && old(table[n, j]).Matches(page) then EMPTY_ENTRY else old(table[n, j])
    {
      var i := IndexOf(page);
      var m := 0;
      while m < table.Length0
        invariant 0 <= m <= table.Length0
        invariant forall n, j :: 0 <= n < table.Length0 && 0 <= j < TLB_SIZE ==>
                    table[n, j] == if n < m && j == i && old(table[n, j]).Matches(page) then EMPTY_ENTRY else old(table[n, j])
      {
        if table[m, i].Matches(page) {
          table[m, i] := EMPTY_ENTRY;
        }
        m := m + 1;
      }
    }

    /** The window test of tlb_flush_page. */
    ghost predicate WindowHolds(addr: nat)
      reads this
    {
      Align(addr, flushBits) == flushAddr
    }

    /** A page whose window test fails holds no address of any large page. */
    lemma WindowMiss(addr: nat, s: Source)
      requires WindowOk() && addr < WORD && !WindowHolds(addr) && s in large
      ensures !s.Holds(addr)
    {
      if s.Holds(addr) {
        ShrMono(addr, s.vaddr, s.bits, flushBits);
        SameBlock(addr, flushAddr, flushBits);
      }
    }

    lemma NotHeld(m: int, i: int, addr: nat)
      requires 0 <= m < table.Length0 && 0 <= i < table.Length1 && EntryOk(m, i) && table[m, i].Live()
      requires WindowOk() && addr < WORD && !WindowHolds(addr)
      requires i == IndexOf(Shr(addr, PAGE_BITS)) ==> !table[m, i].Matches(Shr(addr, PAGE_BITS))
      ensures !source[(m, i)].Holds(addr)
    {
      var s := source[(m, i)];
      if s in large {
        WindowMiss(addr, s);
      }
    }

    /** tlb_add_large_page */
    method AddLargePage(vaddr: nat, bits: nat)
      requires WindowOk() && vaddr < WORD && PAGE_BITS < bits < WORD_BITS
      modifies this`flushAddr, this`flushBits, this`large
      ensures WindowOk() && large == old(large) + {Source(vaddr, bits)}
      ensures old(flushAddr) == NO_ADDR ==> flushBits == bits && flushAddr == Align(vaddr, bits)
      // the smallest block that holds the old window and the page
      ensures old(flushAddr) != NO_ADDR ==>
                && flushBits >= Max(bits, old(flushBits)) && flushAddr == Align(vaddr, flushBits) == Align(old(flushAddr), flushBits)
                && forall j :: Max(bits, old(flushBits)) <= j < flushBits ==> Shr(old(flushAddr), j) != Shr(vaddr, j)
    {
      var k := bits;
      ghost var s := Source(vaddr, bits);
      if flushAddr == NO_ADDR {
        flushAddr, flushBits := Align(vaddr, k), k;
        AlignBound(vaddr, k);
        AlignEven(vaddr, k);
        AlignInBlock(vaddr, k);
        large := large + {s};
        return;
      }
      k := Max(k, flushBits);
      ShrWord(flushAddr);
      ShrWord(vaddr);
      while Shr(flushAddr, k) != Shr(vaddr, k)
        invariant Max(bits, flushBits) <= k <= WORD_BITS
        invariant forall j :: Max(bits, flushBits) <= j < k ==> Shr(flushAddr, j) != Shr(vaddr, j)
        decreases WORD_BITS - k
      {
        k := k + 1;
      }
      forall t | t in large ensures Shr(t.vaddr, k) == Shr(flushAddr, k) {
        ShrMono(t.vaddr, flushAddr, flushBits, k);
      }
      AlignBound(flushAddr, k);
      AlignEven(flushAddr, k);
      AlignInBlock(flushAddr, k);
      flushAddr, flushBits := Align(flushAddr, k), k;
      large := large + {s};
    }

    /** tlb_set_page, as far as it places the entry: the fields allowed by the protection get the page. */
    method SetPage(vaddr: nat, bits: nat, mode: nat, read: Option<nat>, write: Option<nat>, code: Option<nat>)
      requires Valid() && vaddr < WORD && PAGE_BITS <= bits < WORD_BITS && mode < table.Length0
      modifies this, table
      ensures Valid()
      ensures large == old(large) + if bits == PAGE_BITS then {} else {Source(vaddr, bits)}
      ensures var at := vaddr / PAGE % TLB_SIZE;
              && Shows(table[mode, at].read, vaddr, read) && Shows(table[mode, at].write, vaddr, write)
              && Shows(table[mode, at].code, vaddr, code) && source == old(source)[(mode, at) := Source(vaddr, bits)]
              && forall m, i :: 0 <= m < table.Length0 && 0 <= i < TLB_SIZE && (m, i) != (mode, at) ==> table[m, i] == old(table[m, i])
    {
      PageOf(vaddr);
      if bits != PAGE_BITS {
        AddLargePage(vaddr, bits);
      }
      var page := Shr(vaddr, PAGE_BITS);
      var index := IndexOf(page);
      var low := Shr(vaddr, INVALID_BIT) % 2 == 1;
      table[mode, index] := Entry(if read.Some? then At(page, low, read.value) else Empty,
                                  if write.Some? then At(page, low, write.value) else Empty,
                                  if code.Some? then At(page, low, code.value) else Empty);
      source := source[(mode, index) := Source(vaddr, bits)];
      forall m, i | 0 <= m < table.Length0 && 0 <= i < TLB_SIZE ensures EntryOk(m, i) {
        assert old(EntryOk(m, i));
      }
    }
  }

  /** The field is that of an access to the page of vaddr with the given flag bits, or -1 when the access is not
      allowed. The low bits of vaddr stay in the field, so that one in the place of TLB_INVALID_MASK makes it
      useless. */
  ghost predicate Shows(f: Field, vaddr: nat, flags: Option<nat>) {
    && (f.At? <==> flags.Some?) && (f.Usable() <==> flags.Some? && vaddr / 8 % 2 == 0)
    && (flags.Some? ==> f.page == vaddr / PAGE && f.flags == flags.value)
  }

  // ----- Runs -----

  datatype Op = SetOp(vaddr: nat, bits: nat, mode: nat, read: Option<nat>, write: Option<nat>, code: Option<nat>)
              | FlushOp
              | FlushPageOp(addr: nat)
  {
    predicate Possible(modes: nat) {
      match this
      case SetOp(vaddr, bits, mode, _, _, _) => vaddr < WORD && PAGE_BITS <= bits < WORD_BITS && mode < modes
      case FlushOp => true
      case FlushPageOp(addr) => addr < WORD
    }

    /** The operation sets the entry (m, i). */
    predicate Sets(m: int, i: int) {
      SetOp? && mode == m && vaddr / PAGE % TLB_SIZE == i
    }

    /** The page that was set. */
    function Page(): Source
      requires SetOp?
    {
      Source(vaddr, bits)
    }

    /** Whether the operation takes entries made from the page away. */
    ghost predicate Removes(s: Source) {
      FlushOp? || (FlushPageOp? && s.Holds(addr))
    }
  }

  /** The operation that last set the entry (m, i). */
  ghost function LastSet(ops: seq<Op>, m: int, i: int): (r: Option<nat>)
    ensures r.Some? ==> r.value < |ops| && ops[r.value].Sets(m, i) && forall j :: r.value < j < |ops| ==> !ops[j].Sets(m, i)
    ensures r == None ==> forall j :: 0 <= j < |ops| ==> !ops[j].Sets(m, i)
  {
    if ops == [] then None
    else if ops[|ops| - 1].Sets(m, i) then Some(|ops| - 1)
    else LastSet(ops[..|ops| - 1], m, i)
  }

  /** A usable entry is that of the last operation that set it, and no operation since then removed the page. */
  ghost predicate Current(ops: seq<Op>, t: Tlb, m: int, i: int)
    reads t, t.table
    requires 0 <= m < t.table.Length0 && 0 <= i < t.table.Length1
  {
    t.table[m, i].Live() ==>
      var k, e := LastSet(ops, m, i), t.table[m, i];
      && k.Some? && (m, i) in t.source && t.source[(m, i)] == ops[k.value].Page()
      && Shows(e.read, ops[k.value].vaddr, ops[k.value].read) && Shows(e.write, ops[k.value].vaddr, ops[k.value].write)
      && Shows(e.code, ops[k.value].vaddr, ops[k.value].code)
      && forall j :: k.value < j < |ops| ==> !ops[j].Removes(ops[k.value].Page())
  }

  ghost predicate AllCurrent(ops: seq<Op>, t: Tlb)
    reads t, t.table
  {
    t.table.Length1 == TLB_SIZE && forall m, i :: 0 <= m < t.table.Length0 && 0 <= i < TLB_SIZE ==> Current(ops, t, m, i)
  }

  /** Every large page set from operation `from` on is inside the window. Operation from - 1 flushed
      everything: no usable entry is older. */
  ghost predicate WindowSince(ops: seq<Op>, t: Tlb, from: nat)
    reads t, t.table
    requires t.table.Length1 == TLB_SIZE
  {
    && from <= |ops| && (from > 0 ==> !ops[from - 1].SetOp?)
    && (forall j :: from <= j < |ops| && ops[j].SetOp? && ops[j].bits != PAGE_BITS ==> ops[j].Page() in t.large && t.InWindow(ops[j].Page()))
    && forall m, i :: 0 <= m < t.table.Length0 && 0 <= i < TLB_SIZE && t.table[m, i].Live() ==> LastAtLeast(ops, m, i, from)
  }

  ghost predicate LastAtLeast(ops: seq<Op>, m: int, i: int, from: nat) {
    LastSet(ops, m, i).Some? && LastSet(ops, m, i).value >= from
  }

  lemma LastSnoc(ops: seq<Op>, op: Op, m: int, i: int)
    ensures LastSet(ops + [op], m, i) == if op.Sets(m, i) then Some(|ops|) else LastSet(ops, m, i)
  {
    assert (ops + [op])[..|ops|] == ops;
  }

  /** Any run of the three operations. Whatever entry can hit was set by the last operation on its place, and
      its page, small or large, holds no address flushed since; the window holds every large page set since
      everything was flushed. */
  method Run(modes: nat, ops: seq<Op>) returns (t: Tlb, ghost from: nat)
    requires forall i :: 0 <= i < |ops| ==> ops[i].Possible(modes)
    ensures t.Valid() && t.table.Length0 == modes && AllCurrent(ops, t) && WindowSince(ops, t, from)
  {
    hide Shr;
    t := new Tlb(modes);
    from := 0;
    for k := 0 to |ops|
      invariant t.Valid() && t.table.Length0 == modes && fresh(t) && fresh(t.table)
      invariant AllCurrent(ops[..k], t) && WindowSince(ops[..k], t, from)
    {
      from := Step(t, ops[..k], ops[k], from);
      assert ops[..k] + [ops[k]] == ops[..k + 1];
    }
    assert ops[..|ops|] == ops;
  }

  /** One operation, after the operations in ops. */
  method Step(t: Tlb, ghost ops: seq<Op>, op: Op, ghost from0: nat) returns (ghost from: nat)
    requires t.Valid() && op.Possible(t.table.Length0) && AllCurrent(ops, t) && WindowSince(ops, t, from0)
    modifies t, t.table
    ensures t.Valid() && AllCurrent(ops + [op], t) && WindowSince(ops + [op], t, from)
  {
    hide Shr;
    match op {
      case SetOp(vaddr, bits, mode, read, write, code) =>
        t.SetPage(vaddr, bits, mode, read, write, code);
        from := from0;
      case FlushOp =>
        t.Flush();
        from := |ops| + 1;
      case FlushPageOp(a) =>
        t.FlushPage(a);
        from := if t.large == old(t.large) then from0 else |ops| + 1;
    }
    forall m, i | 0 <= m < t.table.Length0 && 0 <= i < TLB_SIZE
      ensures Current(ops + [op], t, m, i) && (t.table[m, i].Live() ==> LastAtLeast(ops + [op], m, i, from))
    {
      LastSnoc(ops, op, m, i);
      assert old(Current(ops, t, m, i));
    }
  }
}
