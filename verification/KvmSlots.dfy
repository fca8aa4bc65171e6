/**
  The KVM memory slot table: a fixed array of slots that maps guest addresses to host RAM.

  kvm_set_phys_mem unregisters, splits and re-registers the slots that overlap a range. It is proved
  to override or erase exactly that range of the guest-to-host map.
 */
module KvmSlots {
  import opened Common

  const NUM_SLOTS := 32

  /** A slot is free when its size is zero. */
  datatype Slot = Slot(start: nat, size: nat, ram: int) {
    function End(): nat { start + size }
    predicate Live() { size != 0 }
    predicate Contains(a: nat) { start <= a < start + size }
    predicate Overlaps(lo: nat, hi: nat) { size != 0 && hi > start && lo < start + size }
    function HostOf(a: nat): int { ram + a - start }
  }

  ghost predicate Apart(x: Slot, y: Slot) {
    x.Live() && y.Live() ==> x.End() <= y.start || y.End() <= x.start
  }

  ghost predicate Disjoint(s: seq<Slot>) {
    && (forall i, j :: 0 <= i < j < |s| ==> Apart(s[i], s[j]))
    && (forall i :: 0 <= i < |s| && s[i].Live() ==> s[i].End() < WORD)
  }

  /** The guest-to-host map of a slot table. */
  ghost function HostAt(s: seq<Slot>, a: nat): Option<int> {
    if s == [] then None
    else if s[0].Contains(a) then Some(s[0].HostOf(a))
    else HostAt(s[1..], a)
  }

  lemma {:induction false} HostIs(s: seq<Slot>, i: nat, a: nat)
    requires Disjoint(s) && i < |s| && s[i].Contains(a)
    ensures HostAt(s, a) == Some(s[i].HostOf(a))
  {
    if i > 0 {
      assert Apart(s[0], s[i]);
      HostIs(s[1..], i - 1, a);
    }
  }

  lemma {:induction false} HostNone(s: seq<Slot>, a: nat)
    ensures HostAt(s, a) == None <==> forall i :: 0 <= i < |s| ==> !s[i].Contains(a)
  {
    if s != [] {
      HostNone(s[1..], a);
      assert forall i :: 1 <= i < |s| ==> s[i] == s[1..][i - 1];
    }
  }

  /** What the map says of an address: that of the one slot around it, at the same distance. */
  lemma HostMeans(s: seq<Slot>, a: nat, h: int)
    requires Disjoint(s)
    ensures HostAt(s, a) == Some(h) <==> exists i :: 0 <= i < |s| && s[i].start <= a < s[i].start + s[i].size && h - s[i].ram == a - s[i].start
  {
    hide HostAt, Disjoint;
    if HostAt(s, a) == None {
      HostNone(s, a);
    } else {
      HostNone(s, a);
      var i :| 0 <= i < |s| && s[i].Contains(a);
      HostIs(s, i, a);
      forall j | 0 <= j < |s| && s[j].Contains(a) ensures HostAt(s, a) == Some(s[j].HostOf(a)) {
        HostIs(s, j, a);
      }
    }
  }

  /** The host address of a after slot `was` became x, given what it was before. */
  ghost function HostAfter(x: Slot, was: Slot, before: Option<int>, a: nat): Option<int> {
    if x.Contains(a) then Some(x.HostOf(a)) else if was.Contains(a) then None else before
  }

  /** Replacing slot i by x changes the map only on the addresses of the two. */
  lemma {:induction false} HostUpdate(s: seq<Slot>, i: nat, x: Slot, a: nat)
    requires i < |s| && Disjoint(s) && Disjoint(s[i := x])
    ensures HostAt(s[i := x], a) == HostAfter(x, s[i], HostAt(s, a), a)
  {
    var t := s[i := x];
    if x.Contains(a) {
      HostIs(t, i, a);
    } else if s[i].Contains(a) {
      forall j | 0 <= j < |t| ensures !t[j].Contains(a) {
        if j < i { assert Apart(s[j], s[i]); } else if i < j { assert Apart(s[i], s[j]); }
      }
      HostNone(t, a);
    } else if j :| 0 <= j < |s| && s[j].Contains(a) {
      HostIs(s, j, a);
      HostIs(t, j, a);
    } else {
      HostNone(s, a);
      HostNone(t, a);
    }
  }

  // ----- Counting slots -----

  ghost function Count(s: seq<Slot>, p: Slot -> bool): (n: nat)
    ensures n <= |s|
  {
    if s == [] then 0 else (if p(s[0]) then 1 else 0) + Count(s[1..], p)
  }

  lemma {:induction false} CountUpdate(s: seq<Slot>, i: nat, x: Slot, p: Slot -> bool)
    requires i < |s|
    ensures Count(s[i := x], p) == Count(s, p) - (if p(s[i]) then 1 else 0) + (if p(x) then 1 else 0)
  {
    if i > 0 {
      assert s[i := x][1..] == s[1..][i - 1 := x];
      CountUpdate(s[1..], i - 1, x, p);
    } else {
      assert s[i := x][1..] == s[1..];
    }
  }

  lemma {:induction false} CountFull(s: seq<Slot>, p: Slot -> bool)
    ensures Count(s, p) == |s| <==> forall i :: 0 <= i < |s| ==> p(s[i])
    ensures Count(s, p) == 0 <==> forall i :: 0 <= i < |s| ==> !p(s[i])
  {
    if s != [] {
      CountFull(s[1..], p);
      assert forall i :: 1 <= i < |s| ==> s[i] == s[1..][i - 1];
    }
  }

  /** Live slots. */
  ghost function LiveCount(s: seq<Slot>): nat {
    Count(s, (x: Slot) => x.Live())
  }

  /** Slots that overlap [lo, hi). */
  ghost function OverlapCount(s: seq<Slot>, lo: nat, hi: nat): nat {
    Count(s, (x: Slot) => x.Overlaps(lo, hi))
  }

  // ----- Page trimming -----

  /** The range kvm_set_phys_mem works on, or None where it returns early. */
  function Trim(start: nat, size: nat): Option<(nat, nat)> {
    var delta := (PAGE - size % PAGE) % PAGE;
    if delta > size then None
    else
      var (start', size') := (start + delta, (size - delta) - (size - delta) % PAGE);
      if size' == 0 || start' % PAGE != 0 then None else Some((start', size'))
  }

  /** The whole pages inside [start, start + size), when there are any. */
  function WholePages(start: nat, size: nat): Option<(nat, nat)> {
    var lo, hi := (start + PAGE - 1) / PAGE * PAGE, (start + size) / PAGE * PAGE;
    if lo < hi then Some((lo, hi - lo)) else None
  }

  /** The pages first..end, when there are any. */
  function PageRange(first: nat, end: nat): Option<(nat, nat)> {
    if first < end then Some((PAGE * first, PAGE * (end - first))) else None
  }

  lemma WholePagesParts(q: nat, r: nat, n: nat, m: nat)
    requires r < PAGE && m < PAGE
    ensures WholePages(PAGE * q + r, PAGE * n + m) ==
              PageRange(if r == 0 then q else q + 1, if r + m < PAGE then q + n else q + n + 1)
  {
    assert (PAGE * q + r + PAGE - 1) / PAGE == if r == 0 then q else q + 1;
    assert (PAGE * q + r + (PAGE * n + m)) / PAGE == if r + m < PAGE then q + n else q + n + 1;
  }

  /** They are the pages p that lie in the range from their first byte to their last. */
  lemma WholePagesAre(start: nat, size: nat, p: nat)
    ensures start <= PAGE * p && PAGE * (p + 1) <= start + size <==>
              var w := WholePages(start, size); w.Some? && w.value.0 <= PAGE * p && PAGE * (p + 1) <= w.value.0 + w.value.1
    ensures var w := WholePages(start, size); w.Some? ==> w.value.0 % PAGE == 0 && w.value.1 % PAGE == 0
  {
    var q, r, t := start / PAGE, start % PAGE, (start + size) / PAGE;
    var lo := if r == 0 then q else q + 1;
    assert (start + PAGE - 1) / PAGE == lo by {
      DivIs(start + PAGE - 1, PAGE, lo);
    }
    assert start + size == t * PAGE + (start + size) % PAGE;
    DivIs(lo * PAGE, PAGE, lo);
    DivIs((t - lo) * PAGE, PAGE, t - lo);
  }

  lemma TrimParts(q: nat, r: nat, n: nat, m: nat)
    requires r < PAGE && m < PAGE
    ensures Trim(PAGE * q + r, PAGE * n + m) ==
              if r != m then None
              else PageRange(if r == 0 then q else q + 1, if r + m < PAGE then q + n else q + n + 1)
  {
    var start, size := PAGE * q + r, PAGE * n + m;
    var delta := if m == 0 then 0 else PAGE - m;
    assert size % PAGE == m;
    assert delta == (PAGE - size % PAGE) % PAGE;
    assert (start + delta) % PAGE == 0 <==> r == m;
    if delta <= size {
      var left := size - delta;
      assert left / PAGE == if m == 0 then n else if 2 * m < PAGE then n - 1 else n;
    }
  }

  /** The trimming keeps the whole pages of the range exactly when start and size agree modulo the
      page size; otherwise it drops them all. */
  lemma TrimIsWholePages(start: nat, size: nat)
    ensures Trim(start, size) == WholePages(start, size)
            <==> start % PAGE == size % PAGE || WholePages(start, size) == None
    ensures Trim(start, size).Some? ==> Trim(start, size) == WholePages(start, size)
  {
    hide Trim, WholePages, PageRange;
    WholePagesParts(start / PAGE, start % PAGE, size / PAGE, size % PAGE);
    TrimParts(start / PAGE, start % PAGE, size / PAGE, size % PAGE);
  }

  /** A range of one page and a half at a page boundary loses its whole page. */
  lemma TrimDropsAlignedStart()
    ensures WholePages(0, PAGE + PAGE / 2) == Some((0, PAGE)) && Trim(0, PAGE + PAGE / 2) == None
  {}

  /** The attributes of a memory region that matter here; host is where its RAM is mapped. */
  datatype Region = Region(isRam: bool, readonly: bool, romDevice: bool, romdMode: bool, host: int)

  datatype Section = Section(mr: Region, start: nat, offset: nat, size: nat)

  /** The map after [lo, hi) is pointed at host addresses (with a mapped to base + a) or erased. */
  ghost predicate Overridden(s: seq<Slot>, t: seq<Slot>, lo: nat, hi: nat, add: bool, base: int) {
    forall a :: 0 <= a ==>
      HostAt(t, a) == if lo <= a < hi then (if add then Some(base + a) else None) else HostAt(s, a)
  }

  /** t agrees with s outside [lo, hi), where it maps no more than s. */
  ghost predicate Cleared(s: seq<Slot>, t: seq<Slot>, lo: nat, hi: nat) {
    forall a :: 0 <= a ==> HostAt(t, a) == HostAt(s, a) || (lo <= a < hi && HostAt(t, a) == None)
  }

  /** Exactly the addresses of slot x inside [lo, hi) leave the map. */
  ghost predicate Erased(s: seq<Slot>, t: seq<Slot>, x: Slot, lo: nat, hi: nat) {
    forall a :: 0 <= a ==> HostAt(t, a) == if lo <= a < hi && x.Contains(a) then None else HostAt(s, a)
  }

  class KvmState {
    const slots: array<Slot>

    ghost predicate Valid()
      reads this, slots
    {
      slots.Length == NUM_SLOTS && Disjoint(slots[..])
    }

    constructor ()
      ensures Valid() && fresh(slots) && LiveCount(slots[..]) == 0
    {
      slots := new Slot[NUM_SLOTS](_ => Slot(0, 0, 0));
      new;
      CountFull(slots[..], (x: Slot) => x.Live());
    }

    /** kvm_alloc_slot: the first free slot. None where the source aborts, with every slot in use. */
    method AllocSlot() returns (r: Option<nat>)
      requires Valid()
      ensures r == None <==> LiveCount(slots[..]) == NUM_SLOTS
      ensures r.Some? ==> r.value < NUM_SLOTS && !slots[r.value].Live() && forall j :: 0 <= j < r.value ==> slots[j].Live()
    {
      var i := 0;
      CountFull(slots[..], (x: Slot) => x.Live());
      assert forall j :: 0 <= j < NUM_SLOTS ==> slots[j] == slots[..][j];
      while i < NUM_SLOTS
        invariant i <= NUM_SLOTS && forall j :: 0 <= j < i ==> slots[j].Live()
      {
        if slots[i].size == 0 {
          return Some(i);
        }
        i := i + 1;
      }
      return None;
    }

    /** kvm_lookup_overlapping_slot: an overlapping slot with the lowest start. */
    method LookupOverlapping(lo: nat, hi: nat) returns (r: Option<nat>)
      requires Valid()
      ensures r == None <==> forall j :: 0 <= j < NUM_SLOTS ==> !slots[j].Overlaps(lo, hi)
      ensures r.Some? ==> r.value < NUM_SLOTS && slots[r.value].Overlaps(lo, hi)
                          && forall j :: 0 <= j < NUM_SLOTS && slots[j].Overlaps(lo, hi) ==> slots[r.value].start <= slots[j].start
    {
      r := None;
      var i := 0;
      while i < NUM_SLOTS
        invariant 0 <= i <= NUM_SLOTS
        invariant r == None <==> forall j :: 0 <= j < i ==> !slots[j].Overlaps(lo, hi)
        invariant r.Some? ==> r.value < i && slots[r.value].Overlaps(lo, hi)
        invariant r.Some? ==> forall j :: 0 <= j < i && slots[j].Overlaps(lo, hi) ==> slots[r.value].start <= slots[j].start
      {
        var mem := slots[i];
        if mem.size == 0 || (r.Some? && slots[r.value].start < mem.start) {
        } else if hi > mem.start && lo < mem.start + mem.size {
          r := Some(i);
        }
        i := i + 1;
      }
    }

    /** Set slot i to x, where x is apart from all other slots. */
    method Write(i: nat, x: Slot)
      requires Valid() && i < NUM_SLOTS && (x.Live() ==> x.End() < WORD)
      requires forall j :: 0 <= j < NUM_SLOTS && j != i ==> Apart(x, slots[j])
      modifies slots
      ensures Valid() && slots[..] == old(slots[..])[i := x]
      ensures forall a :: 0 <= a ==>
                HostAt(slots[..], a) == HostAfter(x, old(slots[i]), old(HostAt(slots[..], a)), a)
      ensures LiveCount(slots[..]) == old(LiveCount(slots[..])) - (if old(slots[i]).Live() then 1 else 0) + (if x.Live() then 1 else 0)
      ensures forall lo, hi :: OverlapCount(slots[..], lo, hi) == old(OverlapCount(slots[..], lo, hi))
                - (if old(slots[i]).Overlaps(lo, hi) then 1 else 0) + (if x.Overlaps(lo, hi) then 1 else 0)
    {
      ghost var s := slots[..];
      slots[i] := x;
      assert slots[..] == s[i := x];
      forall a | 0 <= a ensures HostAt(slots[..], a) == HostAfter(x, s[i], HostAt(s, a), a) {
        HostUpdate(s, i, x, a);
      }
      CountUpdate(s, i, x, (y: Slot) => y.Live());
      forall lo, hi ensures OverlapCount(slots[..], lo, hi) == OverlapCount(s, lo, hi)
                - (if s[i].Overlaps(lo, hi) then 1 else 0) + (if x.Overlaps(lo, hi) then 1 else 0) {
        CountUpdate(s, i, x, (y: Slot) => y.Overlaps(lo, hi));
      }
    }

    /** Register a new slot in the first free place, if there is one. */
    method Register(x: Slot) returns (ok: bool)
      requires Valid() && x.Live() && x.End() < WORD
      requires forall j :: 0 <= j < NUM_SLOTS ==> Apart(x, slots[j])
      modifies slots
      ensures ok <==> old(LiveCount(slots[..])) < NUM_SLOTS
      ensures !ok ==> slots[..] == old(slots[..])
      ensures ok ==> Valid() && LiveCount(slots[..]) == old(LiveCount(slots[..])) + 1
      ensures ok ==> forall a :: 0 <= a ==>
                HostAt(slots[..], a) == if x.Contains(a) then Some(x.HostOf(a)) else old(HostAt(slots[..], a))
      ensures ok ==> forall lo, hi :: !x.Overlaps(lo, hi) ==> OverlapCount(slots[..], lo, hi) == old(OverlapCount(slots[..], lo, hi))
      ensures ok ==> forall j :: 0 <= j < NUM_SLOTS ==> slots[j] == old(slots[j]) || slots[j] == x
    {
      var i := AllocSlot();
      ok := i.Some?;
      if ok {
        Write(i.value, x);
        assert forall j :: 0 <= j < NUM_SLOTS ==> slots[j] == slots[..][j];
      }
    }

    /** One round of the loop of kvm_set_phys_mem: take out slot k and put back what lies outside [lo, hi).
        It stops where the source aborts: when the slot has to be split and every other one is in use. */
    method RemoveOverlap(k: nat, lo: nat, hi: nat) returns (ok: bool)
      requires Valid() && lo < hi && k < NUM_SLOTS && slots[k].Overlaps(lo, hi)
      modifies slots
      ensures !ok <==> old(LiveCount(slots[..])) == NUM_SLOTS && old(slots[k]).start < lo && hi < old(slots[k]).End()
      ensures !ok ==> LiveCount(slots[..]) == NUM_SLOTS
      ensures ok ==> Valid() && Erased(old(slots[..]), slots[..], old(slots[k]), lo, hi)
      ensures ok ==> OverlapCount(slots[..], lo, hi) == old(OverlapCount(slots[..], lo, hi)) - 1
      ensures ok ==> LiveCount(slots[..]) <= old(LiveCount(slots[..])) + 1
      ensures ok && LiveCount(slots[..]) == old(LiveCount(slots[..])) + 1 ==> OverlapCount(slots[..], lo, hi) == 0
    {
      hide HostAt, Count;
      var was := slots[k];
      if was.start < lo && was.End() > hi {
        OnlyOverlap(slots[..], k, lo, hi);
      }
      forall a | was.Contains(a) ensures HostAt(slots[..], a) == Some(was.HostOf(a)) {
        HostIs(slots[..], k, a);
      }
      assert forall j :: 0 <= j < NUM_SLOTS && j != k ==> Apart(was, slots[j]);
      LiveBound(slots[..]);
      Write(k, was.(size := 0));
      assert forall j :: 0 <= j < NUM_SLOTS ==> slots[j] == slots[..][j];
      ok := true;
      if was.start < lo {
        ok := Register(Slot(was.start, lo - was.start, was.ram));
      }
      if was.End() > hi {
        var delta := hi - was.start;
        ok := Register(Slot(hi, was.size - delta, was.ram + delta));
      }
    }

    /** kvm_set_phys_mem, without the workaround for kernels that cannot join slots. It stops only where the
        source aborts, with every slot in use; two free slots are enough to go on. */
    method SetPhysMem(section: Section, add0: bool, readonlyAllowed: bool) returns (ok: bool)
      requires Valid() && section.start + section.size < WORD
      modifies slots
      ensures !ok ==> LiveCount(slots[..]) == NUM_SLOTS < old(LiveCount(slots[..])) + if add0 then 2 else 1
      ensures ok ==> Valid() && LiveCount(slots[..]) <= old(LiveCount(slots[..])) + if add0 then 2 else 1
      // no whole page, memory that is neither RAM nor read-only, or read-only memory where that is not allowed
      ensures Trim(section.start, section.size) == None ==> ok && slots[..] == old(slots[..])
      ensures !section.mr.isRam && !section.mr.readonly && !section.mr.romDevice ==> ok && slots[..] == old(slots[..])
      ensures !section.mr.isRam && !readonlyAllowed ==> ok && slots[..] == old(slots[..])
      // RAM is mapped or erased as asked; read-only memory is mapped only in ROM mode
      ensures var range, base := Trim(section.start, section.size), section.mr.host + section.offset - section.start;
              ok && range.Some? && section.mr.isRam ==>
                Overridden(old(slots[..]), slots[..], range.value.0, range.value.0 + range.value.1, add0, base)
      ensures var range, base := Trim(section.start, section.size), section.mr.host + section.offset - section.start;
              ok && range.Some? && !section.mr.isRam && (section.mr.readonly || section.mr.romDevice) && readonlyAllowed ==>
                Overridden(old(slots[..]), slots[..], range.value.0, range.value.0 + range.value.1, add0 && section.mr.romdMode, base)
    {
      hide HostAt, Count;
      var start, size := section.start, section.size;
      var delta := (PAGE - size % PAGE) % PAGE;
      if delta > size {
        return true;
      }
      start := start + delta;
      size := size - delta;
      size := size - size % PAGE;
      if size == 0 || start % PAGE != 0 {
        return true;
      }
      var add := add0;
      if !section.mr.isRam {
        if (!section.mr.readonly && !section.mr.romDevice) || !readonlyAllowed {
          return true;
        } else if !section.mr.romdMode {
          add := false;
        }
      }
      var ram := section.mr.host + section.offset + delta;
      ok := SetRange(start, size, ram, add);
    }

    /** The rest of kvm_set_phys_mem: take out all overlapping slots, then register the new one. */
    method SetRange(start: nat, size: nat, ram: int, add: bool) returns (ok: bool)
      requires Valid() && size > 0 && start + size < WORD
      modifies slots
      ensures !ok ==> LiveCount(slots[..]) == NUM_SLOTS < old(LiveCount(slots[..])) + if add then 2 else 1
      ensures ok ==> Valid() && LiveCount(slots[..]) <= old(LiveCount(slots[..])) + if add then 2 else 1
      ensures ok ==> Overridden(old(slots[..]), slots[..], start, start + size, add, ram - start)
    {
      hide HostAt, Count;
      var hi := start + size;
      ghost var s0, live := slots[..], LiveCount(slots[..]);
      while true
        invariant Valid() && Cleared(s0, slots[..], start, hi)
        invariant LiveCount(slots[..]) <= live + 1
        invariant LiveCount(slots[..]) == live + 1 ==> OverlapCount(slots[..], start, hi) == 0
        decreases OverlapCount(slots[..], start, hi)
      {
        var found := LookupOverlapping(start, hi);
        if found == None {
          break;
        }
        var mem := slots[found.value];
        if add && start >= mem.start && hi <= mem.End() && ram - start == mem.ram - mem.start {
          forall a | start <= a < hi ensures HostAt(slots[..], a) == Some(ram - start + a) {
            HostIs(slots[..], found.value, a);
          }
          return true;
        }
        CountFull(slots[..], (x: Slot) => x.Overlaps(start, hi));
        ok := RemoveOverlap(found.value, start, hi);
        if !ok {
          return;
        }
      }
      forall a | start <= a < hi ensures HostAt(slots[..], a) == None {
        HostNone(slots[..], a);
      }
      ok := true;
      if add {
        LiveBound(slots[..]);
        ok := Register(Slot(start, size, ram));
      }
    }
  }

  lemma LiveBound(s: seq<Slot>)
    ensures LiveCount(s) <= |s|
  {}

  /** A slot that reaches out of [lo, hi) on both sides is the only one that overlaps it. */
  lemma OnlyOverlap(s: seq<Slot>, k: nat, lo: nat, hi: nat)
    requires Disjoint(s) && k < |s| && lo < hi && s[k].start < lo && hi < s[k].End()
    ensures OverlapCount(s, lo, hi) == 1
  {
    var p := (x: Slot) => x.Overlaps(lo, hi);
    var dead := s[k].(size := 0);
    CountUpdate(s, k, dead, p);
    var t := s[k := dead];
    forall j | 0 <= j < |t| ensures !p(t[j]) {
      if j < k { assert Apart(s[j], s[k]); } else if k < j { assert Apart(s[k], s[j]); }
    }
    CountFull(t, p);
  }
}
