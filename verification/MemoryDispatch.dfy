/**
  The dispatch table of an address space: a list of sections, a page map over section numbers and,
  for pages shared by several sections, a sub-page table over byte offsets.

  mem_add cuts a section into sub-page and whole-page pieces and registers each. The result is
  proved to be the flat map from addresses to (region, offset) given by the sections added.
 */
module MemoryDispatches {
  import opened Common
  import opened PhysPageMaps


  /** Memory regions: the four built-in ones, the container of a sub-page, and all others. */
  datatype Region = UnassignedMem | NotDirtyMem | RomMem | WatchMem | SubpageMem(table: nat) | Guest(id: nat)

  datatype Section = Section(mr: Region, addr: nat, offset: nat, size: nat) {
    predicate Contains(a: nat) { addr <= a < addr + size }

    /** Where address a lands: region and offset inside it. */
    function Target(a: nat): (Region, int) { (mr, offset + a - addr) }

    /** This section is part of s, mapping its addresses to the same offsets. */
    ghost predicate PieceOf(s: Section) {
      mr == s.mr && s.addr <= addr && addr + size <= s.addr + s.size && offset - addr == s.offset - s.addr
    }
  }

  /** subpage_register: entries start..end of a sub-page table get the section number. */
  method SubpageRegister(t0: seq<nat>, start: nat, end: int, section: nat) returns (ok: bool, t: seq<nat>)
    requires |t0| == PAGE
    ensures ok <==> start < PAGE && 0 <= end < PAGE
    ensures !ok ==> t == t0
    ensures |t| == PAGE
    ensures ok ==> forall j :: 0 <= j < PAGE ==> t[j] == if start <= j <= end then section else t0[j]
  {
    t := t0;
    if start >= PAGE || end >= PAGE || end < 0 {
      return false, t;
    }
    var idx := start;
    while idx <= end
      invariant start <= idx <= Max(start, end + 1) && |t| == PAGE
      invariant forall j :: 0 <= j < PAGE ==> t[j] == if start <= j < idx then section else t0[j]
    {
      t := t[idx := section];
      idx := idx + 1;
    }
    ok := true;
  }

  class Dispatch {
    const pages: PhysPageMap
    var sections: seq<Section>
    var tables: seq<seq<nat>>     // sub_section of each sub-page
    var bases: seq<nat>           // base of each sub-page

    /** First address past the address space. */
    ghost function Limit(): nat
      reads this
    {
      PAGE * Span(pages.levels)
    }

    ghost predicate Piece(s: nat)
      reads this
    {
      4 <= s < |sections| && sections[s].mr.Guest?
    }

    ghost predicate TableOk(i: nat)
      reads this
    {
      && i < |tables| == |bases|
      && |tables[i]| == PAGE
      && forall j :: 0 <= j < PAGE && tables[i][j] != UNASSIGNED ==>
           Piece(tables[i][j]) && sections[tables[i][j]].Contains(bases[i] + j)
    }

    /** A page is unassigned, wholly inside one piece, or has a sub-page of its own. */
    ghost predicate PageOk(p: nat)
      reads this, pages
    {
      var s := pages.PageSection(p);
      || s == UNASSIGNED
      || (Piece(s) && sections[s].addr <= PAGE * p && PAGE * p + PAGE <= sections[s].addr + sections[s].size)
      || (&& s < |sections| && sections[s].mr.SubpageMem?
          && TableOk(sections[s].mr.table) && bases[sections[s].mr.table] == PAGE * p)
    }

    ghost predicate Shaped()
      reads this, pages
    {
      && pages.Valid()
      && 4 <= |sections| <= PAGE && sections[0].mr == UnassignedMem
      && |tables| == |bases|
      && (forall i :: 0 <= i < |tables| ==> TableOk(i))
      && (forall p :: 0 <= p < Span(pages.levels) ==> PageOk(p))
    }

    /** If the page has a sub-page, some address of the page is assigned. */
    ghost predicate InUse(p: nat)
      reads this, pages
    {
      var s := pages.PageSection(p);
      s < |sections| && sections[s].mr.SubpageMem? ==> exists a :: a / PAGE == p && Lookup(a) != UNASSIGNED
    }

    ghost predicate Valid()
      reads this, pages
    {
      Shaped() && forall p :: 0 <= p < Span(pages.levels) ==> InUse(p)
    }

    /** address_space_lookup_region with sub-pages resolved: the section number of an address. */
    ghost function Lookup(a: nat): nat
      reads this, pages
    {
      var s := pages.PageSection(a / PAGE);
      if s < |sections| && sections[s].mr.SubpageMem? && sections[s].mr.table < |tables|
         && |tables[sections[s].mr.table]| == PAGE
      then tables[sections[s].mr.table][a % PAGE] else s
    }

    /** The section numbers of all addresses of the space. */
    ghost function Lookups(): (lk: seq<nat>)
      reads this, pages
      ensures |lk| == Limit() && forall a :: 0 <= a < |lk| ==> lk[a] == Lookup(a)
    {
      seq(Limit(), a reads this, pages => if a >= 0 then Lookup(a) else 0)
    }

    /** The flat map. */
    ghost function Translate(a: nat): Option<(Region, int)>
      reads this, pages
    {
      TargetOf(sections, Lookup(a), a)
    }

    /** Every assigned address is inside the piece it is looked up to. */
    lemma LookupInside(a: nat)
      requires Valid() && a < Limit() && Lookup(a) != UNASSIGNED
      ensures Piece(Lookup(a)) && sections[Lookup(a)].Contains(a)
    {
      assert PageOk(a / PAGE);
    }

    /** mem_begin */
    constructor (levels: nat)
      requires levels >= 1
      ensures Valid() && fresh(pages) && pages.levels == levels && pages.nodesNb == 0 && |sections| == 4
      ensures forall a :: 0 <= a < Limit() ==> Lookup(a) == UNASSIGNED
    {
      pages := new PhysPageMap(levels);
      sections := [Section(UnassignedMem, 0, 0, 0x1_0000_0000_0000_0000),
                   Section(NotDirtyMem, 0, 0, 0x1_0000_0000_0000_0000),
                   Section(RomMem, 0, 0, 0x1_0000_0000_0000_0000),
                   Section(WatchMem, 0, 0, 0x1_0000_0000_0000_0000)];
      tables, bases := [], [];
    }

    /** address_space_lookup_region */
    method LookupRegion(a: nat, resolveSubpage: bool) returns (s: nat)
      requires Valid() && a < Limit()
      ensures s == if resolveSubpage then Lookup(a) else pages.PageSection(a / PAGE)
      ensures s < |sections|
    {
      assert PageOk(a / PAGE);
      s := pages.PageFind(a / PAGE);
      if resolveSubpage && sections[s].mr.SubpageMem? {
        s := tables[sections[s].mr.table][a % PAGE];
      }
    }

    /** Pages whose section and addresses are as before are in use as before. */
    twostate lemma KeepInUse(q: nat)
      requires old(Shaped()) && q < Span(pages.levels) && pages.PageSection(q) == old(pages.PageSection(q))
      requires old(sections) <= sections
      requires forall a :: a / PAGE == q ==> Lookup(a) == old(Lookup(a))
      ensures InUse(q) == old(InUse(q))
    {
      assert old(PageOk(q));
      if old(InUse(q)) && sections[pages.PageSection(q)].mr.SubpageMem? {
        var a :| a / PAGE == q && old(Lookup(a)) != UNASSIGNED;
        assert Lookup(a) != UNASSIGNED;
      }
    }

    /** Growing the lists keeps every lookup on a page that keeps its section. */
    twostate lemma KeepLookup(a: nat)
      requires old(Shaped()) && a < Limit()
      requires pages.PageSection(a / PAGE) == old(pages.PageSection(a / PAGE))
      requires old(sections) <= sections && old(tables) <= tables
      ensures Lookup(a) == old(Lookup(a))
    {
      assert old(PageOk(a / PAGE));
    }

    twostate lemma KeepShape(q: nat)
      requires old(Shaped()) && q < Span(pages.levels) && pages.PageSection(q) == old(pages.PageSection(q))
      requires old(sections) <= sections && old(tables) <= tables && old(bases) <= bases && |tables| == |bases|
      ensures PageOk(q)
    {
      assert old(PageOk(q));
      var s := pages.PageSection(q);
      if s != UNASSIGNED && sections[s].mr.SubpageMem? {
        KeepTable(sections[s].mr.table);
      }
    }

    twostate lemma KeepTable(i: nat)
      requires i < old(|tables|) && old(TableOk(i))
      requires old(sections) <= sections && old(tables) <= tables && old(bases) <= bases && |tables| == |bases|
      ensures TableOk(i)
    {}

    /** The source aborts: no section number is left, and k of them would have been enough, or no node
        number, and m of them would have been enough. */
    ghost predicate OutOf(sections0: nat, k: nat, nodes0: nat, m: nat)
      reads this, pages
    {
      |sections| == PAGE < sections0 + k || pages.nodesNb == NODE_NIL < nodes0 + m
    }

    /** phys_section_add. Like all that follows, it stops where the source aborts. */
    method SectionAdd(sec: Section) returns (ok: bool, n: nat)
      requires Shaped()
      modifies this`sections
      ensures ok <==> old(|sections|) < PAGE
      ensures !ok ==> sections == old(sections) && |sections| == PAGE
      ensures ok ==> Shaped() && n == old(|sections|) && sections == old(sections) + [sec]
      ensures ok ==> forall a :: 0 <= a < Limit() ==> Lookup(a) == old(Lookup(a))
      ensures ok ==> forall p :: 0 <= p < Span(pages.levels) ==> InUse(p) == old(InUse(p))
    {
      hide PageOk, InUse, Find;
      n := |sections|;
      ok := n < PAGE;
      if !ok {
        return;
      }
      sections := sections + [sec];
      forall i | 0 <= i < |tables| ensures TableOk(i) { KeepTable(i); }
      forall p | 0 <= p < Span(pages.levels) ensures PageOk(p) { KeepShape(p); }
      forall a | 0 <= a < Limit() ensures Lookup(a) == old(Lookup(a)) { KeepLookup(a); }
      forall p | 0 <= p < Span(pages.levels) ensures InUse(p) == old(InUse(p)) { KeepInUse(p); }
    }

    /** First half of register_subpage: give an unassigned page a sub-page with every entry unassigned. */
    method CreateSubpage(p: nat) returns (ok: bool, i: nat)
      requires Shaped() && p < Span(pages.levels) && pages.PageSection(p) == UNASSIGNED
      modifies this`sections, this`tables, this`bases, pages
      ensures !ok ==> OutOf(old(|sections|), 1, old(pages.nodesNb), 2 * pages.levels - 1)
      ensures ok ==> Shaped() && old(sections) <= sections && |sections| == old(|sections|) + 1
      ensures ok ==> old(pages.nodesNb) <= pages.nodesNb <= old(pages.nodesNb) + 2 * pages.levels - 1
      ensures ok ==> var s := pages.PageSection(p); s < |sections| && sections[s].mr == SubpageMem(i)
      ensures ok ==> forall a :: 0 <= a < Limit() ==> Lookup(a) == old(Lookup(a))
      ensures ok ==> forall q :: 0 <= q < Span(pages.levels) && q != p ==> InUse(q) == old(InUse(q))
    {
      hide InUse, Find;
      i := |tables|;
      var zero: seq<nat> := seq(PAGE, _ => UNASSIGNED);
      var _, t := SubpageRegister(zero, 0, PAGE - 1, UNASSIGNED);
      var s := |sections|;
      ok := s < PAGE;
      if !ok {
        return;
      }
      sections := sections + [Section(SubpageMem(i), PAGE * p, 0, PAGE)];
      tables, bases := tables + [t], bases + [PAGE * p];
      ok := pages.PageSet(p, 1, s);
      if !ok {
        return;
      }
      forall i | 0 <= i < |tables| ensures TableOk(i) { if i < |tables| - 1 { KeepTable(i); } }
      forall q | 0 <= q < Span(pages.levels) ensures PageOk(q) { if q != p { KeepShape(q); } }
      forall a | 0 <= a < Limit() ensures Lookup(a) == old(Lookup(a)) { if a / PAGE != p { KeepLookup(a); } }
      forall q | 0 <= q < Span(pages.levels) && q != p ensures InUse(q) == old(InUse(q)) { KeepInUse(q); }
    }

    /** All addresses of the section are unassigned. */
    ghost predicate Free(sec: Section)
      reads this, pages
    {
      sec.addr + sec.size <= Limit() && forall a :: sec.Contains(a) ==> Lookup(a) == UNASSIGNED
    }

    /** register_subpage: a piece inside one page. */
    method RegisterSubpage(sec: Section) returns (ok: bool, n: nat)
      requires Valid() && Free(sec) && sec.mr.Guest? && sec.size > 0 && sec.addr % PAGE + sec.size <= PAGE
      modifies this`sections, this`tables, this`bases, pages
      ensures !ok ==> OutOf(old(|sections|), 2, old(pages.nodesNb), 2 * pages.levels - 1)
      ensures ok ==> Valid() && old(sections) <= sections && |sections| <= old(|sections|) + 2
      ensures ok ==> old(pages.nodesNb) <= pages.nodesNb <= old(pages.nodesNb) + 2 * pages.levels - 1
      ensures ok ==> old(|sections|) <= n < |sections| && sections[n] == sec
      ensures ok ==> forall a :: 0 <= a < Limit() ==> Lookup(a) == if sec.Contains(a) then n else old(Lookup(a))
    {
      var p := sec.addr / PAGE;
      assert PageOk(p);
      assert Lookup(sec.addr) == UNASSIGNED;
      var existing := pages.PageFind(p);
      var i: nat;
      if sections[existing].mr.SubpageMem? {
        i := sections[existing].mr.table;
      } else {
        ok, i := CreateSubpage(p);
        if !ok {
          return ok, 0;
        }
      }
      ok, n := FillSubpage(i, p, sec);
    }

    /** Second half of register_subpage: add the piece and enter it in the sub-page table. */
    method FillSubpage(i: nat, p: nat, sec: Section) returns (ok: bool, n: nat)
      requires Shaped() && p < Span(pages.levels)
      requires forall q :: 0 <= q < Span(pages.levels) && q != p ==> InUse(q)
      requires var s := pages.PageSection(p); s < |sections| && sections[s].mr == SubpageMem(i)
      requires sec.mr.Guest? && sec.size > 0 && sec.addr / PAGE == p && sec.addr % PAGE + sec.size <= PAGE
      modifies this`sections, this`tables
      ensures !ok ==> |sections| == old(|sections|) == PAGE
      ensures ok ==> Valid() && n == old(|sections|) && sections == old(sections) + [sec]
      ensures ok ==> forall a :: 0 <= a < Limit() ==> Lookup(a) == if sec.Contains(a) then n else old(Lookup(a))
    {
      hide Find;
      assert PageOk(p);
      var start := sec.addr % PAGE;
      ok, n := SectionAdd(sec);
      if !ok {
        return;
      }
      assert PageOk(p) && TableOk(i);
      label Added:
      var _, t := SubpageRegister(tables[i], start, start + sec.size - 1, n);
      tables := tables[i := t];
      forall k | 0 <= k < |tables| ensures TableOk(k) { assert old@Added(TableOk(k)); }
      forall q | 0 <= q < Span(pages.levels) ensures PageOk(q) { assert old@Added(PageOk(q)); }
      forall a | 0 <= a < Limit() ensures Lookup(a) == if sec.Contains(a) then n else old(Lookup(a)) {
        assert old@Added(PageOk(a / PAGE));
      }
      forall q | 0 <= q < Span(pages.levels) ensures InUse(q) {
        if q == p {
          assert Lookup(sec.addr) == n;
        } else {
          forall a | a / PAGE == q ensures Lookup(a) == old(Lookup(a)) { }
          KeepInUse(q);
        }
      }
    }

    /** register_multipage: a piece of whole pages. */
    method RegisterMultipage(sec: Section) returns (ok: bool, n: nat)
      requires Valid() && Free(sec) && sec.mr.Guest? && sec.size > 0 && sec.addr % PAGE == 0 && sec.size % PAGE == 0
      modifies this`sections, pages
      ensures !ok ==> OutOf(old(|sections|), 1, old(pages.nodesNb), 2 * pages.levels - 1)
      ensures ok ==> Valid() && n == old(|sections|) && sections == old(sections) + [sec]
      ensures ok ==> old(pages.nodesNb) <= pages.nodesNb <= old(pages.nodesNb) + 2 * pages.levels - 1
      ensures ok ==> forall a :: 0 <= a < Limit() ==> Lookup(a) == if sec.Contains(a) then n else old(Lookup(a))
    {
      hide Find;
      ok, n := SectionAdd(sec);
      if !ok {
        return;
      }
      label Added:
      var first, num := sec.addr / PAGE, sec.size / PAGE;
      forall p | first <= p < first + num ensures pages.PageSection(p) == UNASSIGNED {
        WholeFree(sec, p);
      }
      ok := pages.PageSet(first, num, n);
      if !ok {
        return;
      }
      forall q | 0 <= q < Span(pages.levels) ensures PageOk(q) { assert old@Added(PageOk(q)); }
      forall a | 0 <= a < Limit() ensures Lookup(a) == if sec.Contains(a) then n else old(Lookup(a)) {
        assert old@Added(PageOk(a / PAGE));
      }
      forall q | 0 <= q < Span(pages.levels) ensures InUse(q) {
        if !(first <= q < first + num) {
          forall a | a / PAGE == q ensures Lookup(a) == old(Lookup(a)) { }
          KeepInUse(q);
        }
      }
    }

    /** A page with no assigned address has no sub-page: its entry is unassigned. */
    lemma WholeFree(sec: Section, p: nat)
      requires Valid() && p < Span(pages.levels)
      requires forall a :: sec.Contains(a) ==> Lookup(a) == UNASSIGNED
      requires sec.addr <= PAGE * p && PAGE * p + PAGE <= sec.addr + sec.size
      ensures pages.PageSection(p) == UNASSIGNED
    {
      assert PageOk(p) && InUse(p);
      assert Lookup(PAGE * p) == UNASSIGNED;
    }

    /** mem_add: cut the section into a head inside one page, whole pages, and a tail. */
    method MemAdd(section: Section) returns (ok: bool)
      requires Valid() && Free(section) && section.mr.Guest? && section.size > 0
      modifies this`sections, this`tables, this`bases, pages
      ensures !ok ==> OutOf(old(|sections|), 5, old(pages.nodesNb), 3 * (2 * pages.levels - 1))
      ensures ok ==> Valid() && old(sections) <= sections && |sections| <= old(|sections|) + 5
      ensures ok ==> old(pages.nodesNb) <= pages.nodesNb <= old(pages.nodesNb) + 3 * (2 * pages.levels - 1)
      ensures ok ==> Placed(old(Lookups()), Lookups(), sections, section, section.addr + section.size)
    {
      assert pages.levels >= 1;
      ghost var lk0 := Lookups();
      assert forall a: nat :: section.Contains(a) ==> lk0[a] == UNASSIGNED;
      hide Find, Valid, Shaped, PageOk, InUse, Lookup, Lookups, Limit, Placed, Free;
      var now: Section;
      ok, now := RegisterHead(section);
      if ok {
        ok := RegisterRest(section, now, lk0);
      }
    }

    /** The loop of mem_add, after `now0` bytes of the section were registered. */
    method RegisterRest(section: Section, now0: Section, ghost lk0: seq<nat>) returns (ok: bool)
      requires Valid() && section.mr.Guest? && now0.size <= section.size
      requires now0.size < section.size ==> (section.addr + now0.size) % PAGE == 0
      requires Placed(lk0, Lookups(), sections, section, section.addr + now0.size)
      requires section.addr + section.size <= |lk0| && forall a: nat :: section.Contains(a) ==> lk0[a] == UNASSIGNED
      modifies this`sections, this`tables, this`bases, pages
      ensures !ok ==> OutOf(old(|sections|), 3, old(pages.nodesNb), 2 * (2 * pages.levels - 1))
      ensures ok ==> Valid() && old(sections) <= sections && |sections| <= old(|sections|) + 3
      ensures ok ==> old(pages.nodesNb) <= pages.nodesNb <= old(pages.nodesNb) + 2 * (2 * pages.levels - 1)
      ensures ok ==> Placed(lk0, Lookups(), sections, section, section.addr + section.size)
    {
      assert pages.levels >= 1;
      hide Find, Valid, Shaped, PageOk, InUse, Lookup, Lookups, Limit, Placed, Free;
      var now, remain := now0, section;
      ghost var c := 2 * pages.levels - 1;
      while remain.size != now.size
        invariant Valid() && old(sections) <= sections
        invariant remain.PieceOf(section) && remain.addr + remain.size == section.addr + section.size
        invariant now.size <= remain.size
        invariant Placed(lk0, Lookups(), sections, section, remain.addr + now.size)
        invariant now.size < remain.size ==> (remain.addr + now.size) % PAGE == 0
        invariant |sections| <= old(|sections|) + PiecesBefore(remain.size - now.size)
        invariant old(pages.nodesNb) <= pages.nodesNb <= old(pages.nodesNb) + NodesBefore(remain.size - now.size, c)
        decreases remain.size - now.size
      {
        remain := Section(remain.mr, remain.addr + now.size, remain.offset + now.size, remain.size - now.size);
        CutStep(remain.addr, remain.size, c);
        hide PiecesBefore, NodesBefore;
        ok, now := RegisterNext(section, remain, lk0);
        if !ok {
          return;
        }
      }
      ok := true;
    }

    /** The start of mem_add: register the part of the section before the first page boundary. */
    method RegisterHead(section: Section) returns (ok: bool, now: Section)
      requires Valid() && Free(section) && section.mr.Guest? && section.size > 0
      modifies this`sections, this`tables, this`bases, pages
      ensures !ok ==> OutOf(old(|sections|), 2, old(pages.nodesNb), 2 * pages.levels - 1)
      ensures ok ==> Valid() && old(sections) <= sections && |sections| <= old(|sections|) + 2
      ensures ok ==> old(pages.nodesNb) <= pages.nodesNb <= old(pages.nodesNb) + 2 * pages.levels - 1
      ensures ok ==> now.size <= section.size && (now.size < section.size ==> (section.addr + now.size) % PAGE == 0)
      ensures ok ==> Placed(old(Lookups()), Lookups(), sections, section, section.addr + now.size)
    {
      assert pages.levels >= 1 && 4 <= |sections|;
      ghost var lk0 := Lookups();
      PlacedStart(lk0, sections, section);
      hide Find, Shaped, PageOk, InUse, Lookup, Placed;
      ok, now := true, section;
      if now.addr % PAGE != 0 {
        var left := PAGE - now.addr % PAGE;
        now := now.(size := Min(left, now.size));
        var n: nat;
        ok, n := RegisterSubpage(now);
        if !ok {
          return;
        }
        PlacedStep(lk0, lk0, Lookups(), old(sections), sections, section, section.addr, now, n);
      } else {
        now := now.(size := 0);
      }
    }

    /** The body of the loop of mem_add: register the next piece of what remains. */
    method RegisterNext(ghost section: Section, remain: Section, ghost lk0: seq<nat>) returns (ok: bool, now: Section)
      requires Valid() && section.mr.Guest? && remain.PieceOf(section) && remain.size > 0 && remain.addr % PAGE == 0
      requires Placed(lk0, Lookups(), sections, section, remain.addr)
      requires section.addr + section.size <= |lk0| && forall a: nat :: section.Contains(a) ==> lk0[a] == UNASSIGNED
      modifies this`sections, this`tables, this`bases, pages
      ensures !ok ==> OutOf(old(|sections|), if remain.size < PAGE then 2 else 1, old(pages.nodesNb), 2 * pages.levels - 1)
      ensures ok ==> Valid() && old(sections) <= sections && |sections| <= old(|sections|) + if remain.size < PAGE then 2 else 1
      ensures ok ==> old(pages.nodesNb) <= pages.nodesNb <= old(pages.nodesNb) + 2 * pages.levels - 1
      ensures ok ==> now == remain.(size := if remain.size < PAGE then remain.size else remain.size - remain.size % PAGE)
      ensures ok ==> Placed(lk0, Lookups(), sections, section, remain.addr + now.size)
    {
      assert 4 <= |sections|;
      hide Find, Shaped, PageOk, InUse, Lookup;
      ghost var lk1 := Lookups();
      now := remain;
      assert Free(now) by {
        assert forall a: nat :: now.Contains(a) ==> lk1[a] == Lookup(a);
      }
      var n: nat;
      if remain.size < PAGE {
        ok, n := RegisterSubpage(now);
        if !ok {
          return;
        }
        PlacedStep(lk0, lk1, Lookups(), old(sections), sections, section, remain.addr, now, n);
      } else if remain.addr % PAGE != 0 {
        assert false;
      } else {
        now := now.(size := now.size - now.size % PAGE);
        ok, n := RegisterMultipage(now);
        if !ok {
          return;
        }
        PlacedStep(lk0, lk1, Lookups(), old(sections), sections, section, remain.addr, now, n);
      }
    }
  }

  /** Sections the loop of mem_add adds before `rest` bytes remain: one for whole pages, two for the tail. */
  function PiecesBefore(rest: nat): nat { if rest == 0 then 3 else if rest < PAGE then 1 else 0 }

  /** Nodes it allocates before `rest` bytes remain, at most c for each page-map write. */
  function NodesBefore(rest: nat, c: int): int { if rest == 0 then c + c else if rest < PAGE then c else 0 }

  ghost function TargetOf(sections: seq<Section>, s: nat, a: nat): Option<(Region, int)> {
    if s == UNASSIGNED || s >= |sections| then None else Some(sections[s].Target(a))
  }

  /** Section numbers lk resolve the addresses of the section below `cut` to pieces of it, and all
      other addresses as lk0 does. */
  ghost predicate Placed(lk0: seq<nat>, lk: seq<nat>, sections: seq<Section>, section: Section, cut: int) {
    && |lk| == |lk0|
    && forall a :: 0 <= a < |lk| ==>
         if section.addr <= a < cut
         then 4 <= lk[a] < |sections| && sections[lk[a]].PieceOf(section) && sections[lk[a]].Contains(a)
         else lk[a] == lk0[a]
  }

  lemma PlacedStart(lk: seq<nat>, sections: seq<Section>, section: Section)
    ensures Placed(lk, lk, sections, section, section.addr)
  {}

  /** After whole pages less than a page remains, and the budgets cover the next piece. */
  lemma CutStep(addr: nat, size: nat, c: nat)
    requires addr % PAGE == 0 && size > 0
    ensures var now := if size < PAGE then size else size - size % PAGE;
            && now <= size && (addr + now < addr + size ==> (addr + now) % PAGE == 0)
            && PiecesBefore(size) + (if size < PAGE then 2 else 1) <= PiecesBefore(size - now) <= 3
            && PiecesBefore(size) <= 1
            && NodesBefore(size, c) + c <= NodesBefore(size - now, c) <= 2 * c
  {}

  /** Registering the next piece as number n moves the cut to its end. */
  lemma PlacedStep(lk0: seq<nat>, lk1: seq<nat>, lk2: seq<nat>, sections1: seq<Section>, sections2: seq<Section>,
                   section: Section, cut: int, piece: Section, n: nat)
    requires Placed(lk0, lk1, sections1, section, cut) && section.addr <= cut
    requires 4 <= n < |sections2| && sections1 <= sections2 && sections2[n] == piece
    requires piece.PieceOf(section) && piece.addr == cut
    requires |lk2| == |lk1| && forall a :: 0 <= a < |lk1| ==> lk2[a] == if piece.Contains(a) then n else lk1[a]
    ensures Placed(lk0, lk2, sections2, section, cut + piece.size)
  {}

  /** The flat map of a list of sections. */
  ghost function FlatMap(secs: seq<Section>, a: nat): Option<(Region, int)> {
    if secs == [] then None
    else if secs[|secs| - 1].Contains(a) then Some(secs[|secs| - 1].Target(a))
    else FlatMap(secs[..|secs| - 1], a)
  }

  ghost predicate Disjoint(secs: seq<Section>) {
    forall i, j :: 0 <= i < j < |secs| ==>
      secs[i].addr + secs[i].size <= secs[j].addr || secs[j].addr + secs[j].size <= secs[i].addr
  }

  lemma {:induction false} FlatMapSome(secs: seq<Section>, a: nat, k: nat)
    requires Disjoint(secs) && k < |secs| && secs[k].Contains(a)
    ensures FlatMap(secs, a) == Some(secs[k].Target(a))
  {
    if k < |secs| - 1 {
      FlatMapSome(secs[..|secs| - 1], a, k);
    }
  }

  lemma {:induction false} FlatMapNone(secs: seq<Section>, a: nat)
    ensures FlatMap(secs, a) == None <==> forall k :: 0 <= k < |secs| ==> !secs[k].Contains(a)
  {
    if secs != [] {
      FlatMapNone(secs[..|secs| - 1], a);
    }
  }

  lemma FlatStep(secs: seq<Section>, k: nat, lk0: seq<nat>, sections0: seq<Section>, lk: seq<nat>, sections: seq<Section>)
    requires k < |secs| && sections0 <= sections
    requires Placed(lk0, lk, sections, secs[k], secs[k].addr + secs[k].size)
    requires forall a :: 0 <= a < |lk0| ==> TargetOf(sections0, lk0[a], a) == FlatMap(secs[..k], a) && lk0[a] < |sections0|
    ensures forall a :: 0 <= a < |lk| ==> TargetOf(sections, lk[a], a) == FlatMap(secs[..k + 1], a)
  {
    assert secs[..k + 1][..k] == secs[..k];
  }

  /** One update of an address space: mem_begin, then mem_add of every section. It stops only where the source
      aborts, with all section numbers or all node numbers in use. */
  method Rebuild(levels: nat, secs: seq<Section>) returns (ok: bool, d: Dispatch)
    requires levels >= 1 && Disjoint(secs)
    requires forall i :: 0 <= i < |secs| ==>
               secs[i].mr.Guest? && secs[i].size > 0 && secs[i].addr + secs[i].size <= PAGE * Span(levels)
    ensures !ok ==> d.OutOf(4, 5 * |secs|, 0, |secs| * (3 * (2 * levels - 1)))
    ensures ok ==> d.Valid() && d.pages.levels == levels
    ensures ok ==> forall a :: 0 <= a < PAGE * Span(levels) ==> d.Translate(a) == FlatMap(secs, a)
  {
    d := new Dispatch(levels);
    ghost var c := 3 * (2 * levels - 1);
    var k := 0;
    while k < |secs|
      invariant 0 <= k <= |secs|
      invariant d.Valid() && d.pages.levels == levels && fresh(d) && fresh(d.pages)
      invariant |d.sections| <= 4 + 5 * k && d.pages.nodesNb <= k * c
      invariant forall a :: 0 <= a < PAGE * Span(levels) ==> d.Translate(a) == FlatMap(secs[..k], a)
    {
      hide Find, Dispatch.Shaped, Dispatch.PageOk, Dispatch.InUse, Dispatch.Lookup;
      forall a | secs[k].Contains(a) ensures d.Lookup(a) == UNASSIGNED {
        FlatMapNone(secs[..k], a);
        if d.Lookup(a) != UNASSIGNED { d.LookupInside(a); }
      }
      assert (k + 1) * c == k * c + c;
      MulMono(k + 1, |secs|, c);
      ghost var lk, sections := d.Lookups(), d.sections;
      forall a | 0 <= a < |lk| ensures TargetOf(sections, lk[a], a) == FlatMap(secs[..k], a) && lk[a] < |sections| {
        assert d.Translate(a) == FlatMap(secs[..k], a);
        if d.Lookup(a) != UNASSIGNED { d.LookupInside(a); }
      }
      ok := d.MemAdd(secs[k]);
      if !ok {
        return;
      }
      FlatStep(secs, k, lk, sections, d.Lookups(), d.sections);
      forall a | 0 <= a < PAGE * Span(levels) ensures d.Translate(a) == FlatMap(secs[..k + 1], a) {
        assert d.Lookups()[a] == d.Lookup(a);
      }
      k := k + 1;
    }
    assert secs[..k] == secs;
    ok := true;
  }
}
