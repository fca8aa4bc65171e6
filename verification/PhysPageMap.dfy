/**
  The multi-level physical page map: a radix tree of 1024-entry nodes kept in one table,
  written by ranges (phys_page_set) and read one page at a time (phys_page_find).

  The tree is proved to be a flat map from page number to section number.
 */
module PhysPageMaps {
  import opened Common

  const P_L2_SIZE := 1024
  const NODE_NIL := 0x7fff   // the 15-bit pointer value that means "no node"
  const UNASSIGNED := 0      // PHYS_SECTION_UNASSIGNED

  /** skip: the entry points to a node; otherwise it is a leaf holding a section number. */
  datatype Entry = Entry(skip: bool, ptr: nat)

  const EmptyEntry := Entry(true, NODE_NIL)

  type Node = n: seq<Entry> | |n| == P_L2_SIZE witness seq(P_L2_SIZE, _ => EmptyEntry)

  /** A pointer to an entry: the root entry, or one slot of a node of the table. */
  datatype EntryRef = Root | Slot(node: nat, k: nat)

  // ----- Arithmetic of the levels -----

  /** Number of pages below one entry that has `i` node levels under it. */
  function Span(i: nat): (s: nat)
    ensures s >= 1
  {
    if i == 0 then 1 else P_L2_SIZE * Span(i - 1)
  }

  function SlotOf(x: nat, i: nat): (k: nat)
    ensures k < P_L2_SIZE
  {
    (x / Span(i)) % P_L2_SIZE
  }

  /** First page under slot k of a node that starts at page b: b + k * Span(i). */
  ghost function SlotBase(b: nat, k: nat, i: nat): (c: nat)
    ensures c >= b
  {
    if k == 0 then b else SlotBase(b, k - 1, i) + Span(i)
  }

  lemma {:induction false} SlotBaseIs(b: nat, k: nat, i: nat)
    ensures SlotBase(b, k, i) == b + k * Span(i)
  {
    if k > 0 {
      SlotBaseIs(b, k - 1, i);
    }
  }

  /** b is a multiple of Span(i). */
  ghost predicate Aligned(b: nat, i: nat) {
    i == 0 || (b % P_L2_SIZE == 0 && Aligned(b / P_L2_SIZE, i - 1))
  }

  lemma NestedMod(b: nat, s: nat)
    requires s > 0
    ensures b % (P_L2_SIZE * s) == 0 <==> b % P_L2_SIZE == 0 && (b / P_L2_SIZE) % s == 0
  {
    if b % (P_L2_SIZE * s) == 0 {
      var q := b / (P_L2_SIZE * s);
      assert b == (P_L2_SIZE * s) * q == P_L2_SIZE * (s * q);
      assert b / P_L2_SIZE == q * s;
      DivIs(b / P_L2_SIZE, s, q);
    } else if b % P_L2_SIZE == 0 && (b / P_L2_SIZE) % s == 0 {
      var q := (b / P_L2_SIZE) / s;
      assert b == P_L2_SIZE * (q * s) == q * (P_L2_SIZE * s);
      DivIs(b, P_L2_SIZE * s, q);
    }
  }

  lemma {:induction false} AlignedMod(b: nat, i: nat)
    ensures Aligned(b, i) <==> b % Span(i) == 0
  {
    if i > 0 {
      AlignedMod(b / P_L2_SIZE, i - 1);
      NestedMod(b, Span(i - 1));
    }
  }

  lemma SlotStart(b: nat, k: nat, s: nat) returns (q: nat)
    requires s > 0 && b % (P_L2_SIZE * s) == 0
    ensures (q * P_L2_SIZE + k) * s == b + k * s
  {
    q := b / (P_L2_SIZE * s);
    assert b == q * (P_L2_SIZE * s) == (q * P_L2_SIZE) * s;
  }

  lemma SlotArith(x: nat, b: nat, k: nat, s: nat)
    requires s > 0 && k < P_L2_SIZE && b % (P_L2_SIZE * s) == 0 && b + k * s <= x < b + k * s + s
    ensures (x / s) % P_L2_SIZE == k
  {
    var q := SlotStart(b, k, s);
    DivIs(x, s, q * P_L2_SIZE + k);
  }

  lemma SlotIs(x: nat, i: nat, b: nat, k: nat)
    requires Aligned(b, i + 1) && k < P_L2_SIZE
    requires SlotBase(b, k, i) <= x < SlotBase(b, k, i) + Span(i)
    ensures SlotOf(x, i) == k
  {
    SlotBaseIs(b, k, i);
    AlignedMod(b, i + 1);
    SlotArith(x, b, k, Span(i));
  }

  /** The slots of a node stay inside it. */
  lemma SlotFits(i: nat, b: nat, k: nat)
    requires k < P_L2_SIZE
    ensures SlotBase(b, k, i) + Span(i) <= b + Span(i + 1)
    ensures k == P_L2_SIZE - 1 ==> SlotBase(b, k, i) + Span(i) == b + Span(i + 1)
  {
    SlotBaseIs(b, k, i);
    MulMono(k + 1, P_L2_SIZE, Span(i));
  }

  lemma SlotBounds(x: nat, i: nat, b: nat)
    requires Aligned(b, i + 1) && b <= x < b + Span(i + 1)
    ensures var k := SlotOf(x, i); SlotBase(b, k, i) <= x < SlotBase(b, k, i) + Span(i)
  {
    var s := Span(i);
    var k := (x - b) / s;
    assert x - b == k * s + (x - b) % s;
    if k >= P_L2_SIZE { MulMono(P_L2_SIZE, k, s); }
    SlotBaseIs(b, k, i);
    SlotIs(x, i, b, k);
  }

  lemma SlotAligned(i: nat, b: nat, k: nat)
    requires Aligned(b, i + 1)
    ensures Aligned(SlotBase(b, k, i), i)
  {
    var c := SlotBase(b, k, i);
    SlotBaseIs(b, k, i);
    AlignedMod(b, i + 1);
    AlignedMod(c, i);
    var q := SlotStart(b, k, Span(i));
    DivIs(c, Span(i), q * P_L2_SIZE + k);
  }

  // ----- Shape: every node has a level and a first page -----

  /** Ghost description of the table: level and first page of each allocated node. */
  datatype Shape = Shape(lev: seq<nat>, base: seq<nat>)

  ghost predicate Extends(sh: Shape, sh': Shape) {
    |sh.lev| == |sh.base| && |sh'.lev| == |sh'.base| && sh.lev <= sh'.lev && sh.base <= sh'.base
  }

  /** An entry over [b, b + Span(i)) points to a node of the next level for the same range.
      A leaf above level zero always names an assigned section. */
  ghost predicate EntryOk(e: Entry, sh: Shape, i: nat, b: nat)
    requires |sh.lev| == |sh.base|
  {
    if e.skip then
      i > 0 && (e.ptr == NODE_NIL ||
                (e.ptr < |sh.lev| && sh.lev[e.ptr] == i - 1 && sh.base[e.ptr] == b))
    else
      i > 0 ==> e.ptr != UNASSIGNED
  }

  ghost predicate NodeOk(node: Node, sh: Shape, l: nat, b: nat)
    requires |sh.lev| == |sh.base|
  {
    && Aligned(b, l + 1)
    && forall k :: 0 <= k < P_L2_SIZE ==> EntryOk(node[k], sh, l, SlotBase(b, k, l))
  }

  ghost predicate NodesOk(nodes: seq<Node>, sh: Shape) {
    && |sh.lev| == |sh.base| <= |nodes|
    && |sh.lev| <= NODE_NIL
    && forall n :: 0 <= n < |sh.lev| ==> NodeOk(nodes[n], sh, sh.lev[n], sh.base[n])
  }

  /** Node n lies on the way to page x. */
  ghost predicate Covers(sh: Shape, n: nat, x: nat)
    requires |sh.lev| == |sh.base| && n < |sh.lev|
  {
    sh.base[n] <= x < sh.base[n] + Span(sh.lev[n] + 1)
  }

  // ----- Reading: the section number of page x below an entry with i levels under it -----

  function Find(nodes: seq<Node>, e: Entry, i: nat, x: nat): nat
    decreases i
  {
    if !e.skip || i == 0 then e.ptr
    else if e.ptr == NODE_NIL || e.ptr >= |nodes| then UNASSIGNED
    else Find(nodes, nodes[e.ptr][SlotOf(x, i - 1)], i - 1, x)
  }

  /** A lookup depends only on the nodes on the way to its page. */
  lemma {:induction false} FindFrame(nodes: seq<Node>, nodes': seq<Node>, sh: Shape, e: Entry, i: nat, b: nat, x: nat)
    requires NodesOk(nodes, sh) && EntryOk(e, sh, i, b) && |nodes'| == |nodes|
    requires Aligned(b, i) && b <= x < b + Span(i)
    requires forall n :: 0 <= n < |sh.lev| && sh.lev[n] < i && Covers(sh, n, x) ==> nodes'[n] == nodes[n]
    ensures Find(nodes', e, i, x) == Find(nodes, e, i, x)
    decreases i
  {
    if e.skip && e.ptr != NODE_NIL {
      var k := SlotOf(x, i - 1);
      SlotBounds(x, i - 1, b);
      SlotAligned(i - 1, b, k);
      assert Covers(sh, e.ptr, x);
      assert NodeOk(nodes[e.ptr], sh, i - 1, b);
      assert EntryOk(nodes[e.ptr][k], sh, i - 1, SlotBase(b, k, i - 1));
      FindFrame(nodes, nodes', sh, nodes[e.ptr][k], i - 1, SlotBase(b, k, i - 1), x);
    }
  }

  // ----- Writing -----

  /** Node n lies wholly under the entry that covers [b, b + Span(i)). */
  ghost predicate Inside(sh: Shape, n: nat, i: nat, b: nat)
    requires |sh.lev| == |sh.base| && n < |sh.lev|
  {
    b <= sh.base[n] && sh.base[n] + Span(sh.lev[n] + 1) <= b + Span(i)
  }

  /** All pages of [lo, hi) under the entry e at b are unassigned. */
  ghost predicate UnassignedIn(nodes: seq<Node>, e: Entry, i: nat, b: nat, lo: nat, hi: nat) {
    forall x :: b <= x < b + Span(i) && lo <= x < hi ==> Find(nodes, e, i, x) == UNASSIGNED
  }

  /** Between the two tables only the entry `lp` and nodes wholly under it may differ. */
  ghost predicate Frame(nodes: seq<Node>, nodes': seq<Node>, sh: Shape, lp: EntryRef, i: nat, b: nat)
    requires |sh.lev| == |sh.base| <= |nodes|
  {
    && |nodes'| == |nodes|
    && forall n :: 0 <= n < |sh.lev| && !Inside(sh, n, i, b) ==>
         if lp.Slot? && lp.node == n
         then forall j :: 0 <= j < P_L2_SIZE && j != lp.k ==> nodes'[n][j] == nodes[n][j]
         else nodes'[n] == nodes[n]
  }

  /** Reading under e' in the new table is reading under e in the old one, except that the pages
      of [lo, hi) now read `leaf`. */
  ghost predicate Overridden(nodes: seq<Node>, e: Entry, nodes': seq<Node>, e': Entry,
                             i: nat, b: nat, lo: nat, hi: nat, leaf: nat)
  {
    forall x :: b <= x < b + Span(i) ==>
      Find(nodes', e', i, x) == if lo <= x < hi then leaf else Find(nodes, e, i, x)
  }

  /** Pages under the other slots of node p read as before. */
  lemma OtherSlot(nodes: seq<Node>, nodes': seq<Node>, sh: Shape, p: nat, k: nat, x: nat)
    requires NodesOk(nodes, sh) && p < |sh.lev| && k < P_L2_SIZE
    requires Frame(nodes, nodes', sh, Slot(p, k), sh.lev[p], SlotBase(sh.base[p], k, sh.lev[p]))
    requires sh.base[p] <= x < sh.base[p] + Span(sh.lev[p] + 1) && SlotOf(x, sh.lev[p]) != k
    ensures Find(nodes', Entry(true, p), sh.lev[p] + 1, x) == Find(nodes, Entry(true, p), sh.lev[p] + 1, x)
    ensures !(SlotBase(sh.base[p], k, sh.lev[p]) <= x < SlotBase(sh.base[p], k, sh.lev[p]) + Span(sh.lev[p]))
  {
    var l, b := sh.lev[p], sh.base[p];
    var j := SlotOf(x, l);
    assert NodeOk(nodes[p], sh, l, b);
    if SlotBase(b, k, l) <= x < SlotBase(b, k, l) + Span(l) { SlotIs(x, l, b, k); }
    SlotBounds(x, l, b);
    SlotAligned(l, b, j);
    forall n | 0 <= n < |sh.lev| && sh.lev[n] < l && Covers(sh, n, x)
      ensures nodes'[n] == nodes[n]
    {
      assert !Inside(sh, n, l, SlotBase(b, k, l));
    }
    assert nodes'[p][j] == nodes[p][j] by {
      assert !Inside(sh, p, l, SlotBase(b, k, l));
    }
    assert EntryOk(nodes[p][j], sh, l, SlotBase(b, j, l));
    FindFrame(nodes, nodes', sh, nodes[p][j], l, SlotBase(b, j, l), x);
  }

  /** A range write through slot k of node p is the same range write through the pointer to p. */
  lemma SlotWrite(nodes: seq<Node>, nodes': seq<Node>, sh: Shape, p: nat, k: nat, lo: nat, hi: nat, leaf: nat)
    requires NodesOk(nodes, sh) && p < |sh.lev| && k < P_L2_SIZE
    requires var l, b := sh.lev[p], SlotBase(sh.base[p], k, sh.lev[p]);
             && Frame(nodes, nodes', sh, Slot(p, k), l, b)
             && Overridden(nodes, nodes[p][k], nodes', nodes'[p][k], l, b, lo, hi, leaf)
             && b <= lo && hi <= b + Span(l)
    ensures Overridden(nodes, Entry(true, p), nodes', Entry(true, p), sh.lev[p] + 1, sh.base[p], lo, hi, leaf)
  {
    hide Find, NodesOk, Frame, SlotBase, SlotOf, Overridden;
    ShapeFits(nodes, sh);
    var i, b := sh.lev[p] + 1, sh.base[p];
    var e := Entry(true, p);
    forall x | b <= x < b + Span(i)
      ensures Find(nodes', e, i, x) == if lo <= x < hi then leaf else Find(nodes, e, i, x)
    {
      SlotWriteAt(nodes, nodes', sh, p, k, lo, hi, leaf, x);
    }
    OverriddenIs(nodes, e, nodes', e, i, b, lo, hi, leaf);
  }

  lemma OverriddenIs(nodes: seq<Node>, e: Entry, nodes': seq<Node>, e': Entry, i: nat, b: nat, lo: nat, hi: nat, leaf: nat)
    requires forall x :: b <= x < b + Span(i) ==> Find(nodes', e', i, x) == if lo <= x < hi then leaf else Find(nodes, e, i, x)
    ensures Overridden(nodes, e, nodes', e', i, b, lo, hi, leaf)
  {}

  lemma SlotWriteAt(nodes: seq<Node>, nodes': seq<Node>, sh: Shape, p: nat, k: nat, lo: nat, hi: nat, leaf: nat, x: nat)
    requires NodesOk(nodes, sh) && p < |sh.lev| && k < P_L2_SIZE
    requires var l, b := sh.lev[p], SlotBase(sh.base[p], k, sh.lev[p]);
             && Frame(nodes, nodes', sh, Slot(p, k), l, b)
             && Overridden(nodes, nodes[p][k], nodes', nodes'[p][k], l, b, lo, hi, leaf)
             && b <= lo && hi <= b + Span(l)
    requires sh.base[p] <= x < sh.base[p] + Span(sh.lev[p] + 1)
    ensures var i, e := sh.lev[p] + 1, Entry(true, p);
            Find(nodes', e, i, x) == if lo <= x < hi then leaf else Find(nodes, e, i, x)
  {
    hide Find, SlotBase, SlotOf, Frame, NodesOk;
    ShapeFits(nodes, sh);
    var l, b := sh.lev[p], sh.base[p];
    if SlotOf(x, l) != k {
      OtherSlot(nodes, nodes', sh, p, k, x);
    } else {
      NodeBounds(nodes, nodes', sh, p, l, SlotBase(b, k, l), Slot(p, k));
      SlotBounds(x, l, b);
      FindSlot(nodes, p, l, x);
      FindSlot(nodes', p, l, x);
    }
  }

  lemma NodeBounds(nodes: seq<Node>, nodes': seq<Node>, sh: Shape, p: nat, i: nat, b: nat, lp: EntryRef)
    requires NodesOk(nodes, sh) && p < |sh.lev| && Frame(nodes, nodes', sh, lp, i, b)
    ensures p < NODE_NIL && p < |nodes| == |nodes'| && Aligned(sh.base[p], sh.lev[p] + 1)
  {
    assert NodeOk(nodes[p], sh, sh.lev[p], sh.base[p]);
  }

  lemma FindSlot(nodes: seq<Node>, p: nat, l: nat, x: nat)
    requires p < |nodes| && p < NODE_NIL
    ensures Find(nodes, Entry(true, p), l + 1, x) == Find(nodes, nodes[p][SlotOf(x, l)], l, x)
  {}

  /** From the table (nodes0, sh0) the pages [lo, index) under node p, reached through lp, were
      written, and nothing else. */
  ghost predicate Progress(nodes0: seq<Node>, sh0: Shape, e0: Entry, nodes: seq<Node>, sh: Shape,
                           lp: EntryRef, p: nat, level: nat, b: nat, lo: nat, index: nat, leaf: nat)
  {
    && Extends(sh0, sh) && |sh0.lev| <= |nodes0| && |sh.lev| <= |nodes|
    && p < |sh.lev| && sh.lev[p] == level && sh.base[p] == b
    && (lp.Slot? ==> && lp.node < |sh.lev| && sh.lev[lp.node] == level + 1
                     && lp.k < P_L2_SIZE && nodes[lp.node][lp.k] == Entry(true, p))
    && Frame(nodes0, nodes, sh0, lp, level + 1, b)
    && Overridden(nodes0, e0, nodes, Entry(true, p), level + 1, b, lo, index, leaf)
  }

  /** A write through slot k of node p stays inside p. */
  lemma UnderNode(nodes: seq<Node>, nodes': seq<Node>, sh: Shape, p: nat, k: nat)
    requires NodesOk(nodes, sh) && p < |sh.lev| && k < P_L2_SIZE
    requires Frame(nodes, nodes', sh, Slot(p, k), sh.lev[p], SlotBase(sh.base[p], k, sh.lev[p]))
    ensures forall n :: 0 <= n < |sh.lev| && !Inside(sh, n, sh.lev[p] + 1, sh.base[p]) ==> nodes'[n] == nodes[n]
    ensures forall n :: 0 <= n < |sh.lev| && sh.lev[n] == sh.lev[p] + 1 ==> nodes'[n] == nodes[n]
  {
    var l, b := sh.lev[p], sh.base[p];
    SlotFits(l, b, k);
    forall n | 0 <= n < |sh.lev| && (!Inside(sh, n, l + 1, b) || sh.lev[n] == l + 1)
      ensures nodes'[n] == nodes[n]
    {
      assert !Inside(sh, n, l, SlotBase(b, k, l));
      assert n != p;
    }
  }

  lemma OverriddenTrans(n0: seq<Node>, e0: Entry, n1: seq<Node>, n2: seq<Node>, e: Entry,
                        i: nat, b: nat, lo: nat, mid: nat, hi: nat, leaf: nat)
    requires Overridden(n0, e0, n1, e, i, b, lo, mid, leaf) && Overridden(n1, e, n2, e, i, b, mid, hi, leaf)
    requires lo <= mid <= hi
    ensures Overridden(n0, e0, n2, e, i, b, lo, hi, leaf)
  {}

  /** Writing [index, index') through slot k of node p is progress. */
  lemma ProgressStep(nodes0: seq<Node>, sh0: Shape, e0: Entry, n1: seq<Node>, sh1: Shape, n2: seq<Node>, sh2: Shape,
                     lp: EntryRef, p: nat, k: nat, level: nat, b: nat, lo: nat, index: nat, index': nat, leaf: nat)
    requires Progress(nodes0, sh0, e0, n1, sh1, lp, p, level, b, lo, index, leaf)
    requires NodesOk(n1, sh1) && NodesOk(n2, sh2) && Extends(sh1, sh2) && k < P_L2_SIZE
    requires var c := SlotBase(b, k, level);
             && Frame(n1, n2, sh1, Slot(p, k), level, c)
             && Overridden(n1, n1[p][k], n2, n2[p][k], level, c, index, index', leaf)
             && lo <= index <= index' && c <= index && index' <= c + Span(level)
    ensures Progress(nodes0, sh0, e0, n2, sh2, lp, p, level, b, lo, index', leaf)
  {
    hide Find, NodesOk, Frame, Overridden, SlotBase;
    ShapeFits(n1, sh1);
    ShapeFits(n2, sh2);
    FrameStep(nodes0, sh0, n1, sh1, n2, lp, p, k);
    SlotWrite(n1, n2, sh1, p, k, index, index', leaf);
    OverriddenTrans(nodes0, e0, n1, n2, Entry(true, p), level + 1, b, lo, index, index', leaf);
  }

  lemma ShapeFits(nodes: seq<Node>, sh: Shape)
    requires NodesOk(nodes, sh)
    ensures |sh.lev| == |sh.base| <= |nodes|
  {}

  /** A write through slot k of node p, after a write through the pointer to p, is a write through that pointer. */
  lemma FrameStep(nodes0: seq<Node>, sh0: Shape, n1: seq<Node>, sh1: Shape, n2: seq<Node>, lp: EntryRef, p: nat, k: nat)
    requires NodesOk(n1, sh1) && Extends(sh0, sh1) && |sh0.lev| <= |nodes0| && p < |sh1.lev| && k < P_L2_SIZE
    requires Frame(nodes0, n1, sh0, lp, sh1.lev[p] + 1, sh1.base[p])
    requires Frame(n1, n2, sh1, Slot(p, k), sh1.lev[p], SlotBase(sh1.base[p], k, sh1.lev[p]))
    ensures Frame(nodes0, n2, sh0, lp, sh1.lev[p] + 1, sh1.base[p])
    ensures forall n :: 0 <= n < |sh1.lev| && sh1.lev[n] == sh1.lev[p] + 1 ==> n2[n] == n1[n]
  {
    hide NodesOk, SlotBase, Inside;
    ShapeFits(n1, sh1);
    UnderNode(n1, n2, sh1, p, k);
    var i, b := sh1.lev[p] + 1, sh1.base[p];
    forall n | 0 <= n < |sh0.lev| ensures Inside(sh0, n, i, b) == Inside(sh1, n, i, b) {
      InsideSame(sh0, sh1, n, i, b);
    }
  }

  lemma InsideSame(sh: Shape, sh': Shape, n: nat, i: nat, b: nat)
    requires Extends(sh, sh') && n < |sh.lev|
    ensures Inside(sh, n, i, b) == Inside(sh', n, i, b)
  {}

  /** Pages not yet written under node p are still unassigned under its slot k. */
  lemma SlotUnassigned(nodes0: seq<Node>, e0: Entry, nodes: seq<Node>, sh: Shape, p: nat, k: nat,
                       lo: nat, index: nat, hi: nat, leaf: nat)
    requires NodesOk(nodes, sh) && p < |sh.lev| && k < P_L2_SIZE
    requires Overridden(nodes0, e0, nodes, Entry(true, p), sh.lev[p] + 1, sh.base[p], lo, index, leaf)
    requires UnassignedIn(nodes0, e0, sh.lev[p] + 1, sh.base[p], index, hi)
    ensures UnassignedIn(nodes, nodes[p][k], sh.lev[p], SlotBase(sh.base[p], k, sh.lev[p]), index, hi)
  {
    var l, b := sh.lev[p], sh.base[p];
    var c, e := SlotBase(b, k, l), nodes[p][k];
    SlotFits(l, b, k);
    assert NodeOk(nodes[p], sh, l, b);
    forall x | c <= x < c + Span(l) && index <= x < hi
      ensures Find(nodes, e, l, x) == UNASSIGNED
    {
      SlotIs(x, l, b, k);
      assert Find(nodes, Entry(true, p), l + 1, x) == Find(nodes0, e0, l + 1, x);
    }
  }

  // ----- The table -----

  /** Most nodes one call at `level` allocates for pages [lo, hi) under an entry at b. */
  function AllocBound(level: nat, b: nat, lo: nat, hi: nat): (r: nat)
    ensures level + 1 <= r <= 2 * level + 1
  {
    if lo <= b || hi >= b + Span(level + 1) then level + 1 else 2 * level + 1
  }

  /** Most nodes allocated for the part of [lo, hi) under one entry, c its first page. */
  function SlotCost(level: nat, c: nat, lo: nat, hi: nat): nat {
    if level == 0 || (lo <= c && hi >= c + Span(level)) then 0 else AllocBound(level - 1, c, lo, hi)
  }

  /** Nodes allocated below a node by its slots before k, while pages remain to be written:
      only the first slot can have cost anything. */
  ghost function EarlierCost(level: nat, b: nat, k0: nat, k: nat, lo: nat): nat {
    if k == k0 || lo <= SlotBase(b, k0, level) then 0 else level
  }

  /** Where the loop over the slots of a node at b stands: pages [lo, index) of [lo, hi) are done
      and slot k is next; k0 was the first. */
  ghost predicate Cursor(level: nat, b: nat, k0: nat, k: nat, lo: nat, index: nat, hi: nat) {
    && k0 <= k <= P_L2_SIZE && lo < hi
    && SlotBase(b, k0, level) <= lo < SlotBase(b, k0, level) + Span(level)
    && SlotBase(b, k, level) <= b + Span(level + 1)
    && (k == P_L2_SIZE ==> SlotBase(b, k, level) == b + Span(level + 1))
    && index == if k == k0 then lo else Min(hi, SlotBase(b, k, level))
  }

  /** The next slot fits the bound of its node, and if pages remain it was free or the first. */
  lemma CursorStep(level: nat, b: nat, k0: nat, k: nat, lo: nat, index: nat, hi: nat)
    requires Cursor(level, b, k0, k, lo, index, hi) && k < P_L2_SIZE && index < hi
    ensures var c := SlotBase(b, k, level);
            var cost := SlotCost(level, c, index, hi);
            && c <= index < c + Span(level) && lo <= index
            && Cursor(level, b, k0, k + 1, lo, Min(hi, c + Span(level)), hi)
            && 1 + EarlierCost(level, b, k0, k, lo) + cost <= AllocBound(level, b, lo, hi)
            && (hi > c + Span(level) ==>
                  EarlierCost(level, b, k0, k, lo) + cost <= EarlierCost(level, b, k0, k + 1, lo))
  {
    SlotBaseMono(b, k0, k, level);
    SlotFits(level, b, k);
    if k > k0 {
      SlotBaseMono(b, k0, k - 1, level);
    }
  }

  lemma AlignedIs(x: nat, c: nat, i: nat)
    requires x % Span(i) == 0 && Aligned(c, i) && c <= x < c + Span(i)
    ensures x == c
  {
    var s, q := Span(i), c / Span(i);
    AlignedMod(c, i);
    assert c == q * s;
    DivIs(x, s, q);
  }

  lemma {:induction false} SlotBaseMono(b: nat, j: nat, k: nat, i: nat)
    requires j <= k
    ensures SlotBase(b, j, i) <= SlotBase(b, k, i)
  {
    if j < k {
      SlotBaseMono(b, j, k - 1, i);
    }
  }

  function FreshNode(level: nat): Node {
    seq(P_L2_SIZE, _ => if level == 0 then Entry(false, UNASSIGNED) else EmptyEntry)
  }

  ghost function Grow(sh: Shape, level: nat, b: nat): Shape {
    Shape(sh.lev + [level], sh.base + [b])
  }

  /** A fresh node extends the shape without disturbing it. */
  lemma AddNodeOk(nodes: seq<Node>, sh: Shape, level: nat, b: nat)
    requires NodesOk(nodes, sh) && Aligned(b, level + 1)
    requires |sh.lev| < |nodes| && |sh.lev| < NODE_NIL
    ensures NodesOk(nodes[|sh.lev| := FreshNode(level)], Grow(sh, level, b))
  {
    var p, sh' := |sh.lev|, Grow(sh, level, b);
    var nodes' := nodes[p := FreshNode(level)];
    forall n | 0 <= n <= p
      ensures NodeOk(nodes'[n], sh', sh'.lev[n], sh'.base[n])
    {
      if n < p {
        assert NodeOk(nodes[n], sh, sh.lev[n], sh.base[n]);
      }
    }
  }

  /** Putting a proper entry into a slot keeps the shape. */
  lemma PutOk(nodes: seq<Node>, sh: Shape, n: nat, k: nat, e: Entry)
    requires NodesOk(nodes, sh) && n < |sh.lev| && k < P_L2_SIZE
    requires EntryOk(e, sh, sh.lev[n], SlotBase(sh.base[n], k, sh.lev[n]))
    ensures NodesOk(nodes[n := nodes[n][k := e]], sh)
  {
    assert NodeOk(nodes[n], sh, sh.lev[n], sh.base[n]);
    assert NodeOk(nodes[n][k := e], sh, sh.lev[n], sh.base[n]);
  }

  lemma FreshReads(nodes: seq<Node>, nodes': seq<Node>, p: nat, i: nat, b: nat)
    requires p < |nodes'| && p != NODE_NIL && i > 0 && nodes'[p] == FreshNode(i - 1)
    ensures Overridden(nodes, EmptyEntry, nodes', Entry(true, p), i, b, 0, 0, 0)
  {
    forall x | b <= x < b + Span(i)
      ensures Find(nodes', Entry(true, p), i, x) == UNASSIGNED
    {
      assert nodes'[p][SlotOf(x, i - 1)] == if i == 1 then Entry(false, UNASSIGNED) else EmptyEntry;
    }
  }

  /** The node that phys_map_node_alloc hands out, with the table as it was around it. */
  lemma AllocNode(nodes: seq<Node>, sh: Shape, level: nat, b: nat)
    requires NodesOk(nodes, sh) && |sh.lev| < |nodes|
    ensures var p, sh' := |sh.lev|, Grow(sh, level, b);
            && |sh.lev| == |sh.base| && Extends(sh, sh') && p < |sh'.lev| == |sh'.base| == p + 1
            && sh'.lev[p] == level && sh'.base[p] == b && sh.lev == sh'.lev[..p] && sh.base == sh'.base[..p]
            && p <= NODE_NIL && EntryOk(Entry(true, p), sh', level + 1, b)
  {}

  lemma AllocRoot(nodes: seq<Node>, sh: Shape, level: nat, b: nat)
    requires NodesOk(nodes, sh) && Aligned(b, level + 1) && |sh.lev| < |nodes| && |sh.lev| < NODE_NIL
    ensures var nodes' := nodes[|sh.lev| := FreshNode(level)];
            NodesOk(nodes', Grow(sh, level, b)) && |sh.lev| == |sh.base| && Frame(nodes, nodes', sh, Root, level + 1, b)
  {
    AddNodeOk(nodes, sh, level, b);
  }

  lemma AllocSlot(nodes: seq<Node>, sh: Shape, n: nat, k: nat, level: nat, b: nat)
    requires NodesOk(nodes, sh) && Aligned(b, level + 1) && |sh.lev| < |nodes| && |sh.lev| < NODE_NIL
    requires n < |sh.lev| && k < P_L2_SIZE && sh.lev[n] == level + 1 && SlotBase(sh.base[n], k, level + 1) == b
    ensures var p := |sh.lev|;
            var nodes1 := nodes[p := FreshNode(level)];
            var nodes' := nodes1[n := nodes1[n][k := Entry(true, p)]];
            NodesOk(nodes', Grow(sh, level, b)) && p == |sh.base| && Frame(nodes, nodes', sh, Slot(n, k), level + 1, b)
  {
    hide Find, Aligned, SlotBase;
    var p, sh' := |sh.lev|, Grow(sh, level, b);
    AddNodeOk(nodes, sh, level, b);
    PutOk(nodes[p := FreshNode(level)], sh', n, k, Entry(true, p));
  }

  lemma EntryExtends(e: Entry, sh: Shape, sh': Shape, i: nat, b: nat)
    requires Extends(sh, sh') && EntryOk(e, sh, i, b)
    ensures EntryOk(e, sh', i, b)
  {}

  lemma SameTable(nodes: seq<Node>, sh: Shape, lp: EntryRef, e: Entry, i: nat, b: nat)
    requires NodesOk(nodes, sh)
    ensures Frame(nodes, nodes, sh, lp, i, b) && Overridden(nodes, e, nodes, e, i, b, 0, 0, 0) && Extends(sh, sh)
  {}

  /** A leaf in slot k of node p: all pages under the slot now read it. */
  lemma LeafWritten(nodes: seq<Node>, sh: Shape, p: nat, k: nat, leaf: nat)
    requires NodesOk(nodes, sh) && p < |sh.lev| && k < P_L2_SIZE && leaf != UNASSIGNED
    ensures var l, c := sh.lev[p], SlotBase(sh.base[p], k, sh.lev[p]);
            var nodes' := nodes[p := nodes[p][k := Entry(false, leaf)]];
            && NodesOk(nodes', sh) && Extends(sh, sh) && Frame(nodes, nodes', sh, Slot(p, k), l, c)
            && Overridden(nodes, nodes[p][k], nodes', Entry(false, leaf), l, c, c, c + Span(l), leaf)
  {
    hide SlotBase, Aligned;
    PutOk(nodes, sh, p, k, Entry(false, leaf));
  }

  /** An entry over unassigned pages that a leaf would not fit: it is not a leaf itself. */
  lemma SplitEntry(nodes: seq<Node>, sh: Shape, p: nat, k: nat, level: nat, c: nat, index: nat, nb: nat)
    requires NodesOk(nodes, sh) && p < |sh.lev| && k < P_L2_SIZE && sh.lev[p] == level && SlotBase(sh.base[p], k, level) == c
    requires Aligned(c, level) && nb > 0 && c <= index < c + Span(level) && !(index % Span(level) == 0 && nb >= Span(level))
    requires UnassignedIn(nodes, nodes[p][k], level, c, index, index + nb)
    ensures level > 0 && nodes[p][k].skip
    ensures SlotCost(level, c, index, index + nb) == AllocBound(level - 1, c, index, index + nb)
  {
    hide SlotBase, NodesOk;
    ShapeFits(nodes, sh);
    AlignedMod(c, level);
    assert Find(nodes, nodes[p][k], level, index) == UNASSIGNED;
    EntryInSlot(nodes, sh, p, k);
  }

  lemma EntryInSlot(nodes: seq<Node>, sh: Shape, p: nat, k: nat)
    requires NodesOk(nodes, sh) && p < |sh.lev| && k < P_L2_SIZE
    ensures |sh.lev| == |sh.base| && EntryOk(nodes[p][k], sh, sh.lev[p], SlotBase(sh.base[p], k, sh.lev[p]))
  {
    assert NodeOk(nodes[p], sh, sh.lev[p], sh.base[p]);
  }

  class PhysPageMap {
    const levels: nat          // P_L2_LEVELS
    var root: Entry            // phys_map
    var nodes: seq<Node>       // the allocated table; its length is nodes_nb_alloc
    var nodesNb: nat           // nodes_nb
    ghost var shape: Shape

    ghost predicate Valid()
      reads this
    {
      && levels >= 1
      && NodesOk(nodes, shape)
      && nodesNb == |shape.lev|
      && root.skip && EntryOk(root, shape, levels, 0)
    }

    /** The flat map: section number of a page. */
    function PageSection(x: nat): nat
      reads this
    {
      Find(nodes, root, levels, x)
    }

    constructor (levels: nat)
      requires levels >= 1
      ensures Valid() && this.levels == levels && nodesNb == 0 && nodes == []
      ensures forall x :: 0 <= x < Span(levels) ==> PageSection(x) == UNASSIGNED
    {
      this.levels := levels;
      root := EmptyEntry;
      nodes := [];
      nodesNb := 0;
      shape := Shape([], []);
    }

    function Get(lp: EntryRef): Entry
      reads this
      requires lp.Slot? ==> lp.node < |nodes| && lp.k < P_L2_SIZE
    {
      match lp case Root => root case Slot(n, k) => nodes[n][k]
    }

    /** lp is the entry that covers [b, b + Span(i)). */
    ghost predicate RefOk(lp: EntryRef, i: nat, b: nat)
      reads this
    {
      && Aligned(b, i)
      && Valid()
      && match lp
         case Root => i == levels && b == 0
         case Slot(n, k) => n < nodesNb && k < P_L2_SIZE && shape.lev[n] == i && SlotBase(shape.base[n], k, i) == b
    }

    /** phys_map_node_reserve: make room for `n` more nodes, possibly moving the table. */
    method NodeReserve(n: nat)
      requires Valid()
      modifies this`nodes
      ensures Valid() && nodesNb + n <= |nodes|
      ensures old(|nodes|) <= |nodes| && nodes[..nodesNb] == old(nodes[..nodesNb])
      ensures forall x :: 0 <= x < Span(levels) ==> PageSection(x) == old(PageSection(x))
    {
      if nodesNb + n > |nodes| {
        var nb := Max(|nodes| * 2, 16);
        nb := Max(nb, nodesNb + n);
        ghost var nodes0 := nodes;
        var grown: seq<Node> := seq(nb - |nodes|, _ => FreshNode(1));
        nodes := nodes + grown;
        forall x | 0 <= x < Span(levels)
          ensures Find(nodes, root, levels, x) == Find(nodes0, root, levels, x)
        {
          AlignedMod(0, levels);
          FindPrefix(nodes0, nodes, shape, root, levels, 0, x);
        }
      }
    }

    /** phys_map_node_alloc for the empty entry `lp`. */
    method NodeAlloc(lp: EntryRef, level: nat, ghost b: nat) returns (p: nat)
      requires RefOk(lp, level + 1, b) && Get(lp) == EmptyEntry && nodesNb < |nodes| && nodesNb < NODE_NIL
      modifies this`root, this`nodes, this`nodesNb, this`shape
      ensures RefOk(lp, level + 1, b) && Get(lp) == Entry(true, p) && |nodes| == old(|nodes|)
      ensures p == old(nodesNb) && nodesNb == p + 1 && shape == old(Grow(shape, level, b)) && Extends(old(shape), shape)
      ensures (lp.Slot? ==> root == old(root)) && Frame(old(nodes), nodes, old(shape), lp, level + 1, b)
      ensures nodes[p] == FreshNode(level)
    {
      hide Find, Aligned, NodesOk, EntryOk, Frame, SlotBase, FreshNode, Extends;
      p := nodesNb;
      AllocNode(nodes, shape, level, b);
      nodesNb := nodesNb + 1;
      match lp {
        case Root =>
          AllocRoot(nodes, shape, level, b);
          nodes := nodes[p := FreshNode(level)];
          root := root.(ptr := p);
        case Slot(n, k) =>
          AllocSlot(nodes, shape, n, k, level, b);
          nodes := nodes[p := FreshNode(level)];
          nodes := nodes[n := nodes[n][k := nodes[n][k].(ptr := p)]];
          EntryExtends(root, shape, Grow(shape, level, b), levels, 0);
      }
      shape := Grow(shape, level, b);
    }

    /** First half of phys_page_set_level: follow `lp` to its node, allocating it when absent. Like all that
        follows, it stops where the source aborts: when all node numbers are in use. */
    method Descend(lp: EntryRef, level: nat, ghost b: nat) returns (ok: bool, p: nat)
      requires RefOk(lp, level + 1, b) && Get(lp).skip
      requires nodesNb < |nodes|
      modifies this`root, this`nodes, this`nodesNb, this`shape
      ensures !ok ==> nodesNb == NODE_NIL && nodesNb == old(nodesNb)
      ensures ok ==> RefOk(lp, level + 1, b) && Get(lp) == Entry(true, p)
      ensures ok ==> p < nodesNb && shape.lev[p] == level && shape.base[p] == b
      ensures ok ==> old(nodesNb) <= nodesNb <= old(nodesNb) + 1 && |nodes| == old(|nodes|)
      ensures ok ==> Extends(old(shape), shape) && (lp.Slot? ==> root == old(root))
      ensures ok ==> Frame(old(nodes), nodes, old(shape), lp, level + 1, b)
      ensures ok ==> Overridden(old(nodes), old(Get(lp)), nodes, Get(lp), level + 1, b, 0, 0, 0)
    {
      hide Find, Aligned, NodesOk, EntryOk, Frame, Overridden, SlotBase, FreshNode, Extends;
      ok := true;
      var e := Get(lp);
      EntryAt(lp, level, b);
      if e.ptr == NODE_NIL {
        if nodesNb == NODE_NIL {
          return false, nodesNb;
        }
        AllocNode(nodes, shape, level, b);
        p := NodeAlloc(lp, level, b);
        FreshReads(old(nodes), nodes, p, level + 1, b);
      } else {
        p := e.ptr;
        SameTable(nodes, shape, lp, e, level + 1, b);
      }
    }

    lemma EntryAt(lp: EntryRef, level: nat, b: nat)
      requires RefOk(lp, level + 1, b) && Get(lp).skip
      ensures var e := Get(lp);
              e.ptr != NODE_NIL ==> e.ptr < |shape.lev| == |shape.base| && shape.lev[e.ptr] == level && shape.base[e.ptr] == b
    {
      if lp.Slot? {
        assert NodeOk(nodes[lp.node], shape, level + 1, shape.base[lp.node]);
        assert EntryOk(nodes[lp.node][lp.k], shape, level + 1, b);
      }
    }

    /** The body of the loop of phys_page_set_level: one entry, as a large leaf or by recursion.
        c is the first page under the entry. */
    method SetSlot(p: nat, k: nat, index0: nat, nb0: nat, leaf: nat, level: nat, ghost c: nat)
      returns (ok: bool, index: nat, nb: nat)
      requires RefOk(Slot(p, k), level, c)
      requires nb0 > 0 && leaf != UNASSIGNED && c <= index0 < c + Span(level)
      requires UnassignedIn(nodes, nodes[p][k], level, c, index0, index0 + nb0)
      requires nodesNb + SlotCost(level, c, index0, index0 + nb0) <= |nodes|
      modifies this`root, this`nodes, this`nodesNb, this`shape
      ensures !ok ==> nodesNb == NODE_NIL < old(nodesNb) + SlotCost(level, c, index0, index0 + nb0)
      ensures ok ==> RefOk(Slot(p, k), level, c) && root == old(root)
      ensures ok ==> Extends(old(shape), shape) && |nodes| == old(|nodes|)
      ensures ok ==> index == Min(index0 + nb0, c + Span(level)) && nb == index0 + nb0 - index
      ensures ok ==> Frame(old(nodes), nodes, old(shape), Slot(p, k), level, c)
      ensures ok ==> Overridden(old(nodes), old(nodes)[p][k], nodes, nodes[p][k], level, c, index0, index, leaf)
      ensures ok ==> old(nodesNb) <= nodesNb <= old(nodesNb) + SlotCost(level, c, index0, index0 + nb0)
      decreases level, 0
    {
      hide Find, Aligned, NodesOk, EntryOk, Frame, Overridden, SlotBase, Extends, UnassignedIn;
      var step := Span(level);
      if index0 % step == 0 && nb0 >= step {
        AlignedIs(index0, c, level);
        LeafWritten(nodes, shape, p, k, leaf);
        nodes := nodes[p := nodes[p][k := Entry(false, leaf)]];
        ok, index, nb := true, index0 + step, nb0 - step;
      } else {
        SplitEntry(nodes, shape, p, k, level, c, index0, nb0);
        ok, index, nb := SetLevel(Slot(p, k), index0, nb0, leaf, level - 1, c);
      }
    }

    /** The same entry seen from its node p: one step of the loop over the slots, which so far
        wrote [lo, index0) starting from the table (nodes0, sh0) of n0 nodes. */
    method WriteSlot(p: nat, k: nat, index0: nat, nb0: nat, leaf: nat, level: nat, ghost b: nat, ghost lp: EntryRef,
                     ghost nodes0: seq<Node>, ghost sh0: Shape, ghost e0: Entry, ghost n0: nat, ghost k0: nat, ghost lo: nat)
      returns (ok: bool, index: nat, nb: nat)
      requires Valid() && Aligned(b, level + 1) && k < P_L2_SIZE && nb0 > 0 && leaf != UNASSIGNED
      requires Progress(nodes0, sh0, e0, nodes, shape, lp, p, level, b, lo, index0, leaf)
      requires UnassignedIn(nodes0, e0, level + 1, b, lo, index0 + nb0)
      requires Cursor(level, b, k0, k, lo, index0, index0 + nb0)
      requires n0 + AllocBound(level, b, lo, index0 + nb0) <= |nodes|
      requires nodesNb <= n0 + 1 + EarlierCost(level, b, k0, k, lo)
      modifies this`root, this`nodes, this`nodesNb, this`shape
      ensures !ok ==> nodesNb == NODE_NIL < n0 + AllocBound(level, b, lo, index0 + nb0)
      ensures ok ==> Valid() && root == old(root) && |nodes| == old(|nodes|) && index + nb == index0 + nb0
      ensures ok ==> Progress(nodes0, sh0, e0, nodes, shape, lp, p, level, b, lo, index, leaf)
      ensures ok ==> Cursor(level, b, k0, k + 1, lo, index, index0 + nb0)
      ensures ok ==> old(nodesNb) <= nodesNb <= n0 + AllocBound(level, b, lo, index0 + nb0)
      ensures ok && nb > 0 ==> nodesNb <= n0 + 1 + EarlierCost(level, b, k0, k + 1, lo)
      decreases level, 1
    {
      hide Find, Aligned, EntryOk, NodeOk, Overridden, Frame, EarlierCost, AllocBound, SlotCost;
      ghost var nodes1, shape1 := nodes, shape;
      CursorStep(level, b, k0, k, lo, index0, index0 + nb0);
      SlotUnassigned(nodes0, e0, nodes, shape, p, k, lo, index0, index0 + nb0, leaf);
      SlotAligned(level, b, k);
      ok, index, nb := SetSlot(p, k, index0, nb0, leaf, level, SlotBase(b, k, level));
      if !ok {
        return;
      }
      ProgressStep(nodes0, sh0, e0, nodes1, shape1, nodes, shape, lp, p, k, level, b, lo, index0, index, leaf);
    }

    /** The loop of phys_page_set_level over the slots of node p. */
    method WriteNode(p: nat, index0: nat, nb0: nat, leaf: nat, level: nat, ghost b: nat, ghost lp: EntryRef,
                     ghost nodes0: seq<Node>, ghost sh0: Shape, ghost e0: Entry, ghost n0: nat)
      returns (ok: bool, index: nat, nb: nat)
      requires Valid() && Aligned(b, level + 1) && nb0 > 0 && leaf != UNASSIGNED
      requires Progress(nodes0, sh0, e0, nodes, shape, lp, p, level, b, index0, index0, leaf)
      requires b <= index0 < b + Span(level + 1)
      requires UnassignedIn(nodes0, e0, level + 1, b, index0, index0 + nb0)
      requires n0 + AllocBound(level, b, index0, index0 + nb0) <= |nodes|
      requires nodesNb <= n0 + 1
      modifies this`root, this`nodes, this`nodesNb, this`shape
      ensures !ok ==> nodesNb == NODE_NIL < n0 + AllocBound(level, b, index0, index0 + nb0)
      ensures ok ==> Valid() && root == old(root) && |nodes| == old(|nodes|)
      ensures ok ==> index == Min(index0 + nb0, b + Span(level + 1)) && nb == index0 + nb0 - index
      ensures ok ==> Progress(nodes0, sh0, e0, nodes, shape, lp, p, level, b, index0, index, leaf)
      ensures ok ==> old(nodesNb) <= nodesNb <= n0 + AllocBound(level, b, index0, index0 + nb0)
      decreases level, 2
    {
      hide Find, Aligned, EntryOk, NodeOk, Overridden, Frame, UnassignedIn, EarlierCost, AllocBound;
      ok, index, nb := true, index0, nb0;
      var k := SlotOf(index, level);
      SlotBounds(index, level, b);
      SlotFits(level, b, k);
      ghost var k0, end := k, index0 + nb0;
      while nb != 0 && k < P_L2_SIZE
        invariant k <= P_L2_SIZE && index + nb == end
        invariant Cursor(level, b, k0, k, index0, index, end)
        invariant Valid() && root == old(root) && |nodes| == old(|nodes|)
        invariant Progress(nodes0, sh0, e0, nodes, shape, lp, p, level, b, index0, index, leaf)
        invariant old(nodesNb) <= nodesNb <= n0 + AllocBound(level, b, index0, end)
        invariant nb > 0 ==> nodesNb <= n0 + 1 + EarlierCost(level, b, k0, k, index0)
        decreases P_L2_SIZE - k
      {
        ok, index, nb := WriteSlot(p, k, index, nb, leaf, level, b, lp, nodes0, sh0, e0, n0, k0, index0);
        if !ok {
          return;
        }
        k := k + 1;
      }
    }

    /** phys_page_set_level. */
    method SetLevel(lp: EntryRef, index0: nat, nb0: nat, leaf: nat, level: nat, ghost b: nat)
      returns (ok: bool, index: nat, nb: nat)
      requires RefOk(lp, level + 1, b) && Get(lp).skip
      requires nb0 > 0 && leaf != UNASSIGNED && b <= index0 < b + Span(level + 1)
      requires UnassignedIn(nodes, Get(lp), level + 1, b, index0, index0 + nb0)
      requires nodesNb + AllocBound(level, b, index0, index0 + nb0) <= |nodes|
      modifies this`root, this`nodes, this`nodesNb, this`shape
      ensures !ok ==> nodesNb == NODE_NIL < old(nodesNb) + AllocBound(level, b, index0, index0 + nb0)
      ensures ok ==> RefOk(lp, level + 1, b) && Get(lp).skip
      ensures ok ==> Extends(old(shape), shape) && |nodes| == old(|nodes|) && (lp.Slot? ==> root == old(root))
      ensures ok ==> index == Min(index0 + nb0, b + Span(level + 1)) && nb == index0 + nb0 - index
      ensures ok ==> Frame(old(nodes), nodes, old(shape), lp, level + 1, b)
      ensures ok ==> Overridden(old(nodes), old(Get(lp)), nodes, Get(lp), level + 1, b, index0, index, leaf)
      ensures ok ==> old(nodesNb) <= nodesNb <= old(nodesNb) + AllocBound(level, b, index0, index0 + nb0)
      decreases level, 3
    {
      var p: nat;
      index, nb := index0, nb0;
      ok, p := Descend(lp, level, b);
      if !ok {
        return;
      }
      ok, index, nb := WriteNode(p, index0, nb0, leaf, level, b, lp, old(nodes), old(shape), old(Get(lp)), old(nodesNb));
    }

    /** phys_page_set: write one section number over a range of unassigned pages. At most
        2 * levels - 1 nodes are allocated, so the reserve made up front is never exhausted and the
        table does not move while the recursion holds references into it. It stops only when all node
        numbers are in use. */
    method PageSet(index: nat, nb: nat, leaf: nat) returns (ok: bool)
      requires Valid() && nb > 0 && index + nb <= Span(levels) && leaf != UNASSIGNED
      requires forall x :: index <= x < index + nb ==> PageSection(x) == UNASSIGNED
      modifies this`root, this`nodes, this`nodesNb, this`shape
      ensures !ok ==> nodesNb == NODE_NIL < old(nodesNb) + 2 * levels - 1
      ensures ok ==> Valid() && old(nodesNb) <= nodesNb <= old(nodesNb) + 2 * levels - 1
      ensures ok ==> forall x :: 0 <= x < Span(levels) ==>
                PageSection(x) == if index <= x < index + nb then leaf else old(PageSection(x))
    {
      NodeReserve(3 * levels);
      AlignedMod(0, levels);
      ghost var reserved := nodes;
      forall x | 0 <= x < Span(levels) && index <= x < index + nb
        ensures Find(nodes, root, levels, x) == UNASSIGNED
      {
        assert PageSection(x) == old(PageSection(x));
      }
      assert AllocBound(levels - 1, 0, index, index + nb) <= 2 * levels - 1;
      label Reserved:
      var end: nat, left: nat;
      ok, end, left := SetLevel(Root, index, nb, leaf, levels - 1, 0);
      if !ok {
        return;
      }
      assert end == index + nb && |nodes| == |reserved|;
      assert Overridden(reserved, old@Reserved(root), nodes, root, levels, 0, index, end, leaf);
    }

    /** phys_page_find: walk from the root to the leaf of a page. */
    method PageFind(x: nat) returns (s: nat)
      requires Valid()
      ensures s == PageSection(x)
    {
      var lp := root;
      var i: nat := levels;
      ghost var b: nat := 0;
      while lp.skip && i > 0
        invariant i <= levels && EntryOk(lp, shape, i, b)
        invariant Find(nodes, lp, i, x) == PageSection(x)
        decreases i
      {
        i := i - 1;
        if lp.ptr == NODE_NIL {
          return UNASSIGNED;
        }
        assert NodeOk(nodes[lp.ptr], shape, i, b);
        b := SlotBase(b, SlotOf(x, i), i);
        lp := nodes[lp.ptr][SlotOf(x, i)];
      }
      s := lp.ptr;
    }
  }

  /** Growing the table does not change what is read. */
  lemma {:induction false} FindPrefix(nodes: seq<Node>, nodes': seq<Node>, sh: Shape, e: Entry, i: nat, b: nat, x: nat)
    requires NodesOk(nodes, sh) && EntryOk(e, sh, i, b) && nodes <= nodes'
    requires Aligned(b, i) && b <= x < b + Span(i)
    ensures Find(nodes', e, i, x) == Find(nodes, e, i, x)
    decreases i
  {
    if e.skip && e.ptr != NODE_NIL {
      var k := SlotOf(x, i - 1);
      SlotBounds(x, i - 1, b);
      SlotAligned(i - 1, b, k);
      assert NodeOk(nodes[e.ptr], sh, i - 1, b);
      assert EntryOk(nodes[e.ptr][k], sh, i - 1, SlotBase(b, k, i - 1));
      FindPrefix(nodes, nodes', sh, nodes[e.ptr][k], i - 1, SlotBase(b, k, i - 1), x);
    }
  }
}
