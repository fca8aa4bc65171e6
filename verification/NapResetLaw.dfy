/**
  Exactly when a nap reset is idempotent, for every description. The bytes a walk over the description names
  are computed as sets, from the numbers stored in the state and from what the tests see. The condition is
  about the description, the snapshot and the state before the reset.
 */
module NapResetLaw {
  import opened Bytes
  import opened Common
  import opened NapReset

  // ----- What a reset reads -----

  /** The state's value where a byte is named, the snapshot's elsewhere. */
  function Mix(kept: set<int>, snapshot: seq<Byte>, state: seq<Byte>): (m: seq<Byte>)
    requires |snapshot| == |state|
    ensures |m| == |state| && forall x :: 0 <= x < |state| ==> m[x] == if x in kept then state[x] else snapshot[x]
  {
    if state == [] then []
    else
      var x := |state| - 1;
      Mix(kept, snapshot[..x], state[..x]) + [if x in kept then state[x] else snapshot[x]]
  }

  /** What a walk reads: that of the first reset, or that of a second one when the first kept the bytes `kept`. */
  datatype View = First(snapshot: seq<Byte>, state: seq<Byte>) | Second(snapshot: seq<Byte>, state: seq<Byte>, kept: set<int>) {
    predicate Ok() {
      |snapshot| == |state|
    }

    /** What the tests see once the bytes k are named. */
    function Shown(k: set<int>): (s: seq<Byte>)
      requires Ok()
      ensures |s| == |state|
    {
      if First? then Mix(k, snapshot, state) else Mix(k * kept, snapshot, state)
    }

    /** The state that the walk restores from. */
    ghost function Whole(): (s: seq<Byte>)
      requires Ok()
      ensures |s| == |state|
    {
      if First? then state else Mix(kept, snapshot, state)
    }

    /** A stored number. For a second reset one that is named stays that of the state, and one that is not becomes
        that of the snapshot. */
    function Read(at: int, w: Width): Option<int>
      requires Ok()
    {
      var bytes := Range(at, WidthBytes(w));
      if First? || bytes <= kept then Number(state, at, w)
      else if bytes !! kept then Number(snapshot, at, w)
      else Number(Mix(kept, snapshot, state), at, w)
    }
  }

  lemma ReadIs(v: View, at: int, w: Width)
    requires v.Ok()
    ensures v.Read(at, w) == Number(v.Whole(), at, w)
  {
    hide Number;
    if v.Second? {
      var bytes, m := Range(at, WidthBytes(w)), Mix(v.kept, v.snapshot, v.state);
      if bytes <= v.kept {
        SameNumber(v.state, m, at, w);
      } else if bytes !! v.kept {
        SameNumber(v.snapshot, m, at, w);
      }
    }
  }

  /** The number of elements of a field in the structure at base, and their size. */
  function Count(f: Field, base: int, v: View): Option<int>
    requires v.Ok()
  {
    match f.count
    case One => Some(1)
    case Fixed(n) => Some(n)
    case Stored(w, o) => v.Read(base + o, w)
  }

  function Size(f: Field, base: int, v: View): Option<int>
    requires v.Ok()
  {
    match f.size
    case Given(n) => Some(n)
    case Buffer(o, k) => var n := v.Read(base + o, Int32); if n == None then None else Some(n.value * k)
  }

  function Clip(n: int): nat {
    if n < 0 then 0 else n
  }

  // ----- What a description names, after the bytes k -----

  function Names(fs: seq<Field>, base: int, v: View, k: set<int>): set<int>
    requires v.Ok()
    decreases fs, 3, 0
  {
    if fs == [] then {}
    else
      var front := Names(fs[..|fs| - 1], base, v, k);
      front + FieldNames(fs[|fs| - 1], base, v, k + front)
  }

  function FieldNames(f: Field, base: int, v: View, k: set<int>): set<int>
    requires v.Ok()
    decreases f, 2, 0
  {
    var size, n := Size(f, base, v), Count(f, base, v);
    if Present(f.test, v.Shown(k), base) && size.Some? && n.Some?
    then ElementsNames(f, base + f.offset, size.value, Clip(n.value), v, k) else {}
  }

  function ElementsNames(f: Field, at: int, size: int, n: nat, v: View, k: set<int>): set<int>
    requires v.Ok()
    decreases f, 1, n
  {
    if n == 0 then {}
    else
      var front := ElementsNames(f, at, size, n - 1, v, k);
      front + ElementNames(f, at + size * (n - 1), size, v, k + front)
  }

  function ElementNames(f: Field, at: int, size: int, v: View, k: set<int>): set<int>
    requires v.Ok()
    decreases f, 0, 0
  {
    if f.kind.Struct? then Names(f.kind.parts, at, v, k) else Range(at, size)
  }

  /** All that is named, and the numbers read for it, is inside the state. */
  predicate Fit(fs: seq<Field>, base: int, v: View, k: set<int>)
    requires v.Ok()
    decreases fs, 3, 0
  {
    fs == [] ||
    (Fit(fs[..|fs| - 1], base, v, k) && FieldFits(fs[|fs| - 1], base, v, k + Names(fs[..|fs| - 1], base, v, k)))
  }

  predicate FieldFits(f: Field, base: int, v: View, k: set<int>)
    requires v.Ok()
    decreases f, 2, 0
  {
    var size, n := Size(f, base, v), Count(f, base, v);
    Present(f.test, v.Shown(k), base) ==>
      size.Some? && n.Some? && ElementsFit(f, base + f.offset, size.value, Clip(n.value), v, k)
  }

  predicate ElementsFit(f: Field, at: int, size: int, n: nat, v: View, k: set<int>)
    requires v.Ok()
    decreases f, 1, n
  {
    n == 0 || (ElementsFit(f, at, size, n - 1, v, k)
               && ElementFits(f, at + size * (n - 1), size, v, k + ElementsNames(f, at, size, n - 1, v, k)))
  }

  predicate ElementFits(f: Field, at: int, size: int, v: View, k: set<int>)
    requires v.Ok()
    decreases f, 0, 0
  {
    if f.kind.Struct? then Fit(f.kind.parts, at, v, k) else 0 <= at && 0 <= size && at + size <= |v.state|
  }

  // ----- The walk -----

  /** d is the state once the bytes k are restored, or the walk has left it. */
  ghost predicate Is(d: Option<seq<Byte>>, v: View, k: set<int>, fits: bool)
    requires v.Ok()
  {
    d == if fits then Some(v.Shown(k)) else None
  }

  /** The walk restores exactly the bytes named, and leaves the state exactly if they do not fit. */
  lemma {:induction false} LoadNames(fs: seq<Field>, base: int, v: View, k: set<int>)
    requires v.Ok()
    ensures Is(Load(fs, base, v.Shown(k), v.Whole()), v, k + Names(fs, base, v, k), Fit(fs, base, v, k))
    decreases fs, 3, 0
  {
    hide FieldFits, FieldNames, LoadField, View.Shown, View.Whole;
    if fs == [] {
      assert k + {} == k;
    } else {
      var front, f := fs[..|fs| - 1], fs[|fs| - 1];
      var a := Names(front, base, v, k);
      LoadNames(front, base, v, k);
      if Fit(front, base, v, k) {
        FieldLoads(f, base, v, k + a);
        UnionAssoc(k, a, FieldNames(f, base, v, k + a));
      }
    }
  }

  lemma UnionAssoc(a: set<int>, b: set<int>, c: set<int>)
    ensures (a + b) + c == a + (b + c)
  {}

  lemma NumbersAre(f: Field, base: int, v: View)
    requires v.Ok()
    ensures Size(f, base, v) == ElementSize(f.size, base, v.Whole()) && Count(f, base, v) == Elements(f.count, base, v.Whole())
  {
    hide Number, View.Read, View.Whole;
    if f.size.Buffer? {
      ReadIs(v, base + f.size.sizeOffset, Int32);
    }
    if f.count.Stored? {
      ReadIs(v, base + f.count.numOffset, f.count.width);
    }
  }

  lemma {:induction false} FieldLoads(f: Field, base: int, v: View, k: set<int>)
    requires v.Ok()
    ensures Is(LoadField(f, base, v.Shown(k), v.Whole()), v, k + FieldNames(f, base, v, k), FieldFits(f, base, v, k))
    decreases f, 2, 0
  {
    hide LoadElements, ElementsFit, ElementsNames, View.Shown, View.Whole, Size, Count, ElementSize, Elements, Present;
    NumbersAre(f, base, v);
    var size, n := Size(f, base, v), Count(f, base, v);
    if Present(f.test, v.Shown(k), base) {
      if size.Some? && n.Some? {
        ElementsLoad(f, base + f.offset, size.value, Clip(n.value), v, k);
      }
    } else {
      assert k + {} == k;
    }
  }

  lemma {:induction false} ElementsLoad(f: Field, at: int, size: int, n: nat, v: View, k: set<int>)
    requires v.Ok()
    ensures Is(LoadElements(f, at, size, n, v.Shown(k), v.Whole()), v, k + ElementsNames(f, at, size, n, v, k),
               ElementsFit(f, at, size, n, v, k))
    decreases f, 1, n
  {
    hide LoadElement, ElementNames, ElementFits, View.Shown, View.Whole;
    if n == 0 {
      assert k + {} == k;
    } else {
      var a, x := ElementsNames(f, at, size, n - 1, v, k), at + size * (n - 1);
      ElementsLoad(f, at, size, n - 1, v, k);
      if ElementsFit(f, at, size, n - 1, v, k) {
        ElementLoads(f, x, size, v, k + a);
        UnionAssoc(k, a, ElementNames(f, x, size, v, k + a));
      }
    }
  }

  lemma {:induction false} ElementLoads(f: Field, at: int, size: int, v: View, k: set<int>)
    requires v.Ok()
    ensures Is(LoadElement(f, at, size, v.Shown(k), v.Whole()), v, k + ElementNames(f, at, size, v, k), ElementFits(f, at, size, v, k))
    decreases f, 0, 0
  {
    hide Load, Names, Fit, View.Shown, View.Whole;
    if f.kind.Struct? {
      LoadNames(f.kind.parts, at, v, k);
    } else if 0 <= at && 0 <= size && at + size <= |v.state| {
      CopyShown(v, k, at, size);
    }
  }

  /** Restoring a stretch of bytes shows them. */
  lemma CopyShown(v: View, k: set<int>, at: nat, size: nat)
    requires v.Ok() && at + size <= |v.state|
    ensures Patch(v.Shown(k), at, v.Whole()[at..at + size]) == v.Shown(k + Range(at, size))
  {
    hide Patch, Range, Mix;
    var p, t := Patch(v.Shown(k), at, v.Whole()[at..at + size]), v.Shown(k + Range(at, size));
    forall x | 0 <= x < |p| ensures p[x] == t[x] {
      assert x in Range(at, size) <==> at <= x < at + size;
    }
  }

  // ----- The law -----

  /** The bytes a reset keeps, and what a second one reads. */
  function Kept(fs: seq<Field>, snapshot: seq<Byte>, state: seq<Byte>): set<int>
    requires |snapshot| == |state|
  {
    Names(fs, 0, First(snapshot, state), {})
  }

  function Again(fs: seq<Field>, snapshot: seq<Byte>, state: seq<Byte>): (v: View)
    requires |snapshot| == |state|
    ensures v.Ok()
  {
    Second(snapshot, state, Kept(fs, snapshot, state))
  }

  /** One reset, of either kind. */
  lemma ResetNames(fs: seq<Field>, v: View)
    requires v.Ok()
    ensures Is(Reset(fs, v.snapshot, v.Whole()), v, Names(fs, 0, v, {}), Fit(fs, 0, v, {}))
  {
    hide Names, Fit, Load;
    LoadNames(fs, 0, v, {});
    assert v.Shown({}) == v.snapshot;
    assert {} + Names(fs, 0, v, {}) == Names(fs, 0, v, {});
  }

  /** A second reset changes nothing if and only if, by what it reads, the description stays inside the state and
      still names every named byte that differs from the snapshot. */
  lemma IdempotentLaw(fs: seq<Field>, snapshot: seq<Byte>, state: seq<Byte>)
    requires |snapshot| == |state| && Reset(fs, snapshot, state).Some?
    ensures Reset(fs, snapshot, Reset(fs, snapshot, state).value) == Reset(fs, snapshot, state) <==>
              && Fit(fs, 0, Again(fs, snapshot, state), {})
              && forall x :: 0 <= x < |state| && x in Kept(fs, snapshot, state) && state[x] != snapshot[x] ==>
                               x in Names(fs, 0, Again(fs, snapshot, state), {})
  {
    hide Reset, Names, Fit;
    var v, v' := First(snapshot, state), Again(fs, snapshot, state);
    ResetNames(fs, v);
    ResetNames(fs, v');
    var kept, later := Kept(fs, snapshot, state), Names(fs, 0, v', {});
    var r, t := Mix(kept, snapshot, state), Mix(later * kept, snapshot, state);
    assert t == r <==> forall x :: 0 <= x < |r| ==> t[x] == r[x];
  }

  // ----- Field by field -----

  /** What field i names, once the fields before it are restored. */
  function Part(fs: seq<Field>, i: nat, v: View): set<int>
    requires i < |fs| && v.Ok()
  {
    FieldNames(fs[i], 0, v, Names(fs[..i], 0, v, {}))
  }

  lemma {:induction false} NamesIs(fs: seq<Field>, n: nat, v: View, x: int)
    requires v.Ok() && n <= |fs|
    ensures x in Names(fs[..n], 0, v, {}) <==> exists i :: 0 <= i < n && x in Part(fs, i, v)
  {
    hide FieldNames;
    if n > 0 {
      var m := n - 1;
      NamesIs(fs, m, v, x);
      assert fs[..n][..m] == fs[..m];
      assert {} + Names(fs[..m], 0, v, {}) == Names(fs[..m], 0, v, {});
      assert x in Names(fs[..n], 0, v, {}) <==> x in Names(fs[..m], 0, v, {}) || x in Part(fs, m, v);
    }
  }

  /** What one field names in the first reset, no other field names in the second. */
  ghost predicate Separate(fs: seq<Field>, v: View, v': View)
    requires v.Ok() && v'.Ok()
  {
    forall i, j :: 0 <= i < |fs| && 0 <= j < |fs| && i != j ==> Part(fs, i, v) !! Part(fs, j, v')
  }

  /** The bytes of a that are no longer in b are those of the snapshot already. */
  ghost predicate NothingLost(a: set<int>, b: set<int>, snapshot: seq<Byte>, state: seq<Byte>)
    requires |snapshot| == |state|
  {
    forall x :: 0 <= x < |state| && x in a && x !in b ==> state[x] == snapshot[x]
  }

  /** When fields do not share bytes, the law is one about every field on its own. */
  lemma SeparateLaw(fs: seq<Field>, snapshot: seq<Byte>, state: seq<Byte>)
    requires |snapshot| == |state| && Reset(fs, snapshot, state).Some?
    requires Separate(fs, First(snapshot, state), Again(fs, snapshot, state))
    ensures Reset(fs, snapshot, Reset(fs, snapshot, state).value) == Reset(fs, snapshot, state) <==>
              && Fit(fs, 0, Again(fs, snapshot, state), {})
              && forall i :: 0 <= i < |fs| ==>
                   NothingLost(Part(fs, i, First(snapshot, state)), Part(fs, i, Again(fs, snapshot, state)), snapshot, state)
  {
    hide Reset, Names, Fit, Part;
    IdempotentLaw(fs, snapshot, state);
    var v, v' := First(snapshot, state), Again(fs, snapshot, state);
    assert fs[..|fs|] == fs;
    forall x ensures x in Names(fs, 0, v, {}) <==> exists i :: 0 <= i < |fs| && x in Part(fs, i, v) {
      NamesIs(fs, |fs|, v, x);
    }
    forall x ensures x in Names(fs, 0, v', {}) <==> exists i :: 0 <= i < |fs| && x in Part(fs, i, v') {
      NamesIs(fs, |fs|, v', x);
    }
  }

  /** A plain field of n elements names one stretch of bytes. */
  lemma {:induction false} PlainNames(f: Field, at: int, size: int, n: nat, v: View, k: set<int>, x: int)
    requires f.kind.Plain? && size >= 0 && v.Ok()
    ensures x in ElementsNames(f, at, size, n, v, k) <==> at <= x < at + size * n
  {
    if n > 0 {
      PlainNames(f, at, size, n - 1, v, k, x);
      assert size * n == size * (n - 1) + size;
    }
  }

  lemma ElementsOf(f: Field, size: nat, n: int, v: View, k: set<int>, x: int)
    requires f.kind.Plain? && v.Ok() && Present(f.test, v.Shown(k), 0) && Size(f, 0, v) == Some(size) && Count(f, 0, v) == Some(n)
    ensures x in FieldNames(f, 0, v, k) <==> f.offset <= x < f.offset + size * Clip(n)
  {
    hide Size, Count, ElementsNames, View.Shown, Present;
    PlainNames(f, f.offset, size, Clip(n), v, k, x);
  }

  /** For a plain field whose element size stays, what is lost are the elements between the two numbers. */
  lemma LostElements(f: Field, size: nat, n: int, n': int, v: View, k: set<int>, v': View, k': set<int>,
                     snapshot: seq<Byte>, state: seq<Byte>)
    requires f.kind.Plain? && |snapshot| == |state| && v.Ok() && v'.Ok()
    requires Present(f.test, v.Shown(k), 0) && Present(f.test, v'.Shown(k'), 0)
    requires Size(f, 0, v) == Size(f, 0, v') == Some(size) && Count(f, 0, v) == Some(n) && Count(f, 0, v') == Some(n')
    ensures NothingLost(FieldNames(f, 0, v, k), FieldNames(f, 0, v', k'), snapshot, state) <==>
            forall x :: 0 <= x < |state| && f.offset + size * Clip(n') <= x < f.offset + size * Clip(n) ==> state[x] == snapshot[x]
  {
    hide FieldNames, Size, Count, View.Shown, Present;
    forall x
      ensures x in FieldNames(f, 0, v, k) <==> f.offset <= x < f.offset + size * Clip(n)
      ensures x in FieldNames(f, 0, v', k') <==> f.offset <= x < f.offset + size * Clip(n')
    {
      ElementsOf(f, size, n, v, k, x);
      ElementsOf(f, size, n', v', k', x);
    }
    MulMono(0, Clip(n'), size);
  }

  /** A byte that field i names in the first reset, that it does not name in the second, and that no other field does. */
  lemma LostByte(fs: seq<Field>, v: View, v': View, i: nat, x: int)
    requires v.Ok() && v'.Ok() && i < |fs| && x in Part(fs, i, v) && x !in Part(fs, i, v')
    requires forall j :: 0 <= j < |fs| && j != i ==> x !in Part(fs, j, v')
    ensures x in Names(fs, 0, v, {}) && x !in Names(fs, 0, v', {})
  {
    hide Part, Names;
    assert fs[..|fs|] == fs;
    NamesIs(fs, |fs|, v, x);
    NamesIs(fs, |fs|, v', x);
  }

  /** Every description with an array whose stored number is not named fails on every state that has more
      elements than the snapshot, one of which differs from it in a byte that no other field names. */
  lemma NumberLost(fs: seq<Field>, snapshot: seq<Byte>, state: seq<Byte>, i: nat, x: nat)
    requires |snapshot| == |state| && Reset(fs, snapshot, state).Some?
    requires i < |fs| && PlainArray(fs[i])
    requires Range(fs[i].count.numOffset, WidthBytes(fs[i].count.width)) !! Kept(fs, snapshot, state)
    requires x < |state| && state[x] != snapshot[x]
    requires ElementEnd(fs[i], First(snapshot, snapshot)) <= x < ElementEnd(fs[i], First(snapshot, state))
    requires forall j :: 0 <= j < |fs| && j != i ==> x !in Part(fs, j, Again(fs, snapshot, state))
    ensures Reset(fs, snapshot, Reset(fs, snapshot, state).value) != Reset(fs, snapshot, state)
  {
    hide Reset, Names, Fit, FieldNames, Range, ElementEnd;
    var f, v, v' := fs[i], First(snapshot, state), Again(fs, snapshot, state);
    UnkeptNumber(f, v');
    ArrayNames(f, v, Names(fs[..i], 0, v, {}), x);
    ArrayNames(f, v', Names(fs[..i], 0, v', {}), x);
    ArrayNames(f, First(snapshot, snapshot), {}, x);
    LostByte(fs, v, v', i, x);
    IdempotentLaw(fs, snapshot, state);
  }

  /** An array of plain elements of a given size, with a stored number, that is always present. */
  predicate PlainArray(f: Field) {
    f.kind.Plain? && f.count.Stored? && f.size.Given? && f.size.size >= 0 && f.test.Always?
  }

  /** Where the elements of an array end, by the number stored. */
  function ElementEnd(f: Field, v: View): int
    requires PlainArray(f) && v.Ok()
  {
    var n := Count(f, 0, v);
    f.offset + f.size.size * if n.Some? then Clip(n.value) else 0
  }

  /** An array whose number is not named has the snapshot's number later. */
  lemma UnkeptNumber(f: Field, v: View)
    requires v.Ok() && v.Second? && PlainArray(f) && Range(f.count.numOffset, WidthBytes(f.count.width)) !! v.kept
    ensures ElementEnd(f, v) == ElementEnd(f, First(v.snapshot, v.snapshot))
  {
    hide Number;
    assert f.count.numOffset in Range(f.count.numOffset, WidthBytes(f.count.width));
  }

  lemma ArrayNames(f: Field, v: View, k: set<int>, x: int)
    requires PlainArray(f) && v.Ok()
    ensures x in FieldNames(f, 0, v, k) <==> f.offset <= x < ElementEnd(f, v)
    ensures f.offset <= ElementEnd(f, v)
  {
    hide View.Read, View.Shown;
    var n := Count(f, 0, v);
    if n.Some? {
      ElementsOf(f, f.size.size, n.value, v, k, x);
      MulMono(0, Clip(n.value), f.size.size);
    }
  }
}
