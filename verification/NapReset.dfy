/**
  The nap reset of a device: its state is set back to a snapshot, except for the bytes its field
  description names, which keep their values. A description names fields by offset; the number and
  the size of array elements may themselves be stored in the state, and a field may be a structure
  with a description of its own.
 */
module NapReset {
  import opened Bytes
  import opened Common

  datatype Width = Int32 | UInt32 | UInt16 | UInt8

  /** How many elements: one, a number given in the description, or one stored in the state. */
  datatype Count = One | Fixed(num: int) | Stored(width: Width, numOffset: int)

  /** How large an element: given, or stored in the state and perhaps multiplied. */
  datatype Size = Given(size: int) | Buffer(sizeOffset: int, factor: int)

  /** The test reads the state that is being restored, from the base of the structure on. */
  datatype Test = Always | When(holds: (seq<Byte>, int) -> bool)

  /** A field holds plain bytes or a structure described by fields of its own. */
  datatype Kind = Plain | Struct(parts: seq<Field>)

  datatype Field = Field(offset: int, size: Size, count: Count, test: Test, kind: Kind)

  // ----- Numbers stored in the state -----

  function WidthBytes(w: Width): nat {
    match w
    case Int32 => 4
    case UInt32 => 4
    case UInt16 => 2
    case UInt8 => 1
  }

  /** A little-endian number of k bytes. */
  function Little(s: seq<Byte>, at: nat, k: nat): nat
    requires at + k <= |s|
    decreases k
  {
    if k == 0 then 0 else Little(s, at + 1, k - 1) * 256 + s[at]
  }

  /** A number stored in the state; one of four bytes goes through an int. */
  function Number(s: seq<Byte>, at: int, w: Width): Option<int> {
    if !(0 <= at && at + WidthBytes(w) <= |s|) then None
    else
      var v := Little(s, at, WidthBytes(w));
      Some(if v < 0x8000_0000 then v else v - 0x1_0000_0000)
  }

  /** The numbers byte by byte: little-endian, the four-byte ones with a sign. */
  lemma NumberBytes(s: seq<Byte>, at: nat)
    ensures at + 1 <= |s| ==> Number(s, at, UInt8) == Some(s[at])
    ensures at + 2 <= |s| ==> var a: nat, b: nat := s[at], s[at + 1]; Number(s, at, UInt16) == Some(a + 256 * b)
    ensures at + 4 <= |s| ==>
              var a: nat, b: nat, c: nat, d: nat := s[at], s[at + 1], s[at + 2], s[at + 3];
              Number(s, at, Int32) == Number(s, at, UInt32) == Some(a + 256 * b + 0x1_0000 * c + 0x100_0000 * (if d < 128 then d else d - 256))
  {
    if at + 4 <= |s| {
      assert Little(s, at + 4, 0) == 0;
      assert Little(s, at + 3, 1) == s[at + 3];
      assert Little(s, at + 2, 2) == Little(s, at + 3, 1) * 256 + s[at + 2];
      assert Little(s, at + 1, 3) == Little(s, at + 2, 2) * 256 + s[at + 1];
      assert Little(s, at, 4) == Little(s, at + 1, 3) * 256 + s[at];
    }
    if at + 1 <= |s| {
      assert Little(s, at, 1) == Little(s, at + 1, 0) * 256 + s[at];
    }
    if at + 2 <= |s| {
      assert Little(s, at + 1, 1) == s[at + 1];
      assert Little(s, at, 2) == Little(s, at + 1, 1) * 256 + s[at];
    }
  }

  function Elements(c: Count, base: int, swap: seq<Byte>): Option<int> {
    match c
    case One => Some(1)
    case Fixed(n) => Some(n)
    case Stored(w, o) => Number(swap, base + o, w)
  }

  function ElementSize(z: Size, base: int, swap: seq<Byte>): Option<int> {
    match z
    case Given(n) => Some(n)
    case Buffer(o, k) => var n := Number(swap, base + o, Int32); if n == None then None else Some(n.value * k)
  }

  predicate Present(t: Test, dst: seq<Byte>, base: int) {
    t.When? ==> t.holds(dst, base)
  }

  // ----- device_load_state -----

  /** The state after the fields have been copied from swap; None when the walk leaves the state. */
  function Load(fs: seq<Field>, base: int, dst: seq<Byte>, swap: seq<Byte>): (r: Option<seq<Byte>>)
    ensures r.Some? ==> |r.value| == |dst|
    decreases fs, 3, 0
  {
    if fs == [] then Some(dst)
    else
      var d := Load(fs[..|fs| - 1], base, dst, swap);
      if d == None then None else LoadField(fs[|fs| - 1], base, d.value, swap)
  }

  function LoadField(f: Field, base: int, dst: seq<Byte>, swap: seq<Byte>): (r: Option<seq<Byte>>)
    ensures r.Some? ==> |r.value| == |dst|
    decreases f, 2, 0
  {
    if !Present(f.test, dst, base) then Some(dst)
    else
      var size, n := ElementSize(f.size, base, swap), Elements(f.count, base, swap);
      if size == None || n == None then None
      else LoadElements(f, base + f.offset, size.value, if n.value < 0 then 0 else n.value, dst, swap)
  }

  function LoadElements(f: Field, at: int, size: int, n: nat, dst: seq<Byte>, swap: seq<Byte>): (r: Option<seq<Byte>>)
    ensures r.Some? ==> |r.value| == |dst|
    decreases f, 1, n
  {
    if n == 0 then Some(dst)
    else
      var d := LoadElements(f, at, size, n - 1, dst, swap);
      if d == None then None else LoadElement(f, at + size * (n - 1), size, d.value, swap)
  }

  function LoadElement(f: Field, at: int, size: int, dst: seq<Byte>, swap: seq<Byte>): (r: Option<seq<Byte>>)
    ensures r.Some? ==> |r.value| == |dst|
    decreases f, 0, 0
  {
    if f.kind.Struct? then Load(f.kind.parts, at, dst, swap)
    else if 0 <= at && 0 <= size && at + size <= |dst| && at + size <= |swap| then Some(Patch(dst, at, swap[at..at + size]))
    else None
  }

  // ----- The bytes a description names -----

  /** The bytes kept, and the bytes read as numbers of elements or sizes. */
  datatype Access = Access(kept: set<int>, read: set<int>)

  function Nothing(): Access {
    Access({}, {})
  }

  function Both(a: Access, b: Access): Access {
    Access(a.kept + b.kept, a.read + b.read)
  }

  function Range(at: int, n: int): (r: set<int>)
    ensures forall x :: x in r <==> at <= x < at + n
  {
    if n <= 0 then {} else Range(at, n - 1) + {at + n - 1}
  }

  function ReadBy(f: Field, base: int): set<int> {
    (if f.count.Stored? then Range(base + f.count.numOffset, WidthBytes(f.count.width)) else {})
    + (if f.size.Buffer? then Range(base + f.size.sizeOffset, 4) else {})
  }

  function Named(fs: seq<Field>, base: int, dst: seq<Byte>, swap: seq<Byte>): Access
    decreases fs, 3, 0
  {
    if fs == [] then Nothing()
    else
      var d := Load(fs[..|fs| - 1], base, dst, swap);
      Both(Named(fs[..|fs| - 1], base, dst, swap), if d == None then Nothing() else NamedField(fs[|fs| - 1], base, d.value, swap))
  }

  function NamedField(f: Field, base: int, dst: seq<Byte>, swap: seq<Byte>): Access
    decreases f, 2, 0
  {
    if !Present(f.test, dst, base) then Nothing()
    else
      var size, n := ElementSize(f.size, base, swap), Elements(f.count, base, swap);
      Both(Access({}, ReadBy(f, base)),
           if size == None || n == None then Nothing()
           else NamedElements(f, base + f.offset, size.value, if n.value < 0 then 0 else n.value, dst, swap))
  }

  function NamedElements(f: Field, at: int, size: int, n: nat, dst: seq<Byte>, swap: seq<Byte>): Access
    decreases f, 1, n
  {
    if n == 0 then Nothing()
    else
      var d := LoadElements(f, at, size, n - 1, dst, swap);
      Both(NamedElements(f, at, size, n - 1, dst, swap),
           if d == None then Nothing() else NamedElement(f, at + size * (n - 1), size, d.value, swap))
  }

  function NamedElement(f: Field, at: int, size: int, dst: seq<Byte>, swap: seq<Byte>): Access
    decreases f, 0, 0
  {
    if f.kind.Struct? then Named(f.kind.parts, at, dst, swap) else Access(Range(at, size), {})
  }

  // ----- What the walk does to a byte -----

  ghost predicate Restored(d: Option<seq<Byte>>, dst: seq<Byte>, swap: seq<Byte>, kept: set<int>, x: int)
    requires 0 <= x < |dst| == |swap|
  {
    d.Some? ==> |d.value| == |dst| && d.value[x] == if x in kept then swap[x] else dst[x]
  }

  lemma {:induction false} LoadByte(fs: seq<Field>, base: int, dst: seq<Byte>, swap: seq<Byte>, x: int)
    requires 0 <= x < |dst| == |swap|
    ensures Restored(Load(fs, base, dst, swap), dst, swap, Named(fs, base, dst, swap).kept, x)
    decreases fs, 3, 0
  {
    if fs != [] {
      var d := Load(fs[..|fs| - 1], base, dst, swap);
      LoadByte(fs[..|fs| - 1], base, dst, swap, x);
      if d.Some? {
        LoadFieldByte(fs[|fs| - 1], base, d.value, swap, x);
      }
    }
  }

  lemma {:induction false} LoadFieldByte(f: Field, base: int, dst: seq<Byte>, swap: seq<Byte>, x: int)
    requires 0 <= x < |dst| == |swap|
    ensures Restored(LoadField(f, base, dst, swap), dst, swap, NamedField(f, base, dst, swap).kept, x)
    decreases f, 2, 0
  {
    var size, n := ElementSize(f.size, base, swap), Elements(f.count, base, swap);
    if Present(f.test, dst, base) && size.Some? && n.Some? {
      LoadElementsByte(f, base + f.offset, size.value, if n.value < 0 then 0 else n.value, dst, swap, x);
    }
  }

  lemma {:induction false} LoadElementsByte(f: Field, at: int, size: int, n: nat, dst: seq<Byte>, swap: seq<Byte>, x: int)
    requires 0 <= x < |dst| == |swap|
    ensures Restored(LoadElements(f, at, size, n, dst, swap), dst, swap, NamedElements(f, at, size, n, dst, swap).kept, x)
    decreases f, 1, n
  {
    if n > 0 {
      var d := LoadElements(f, at, size, n - 1, dst, swap);
      LoadElementsByte(f, at, size, n - 1, dst, swap, x);
      if d.Some? {
        LoadElementByte(f, at + size * (n - 1), size, d.value, swap, x);
      }
    }
  }

  lemma {:induction false} LoadElementByte(f: Field, at: int, size: int, dst: seq<Byte>, swap: seq<Byte>, x: int)
    requires 0 <= x < |dst| == |swap|
    ensures Restored(LoadElement(f, at, size, dst, swap), dst, swap, NamedElement(f, at, size, dst, swap).kept, x)
    decreases f, 0, 0
  {
    if f.kind.Struct? {
      LoadByte(f.kind.parts, at, dst, swap, x);
    }
  }

  // ----- The walk depends on the named bytes only -----

  ghost predicate Agree(s: seq<Byte>, t: seq<Byte>, a: Access) {
    |s| == |t| && forall x :: 0 <= x < |s| && (x in a.kept || x in a.read) ==> s[x] == t[x]
  }

  lemma {:induction false} SameLittle(s: seq<Byte>, t: seq<Byte>, at: nat, k: nat)
    requires at + k <= |s| == |t| && forall x :: at <= x < at + k ==> s[x] == t[x]
    ensures Little(s, at, k) == Little(t, at, k)
    decreases k
  {
    if k > 0 {
      SameLittle(s, t, at + 1, k - 1);
    }
  }

  lemma SameNumber(s: seq<Byte>, t: seq<Byte>, at: int, w: Width)
    requires |s| == |t| && forall x :: 0 <= x < |s| && x in Range(at, WidthBytes(w)) ==> s[x] == t[x]
    ensures Number(s, at, w) == Number(t, at, w)
  {
    if 0 <= at && at + WidthBytes(w) <= |s| {
      SameLittle(s, t, at, WidthBytes(w));
    }
  }

  lemma SameNumbers(f: Field, base: int, s: seq<Byte>, t: seq<Byte>)
    requires Agree(s, t, Access({}, ReadBy(f, base)))
    ensures ElementSize(f.size, base, s) == ElementSize(f.size, base, t) && Elements(f.count, base, s) == Elements(f.count, base, t)
  {
    hide Number;
    if f.count.Stored? {
      SameNumber(s, t, base + f.count.numOffset, f.count.width);
    }
    if f.size.Buffer? {
      SameNumber(s, t, base + f.size.sizeOffset, Int32);
    }
  }

  lemma AgreeParts(s: seq<Byte>, t: seq<Byte>, a: Access, b: Access)
    requires Agree(s, t, Both(a, b))
    ensures Agree(s, t, a) && Agree(s, t, b)
  {}

  lemma {:induction false} SameLoad(fs: seq<Field>, base: int, dst: seq<Byte>, s: seq<Byte>, t: seq<Byte>)
    requires Agree(s, t, Named(fs, base, dst, s))
    ensures Load(fs, base, dst, t) == Load(fs, base, dst, s) && Named(fs, base, dst, t) == Named(fs, base, dst, s)
    decreases fs, 3, 0
  {
    hide Agree;
    if fs != [] {
      var front, f := fs[..|fs| - 1], fs[|fs| - 1];
      var d := Load(front, base, dst, s);
      AgreeParts(s, t, Named(front, base, dst, s), if d == None then Nothing() else NamedField(f, base, d.value, s));
      SameLoad(front, base, dst, s, t);
      if d.Some? {
        SameField(f, base, d.value, s, t);
      }
    }
  }

  lemma {:induction false} SameField(f: Field, base: int, dst: seq<Byte>, s: seq<Byte>, t: seq<Byte>)
    requires Agree(s, t, NamedField(f, base, dst, s))
    ensures LoadField(f, base, dst, t) == LoadField(f, base, dst, s) && NamedField(f, base, dst, t) == NamedField(f, base, dst, s)
    decreases f, 2, 0
  {
    hide Agree, ReadBy;
    if Present(f.test, dst, base) {
      var size, n := ElementSize(f.size, base, s), Elements(f.count, base, s);
      var rest := if size == None || n == None then Nothing()
                  else NamedElements(f, base + f.offset, size.value, if n.value < 0 then 0 else n.value, dst, s);
      AgreeParts(s, t, Access({}, ReadBy(f, base)), rest);
      SameNumbers(f, base, s, t);
      if size.Some? && n.Some? {
        SameElements(f, base + f.offset, size.value, if n.value < 0 then 0 else n.value, dst, s, t);
      }
    }
  }

  lemma {:induction false} SameElements(f: Field, at: int, size: int, n: nat, dst: seq<Byte>, s: seq<Byte>, t: seq<Byte>)
    requires Agree(s, t, NamedElements(f, at, size, n, dst, s))
    ensures LoadElements(f, at, size, n, dst, t) == LoadElements(f, at, size, n, dst, s)
    ensures NamedElements(f, at, size, n, dst, t) == NamedElements(f, at, size, n, dst, s)
    decreases f, 1, n
  {
    hide Agree;
    if n > 0 {
      var d := LoadElements(f, at, size, n - 1, dst, s);
      AgreeParts(s, t, NamedElements(f, at, size, n - 1, dst, s),
                 if d == None then Nothing() else NamedElement(f, at + size * (n - 1), size, d.value, s));
      SameElements(f, at, size, n - 1, dst, s, t);
      if d.Some? {
        SameElement(f, at + size * (n - 1), size, d.value, s, t);
      }
    }
  }

  lemma {:induction false} SameElement(f: Field, at: int, size: int, dst: seq<Byte>, s: seq<Byte>, t: seq<Byte>)
    requires Agree(s, t, NamedElement(f, at, size, dst, s))
    ensures LoadElement(f, at, size, dst, t) == LoadElement(f, at, size, dst, s)
    ensures NamedElement(f, at, size, dst, t) == NamedElement(f, at, size, dst, s)
    decreases f, 0, 0
  {
    if f.kind.Struct? {
      SameLoad(f.kind.parts, at, dst, s, t);
    } else if 0 <= at && 0 <= size && at + size <= |dst| && at + size <= |s| {
      assert s[at..at + size] == t[at..at + size];
    }
  }

  // ----- The reset -----

  /** device_nap_reset on a state of the registered size: None when the description leaves the state. */
  function Reset(fs: seq<Field>, snapshot: seq<Byte>, state: seq<Byte>): Option<seq<Byte>> {
    Load(fs, 0, snapshot, state)
  }

  function NamedIn(fs: seq<Field>, snapshot: seq<Byte>, state: seq<Byte>): Access {
    Named(fs, 0, snapshot, state)
  }

  /** Every named byte keeps its value, every other byte is that of the snapshot. */
  lemma ResetIs(fs: seq<Field>, snapshot: seq<Byte>, state: seq<Byte>)
    requires |snapshot| == |state| && Reset(fs, snapshot, state).Some?
    ensures var r, kept := Reset(fs, snapshot, state).value, NamedIn(fs, snapshot, state).kept;
            && |r| == |state|
            && forall x :: 0 <= x < |r| ==> r[x] == if x in kept then state[x] else snapshot[x]
  {
    var r, kept := Reset(fs, snapshot, state).value, NamedIn(fs, snapshot, state).kept;
    forall x | 0 <= x < |r| ensures r[x] == if x in kept then state[x] else snapshot[x] {
      LoadByte(fs, 0, snapshot, state, x);
    }
  }

  /** States that agree on the named bytes become the same. */
  lemma ResetConverges(fs: seq<Field>, snapshot: seq<Byte>, s: seq<Byte>, t: seq<Byte>)
    requires Agree(s, t, NamedIn(fs, snapshot, s))
    ensures Reset(fs, snapshot, t) == Reset(fs, snapshot, s)
  {
    SameLoad(fs, 0, snapshot, s, t);
  }

  /** The numbers the walk reads are kept, or are those of the snapshot. */
  ghost predicate NumbersKept(fs: seq<Field>, snapshot: seq<Byte>, state: seq<Byte>)
    requires |snapshot| == |state|
  {
    var a := NamedIn(fs, snapshot, state);
    forall x :: x in a.read && 0 <= x < |state| ==> x in a.kept || state[x] == snapshot[x]
  }

  /** A second reset changes nothing. */
  lemma ResetIdempotent(fs: seq<Field>, snapshot: seq<Byte>, state: seq<Byte>)
    requires |snapshot| == |state| && Reset(fs, snapshot, state).Some? && NumbersKept(fs, snapshot, state)
    ensures Reset(fs, snapshot, Reset(fs, snapshot, state).value) == Reset(fs, snapshot, state)
  {
    hide Reset, NamedIn;
    ResetIs(fs, snapshot, state);
    ResetConverges(fs, snapshot, state, Reset(fs, snapshot, state).value);
  }

  /** A number of elements that is not itself named: the second reset names less. */
  lemma ResetNotIdempotent()
    ensures var fs := [Field(1, Given(1), Stored(UInt8, 0), Always, Plain)];
            && Reset(fs, [0, 0], [1, 7]) == Some([0, 7])
            && Reset(fs, [0, 0], [0, 7]) == Some([0, 0])
  {
    var f := Field(1, Given(1), Stored(UInt8, 0), Always, Plain);
    var fs := [f];
    assert fs[..0] == [];
    ExampleRun(f, [1, 7], 1);
    ExampleRun(f, [0, 7], 0);
  }

  lemma ExampleRun(f: Field, state: seq<Byte>, n: nat)
    requires f == Field(1, Given(1), Stored(UInt8, 0), Always, Plain) && |state| == 2 && state[0] == n <= 1
    ensures Reset([f], [0, 0], state) == Some(if n == 1 then [0, state[1]] else [0, 0])
  {
    var zero: seq<Byte> := [0, 0];
    ExampleNumber(state, n);
    ExampleElements(f, state, n);
    hide LoadElements, Number;
    assert [f][..0] == [];
    assert Load([f][..0], 0, zero, state) == Some(zero);
    assert LoadField(f, 0, zero, state) == LoadElements(f, 1, 1, n, zero, state);
    assert Load([f], 0, zero, state) == LoadField(f, 0, zero, state);
  }

  lemma ExampleNumber(state: seq<Byte>, n: nat)
    requires |state| == 2 && state[0] == n
    ensures Number(state, 0, UInt8) == Some(n)
  {
    assert Little(state, 0, 1) == Little(state, 1, 0) * 256 + state[0];
  }

  lemma ExampleElements(f: Field, state: seq<Byte>, n: nat)
    requires f.kind.Plain? && |state| == 2 && n <= 1
    ensures LoadElements(f, 1, 1, n, [0, 0], state) == Some(if n == 1 then [0, state[1]] else [0, 0])
  {
    assert LoadElements(f, 1, 1, 0, [0, 0], state) == Some([0, 0]);
    if n == 1 {
      assert Patch([0, 0], 1, state[1..2]) == [0, state[1]];
    }
  }

  // ----- Descriptions without stored numbers -----

  /** No number of elements and no size is stored in the state. */
  ghost predicate Static(fs: seq<Field>)
    decreases fs
  {
    forall i :: 0 <= i < |fs| ==> StaticField(fs[i])
  }

  ghost predicate StaticField(f: Field)
    decreases f
  {
    !f.count.Stored? && !f.size.Buffer? && (f.kind.Struct? ==> Static(f.kind.parts))
  }

  lemma {:induction false} StaticReads(fs: seq<Field>, base: int, dst: seq<Byte>, swap: seq<Byte>)
    requires Static(fs)
    ensures Named(fs, base, dst, swap).read == {}
    decreases fs, 3, 0
  {
    if fs != [] {
      var front, f := fs[..|fs| - 1], fs[|fs| - 1];
      var d := Load(front, base, dst, swap);
      StaticReads(front, base, dst, swap);
      if d.Some? {
        var size, n := ElementSize(f.size, base, swap), Elements(f.count, base, swap);
        StaticElements(f, base + f.offset, size.value, if n.value < 0 then 0 else n.value, d.value, swap);
      }
    }
  }

  lemma {:induction false} StaticElements(f: Field, at: int, size: int, n: nat, dst: seq<Byte>, swap: seq<Byte>)
    requires StaticField(f)
    ensures NamedElements(f, at, size, n, dst, swap).read == {}
    decreases f, 1, n
  {
    if n > 0 {
      var d := LoadElements(f, at, size, n - 1, dst, swap);
      StaticElements(f, at, size, n - 1, dst, swap);
      if d.Some? && f.kind.Struct? {
        StaticReads(f.kind.parts, at + size * (n - 1), d.value, swap);
      }
    }
  }

  /** Without stored numbers, the reset is idempotent on every state, and states that agree on the kept
      bytes become the same. */
  lemma StaticReset(fs: seq<Field>, snapshot: seq<Byte>, state: seq<Byte>, other: seq<Byte>)
    requires Static(fs) && |snapshot| == |state| == |other| && Reset(fs, snapshot, state).Some?
    ensures Reset(fs, snapshot, Reset(fs, snapshot, state).value) == Reset(fs, snapshot, state)
    ensures (forall x :: 0 <= x < |state| && x in NamedIn(fs, snapshot, state).kept ==> state[x] == other[x]) ==>
              Reset(fs, snapshot, other) == Reset(fs, snapshot, state)
  {
    StaticReads(fs, 0, snapshot, state);
    ResetIdempotent(fs, snapshot, state);
    if forall x :: 0 <= x < |state| && x in NamedIn(fs, snapshot, state).kept ==> state[x] == other[x] {
      ResetConverges(fs, snapshot, state, other);
    }
  }

  // ----- In place -----

  lemma {:induction false} LoadPrefix(fs: seq<Field>, i: nat, base: int, dst: seq<Byte>, swap: seq<Byte>)
    requires i < |fs| && Load(fs, base, dst, swap).Some?
    ensures var d := Load(fs[..i], base, dst, swap);
            d.Some? && LoadField(fs[i], base, d.value, swap).Some?
            && Load(fs[..i + 1], base, dst, swap) == LoadField(fs[i], base, d.value, swap)
    decreases |fs|
  {
    hide LoadField;
    assert fs[..i + 1][..i] == fs[..i];
    if i < |fs| - 1 {
      LoadPrefix(fs[..|fs| - 1], i, base, dst, swap);
      assert fs[..|fs| - 1][..i] == fs[..i] && fs[..|fs| - 1][..i + 1] == fs[..i + 1];
    } else {
      assert fs[..i + 1] == fs;
    }
  }

  lemma {:induction false} ElementsPrefix(f: Field, at: int, size: int, i: nat, n: nat, dst: seq<Byte>, swap: seq<Byte>)
    requires i < n && LoadElements(f, at, size, n, dst, swap).Some?
    ensures var d := LoadElements(f, at, size, i, dst, swap);
            d.Some? && LoadElement(f, at + size * i, size, d.value, swap).Some?
            && LoadElements(f, at, size, i + 1, dst, swap) == LoadElement(f, at + size * i, size, d.value, swap)
    decreases n
  {
    hide LoadElement;
    if i < n - 1 {
      ElementsPrefix(f, at, size, i, n - 1, dst, swap);
    }
  }

  /** device_load_state, for a walk that stays inside the state. */
  method DeviceLoadState(fs: seq<Field>, base: int, state: array<Byte>, swapspace: array<Byte>)
    requires state != swapspace && Load(fs, base, state[..], swapspace[..]).Some?
    modifies state
    ensures Some(state[..]) == old(Load(fs, base, state[..], swapspace[..]))
    decreases fs, 3
  {
    hide LoadField;
    ghost var dst, swap := state[..], swapspace[..];
    for i := 0 to |fs|
      invariant swapspace[..] == swap && Load(fs[..i], base, dst, swap) == Some(state[..])
    {
      LoadPrefix(fs, i, base, dst, swap);
      RestoreField(fs[i], base, state, swapspace);
    }
    assert fs[..|fs|] == fs;
  }

  /** One field of device_load_state. */
  method RestoreField(f: Field, base: int, state: array<Byte>, swapspace: array<Byte>)
    requires state != swapspace && LoadField(f, base, state[..], swapspace[..]).Some?
    modifies state
    ensures Some(state[..]) == old(LoadField(f, base, state[..], swapspace[..]))
    decreases f, 2
  {
    hide LoadElements, LoadElement;
    ghost var dst, swap := state[..], swapspace[..];
    if Present(f.test, state[..], base) {
      var size := ElementSize(f.size, base, swapspace[..]).value;
      var n := Elements(f.count, base, swapspace[..]).value;
      var at := base + f.offset;
      var i := 0;
      NoElements(f, at, size, dst, swap);
      while i < n
        invariant 0 <= i && (n < 0 || i <= n) && (n < 0 ==> i == 0)
        invariant swapspace[..] == swap && LoadElements(f, at, size, i, dst, swap) == Some(state[..])
      {
        ElementsPrefix(f, at, size, i, n, dst, swap);
        RestoreElement(f, at + size * i, size, state, swapspace);
        i := i + 1;
      }
    }
  }

  lemma NoElements(f: Field, at: int, size: int, dst: seq<Byte>, swap: seq<Byte>)
    ensures LoadElements(f, at, size, 0, dst, swap) == Some(dst)
  {}

  method RestoreElement(f: Field, at: int, size: int, state: array<Byte>, swapspace: array<Byte>)
    requires state != swapspace && LoadElement(f, at, size, state[..], swapspace[..]).Some?
    modifies state
    ensures Some(state[..]) == old(LoadElement(f, at, size, state[..], swapspace[..]))
    decreases f, 0
  {
    if f.kind.Struct? {
      DeviceLoadState(f.kind.parts, at, state, swapspace);
    } else {
      Memcpy(state, at, swapspace, at, size);
    }
  }

  method Memcpy(to: array<Byte>, at: nat, from: array<Byte>, start: nat, n: nat)
    requires to != from && at + n <= to.Length && start + n <= from.Length
    modifies to
    ensures to[..] == Patch(old(to[..]), at, from[start..start + n])
  {
    ghost var was := to[..];
    for i := 0 to n
      invariant to[..] == Patch(was, at, from[start..start + i])
    {
      to[at + i] := from[start + i];
    }
  }

  /** An entry of g_dss. */
  class DevSnapshot {
    const devname: string
    const fields: seq<Field>
    const snapshot: array<Byte>
    const swapspace: array<Byte>

    constructor (devname: string, fields: seq<Field>, snapshot: array<Byte>, swapspace: array<Byte>)
      ensures this.devname == devname && this.fields == fields && this.snapshot == snapshot && this.swapspace == swapspace
    {
      this.devname, this.fields, this.snapshot, this.swapspace := devname, fields, snapshot, swapspace;
    }

    /** The entry can be used for the state. */
    predicate Fits(state: array<Byte>)
      reads snapshot, state
    {
      && snapshot != swapspace && state != swapspace && state != snapshot
      && snapshot.Length == swapspace.Length == state.Length
      && Reset(fields, snapshot[..], state[..]).Some?
    }
  }

  /** The first entry for the name. */
  function FindSnapshot(dss: seq<DevSnapshot>, name: string): (i: nat)
    ensures i <= |dss| && (i < |dss| ==> dss[i].devname == name)
    ensures forall k :: 0 <= k < i ==> dss[k].devname != name
  {
    if dss == [] || dss[0].devname == name then 0 else 1 + FindSnapshot(dss[1..], name)
  }

  /** What device_nap_reset may write: the state, and the swap space of the entry it finds. */
  function Touched(dss: seq<DevSnapshot>, name: string, state: array<Byte>): set<object> {
    {state} + (var i := FindSnapshot(dss, name); if i < |dss| then {dss[i].swapspace} else {})
  }

  /** device_nap_reset: the named bytes keep their values and the others are those of the snapshot;
      without an entry nothing changes. */
  method DeviceNapReset(dss: seq<DevSnapshot>, name: string, state: array<Byte>) returns (found: bool)
    requires var i := FindSnapshot(dss, name); i < |dss| ==> dss[i].Fits(state)
    modifies Touched(dss, name, state)
    ensures found <==> exists i :: 0 <= i < |dss| && dss[i].devname == name
    ensures !found ==> state[..] == old(state[..])
    ensures found ==> var d := dss[FindSnapshot(dss, name)];
                      d.snapshot[..] == old(d.snapshot[..]) && Some(state[..]) == old(Reset(d.fields, d.snapshot[..], state[..]))
  {
    hide Load;
    var i := 0;
    ghost var at := FindSnapshot(dss, name);
    while i < |dss|
      invariant i <= at && state[..] == old(state[..])
      invariant at < |dss| ==> dss[at].Fits(state) && dss[at].snapshot[..] == old(dss[at].snapshot[..])
    {
      var d := dss[i];
      if d.devname == name {
        ghost var was := state[..];
        Memcpy(d.swapspace, 0, state, 0, state.Length);
        assert d.swapspace[..] == was;
        Memcpy(state, 0, d.snapshot, 0, d.snapshot.Length);
        assert state[..] == d.snapshot[..];
        DeviceLoadState(d.fields, 0, state, d.swapspace);
        return true;
      }
      i := i + 1;
    }
    return false;
  }
}
