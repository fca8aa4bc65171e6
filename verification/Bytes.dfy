/** Bytes and big-endian fields, as the network devices and the migration stream use them. */
module Bytes {

  type Byte = b: nat | b < 256

  predicate Fits(s: seq<Byte>, off: nat, n: nat) { off + n <= |s| }

  function Get16(s: seq<Byte>, off: nat): nat
    requires Fits(s, off, 2)
  {
    var hi: nat, lo: nat := s[off], s[off + 1];
    hi * 256 + lo
  }

  function Get32(s: seq<Byte>, off: nat): nat
    requires Fits(s, off, 4)
  {
    Get16(s, off) * 0x1_0000 + Get16(s, off + 2)
  }

  /** stw_be_p: the low 16 bits of v, big-endian. */
  function Put16(s: seq<Byte>, off: nat, v: nat): (r: seq<Byte>)
    requires Fits(s, off, 2)
    ensures |r| == |s| && Get16(r, off) == v % 0x1_0000
    ensures forall i :: 0 <= i < |s| && !(off <= i < off + 2) ==> r[i] == s[i]
  {
    TwoBytes(v);
    s[off := v / 256 % 256][off + 1 := v % 256]
  }

  lemma TwoBytes(v: nat)
    ensures v / 256 % 256 * 256 + v % 256 == v % 0x1_0000
  {}

  /** stl_be_p: the low 32 bits of v, big-endian. */
  function Put32(s: seq<Byte>, off: nat, v: nat): (r: seq<Byte>)
    requires Fits(s, off, 4)
    ensures |r| == |s| && Get32(r, off) == v % 0x1_0000_0000
    ensures forall i :: 0 <= i < |s| && !(off <= i < off + 4) ==> r[i] == s[i]
  {
    var w := v % 0x1_0000_0000;
    var high := Put16(s, off, w / 0x1_0000);
    var r := Put16(high, off + 2, w % 0x1_0000);
    assert Get16(r, off) == Get16(high, off);
    r
  }

  /** The bytes e stand in s from position pos on. */
  ghost predicate At(s: seq<Byte>, pos: nat, e: seq<Byte>) {
    pos + |e| <= |s| && s[pos..pos + |e|] == e
  }

  lemma AtSplit(s: seq<Byte>, pos: nat, x: seq<Byte>, y: seq<Byte>)
    ensures At(s, pos, x + y) <==> At(s, pos, x) && At(s, pos + |x|, y)
  {
    if At(s, pos, x + y) {
      assert s[pos..pos + |x|] == (x + y)[..|x|];
      assert s[pos + |x|..pos + |x| + |y|] == (x + y)[|x|..];
    }
    if At(s, pos, x) && At(s, pos + |x|, y) {
      assert s[pos..pos + |x + y|] == s[pos..pos + |x|] + s[pos + |x|..pos + |x| + |y|];
    }
  }

  lemma AtFits(s: seq<Byte>, pos: nat, e: seq<Byte>)
    requires At(s, pos, e)
    ensures pos + |e| <= |s|
  {}

  lemma AtSlice(s: seq<Byte>, pos: nat, e: seq<Byte>)
    requires At(s, pos, e)
    ensures pos + |e| <= |s| && s[pos..pos + |e|] == e
  {}

  lemma AtByte(s: seq<Byte>, pos: nat, e: seq<Byte>, i: nat)
    requires At(s, pos, e) && i < |e|
    ensures s[pos + i] == e[i]
  {
    assert s[pos..pos + |e|][i] == e[i];
  }

  /** The write of d over s from off on; what reaches beyond the end is lost. */
  function Patch(s: seq<Byte>, off: nat, d: seq<Byte>): (r: seq<Byte>)
    ensures |r| == |s| && forall i :: 0 <= i < |s| ==> r[i] == if off <= i < off + |d| then d[i - off] else s[i]
  {
    if off >= |s| then s
    else
      var n := if off + |d| <= |s| then |d| else |s| - off;
      s[..off] + d[..n] + s[off + n..]
  }
}
