/**
  The transmit path of the e1000: descriptors are gathered into a packet buffer, and a packet with
  TCP segmentation is cut into frames of at most mss payload bytes, each with a patched copy of the
  packet's header.
 */
module E1000Transmit {
  import opened Bytes
  import opened Common

  const DATA_SIZE := 0x1_0000

  /** What a context descriptor sets up. */
  datatype Context = Context(ipcss: Byte, tucss: Byte, hdrLen: Byte, mss: nat, paylen: nat, ip: bool, tcp: bool, tse: bool)

  /** The flags r are those of b, bit by bit, except that PSH and FIN, bits 3 and 0, are cleared when asked for. */
  ghost predicate Flagged(b: Byte, r: Byte, clear: bool) {
    forall i :: 0 <= i < 8 ==> Bit(r, i) == if clear && (i == 0 || i == 3) then 0 else Bit(b, i)
  }

  /** b & ~9 */
  function ClearPshFin(b: Byte): (r: Byte)
    ensures Flagged(b, r, true)
  {
    ClearBits(b, b - b % 2 - (b / 8 % 2) * 8);
    b - b % 2 - (b / 8 % 2) * 8
  }

  lemma ClearBits(b: Byte, r: Byte)
    requires r == b - b % 2 - (b / 8 % 2) * 8
    ensures Flagged(b, r, true)
  {
    hide Bit;
    LowBits(b);
    LowBits(r);
    ClearedDigits(b, r);
    forall i | 4 <= i < 8 ensures Bit(r, i) == Bit(b, i) {
      HighBit(b, i);
      HighBit(r, i);
    }
  }

  lemma ClearedDigits(b: nat, r: nat)
    requires r == b - b % 2 - (b / 8 % 2) * 8
    ensures r % 2 == 0 && r / 2 % 2 == b / 2 % 2 && r / 4 % 2 == b / 4 % 2 && r / 8 % 2 == 0 && r / 16 == b / 16
  {
    var h, x, y, z, w := b / 16, b / 8 % 2, b / 4 % 2, b / 2 % 2, b % 2;
    Halves(b);
    Digits(h, 0, y, z, 0);
  }

  /** The four lowest digits of a binary number. */
  lemma Digits(h: nat, x: nat, y: nat, z: nat, w: nat)
    requires x < 2 && y < 2 && z < 2 && w < 2
    ensures var v := 16 * h + 8 * x + 4 * y + 2 * z + w; v % 2 == w && v / 2 % 2 == z && v / 4 % 2 == y && v / 8 % 2 == x && v / 16 == h
  {
    var v, v1, v2, v3 := 16 * h + 8 * x + 4 * y + 2 * z + w, 8 * h + 4 * x + 2 * y + z, 4 * h + 2 * x + y, 2 * h + x;
    DivIs(v, 2, v1);
    DivIs(v, 4, v2);
    DivIs(v, 8, v3);
    DivIs(v, 16, h);
    DivIs(v1, 2, v2);
    DivIs(v2, 2, v3);
    DivIs(v3, 2, h);
  }

  lemma Halves(w: nat)
    ensures w / 2 / 2 == w / 4 && w / 2 / 2 / 2 == w / 8 && w / 2 / 2 / 2 / 2 == w / 16 && w / 4 / 2 == w / 8 && w / 8 / 2 == w / 16
  {
    var a := w / 2;
    var b := a / 2;
    var c := b / 2;
    DivIs(w, 4, b);
    DivIs(w, 8, c);
    DivIs(w, 16, c / 2);
  }

  lemma LowBits(w: nat)
    ensures Bit(w, 0) == w % 2 && Bit(w, 1) == w / 2 % 2 && Bit(w, 2) == w / 4 % 2 && Bit(w, 3) == w / 8 % 2
  {
    Halves(w);
    var a := w / 2;
    var b := a / 2;
    assert Bit(w, 3) == Bit(a, 2) == Bit(b, 1);
  }

  lemma HighBit(w: nat, i: nat)
    requires i >= 4
    ensures Bit(w, i) == Bit(w / 16, i - 4)
  {
    Halves(w);
    var a := w / 2;
    var b := a / 2;
    var c := b / 2;
    assert Bit(w, i) == Bit(a, i - 1) == Bit(b, i - 2) == Bit(c, i - 3);
  }

  // ----- What a frame must look like -----

  /** All patched fields lie inside the header, the IP ones before the TCP sequence number. */
  ghost predicate FieldsInside(c: Context) {
    && c.ipcss + 6 <= c.tucss + 4
    && c.tucss + (if c.tcp then 14 else 6) <= c.hdrLen
  }

  /** Whether byte i of the header is rewritten in every frame. */
  ghost predicate Rewritten(c: Context, i: nat) {
    || (if c.ip then c.ipcss + 2 else c.ipcss + 4) <= i < c.ipcss + 6
    || c.tucss + 4 <= i < c.tucss + (if c.tcp then 8 else 6)
    || (c.tcp && i == c.tucss + 13)
  }

  /** f is frame number k of a packet with the given header. n is k as the device counts it. */
  ghost predicate FrameOk(c: Context, hdr: seq<Byte>, k: nat, f: seq<Byte>)
    requires |hdr| == c.hdrLen && FieldsInside(c)
  {
    && |hdr| <= |f|
    && (forall i :: 0 <= i < |hdr| && !Rewritten(c, i) ==> f[i] == hdr[i])
    && IpOk(c, hdr, k % W16, f) && TransportOk(c, hdr, k % W16, f)
  }

  ghost predicate IpOk(c: Context, hdr: seq<Byte>, n: nat, f: seq<Byte>)
    requires |hdr| == c.hdrLen <= |f| && FieldsInside(c)
  {
    if c.ip
    then Get16(f, c.ipcss + 2) == (|f| - c.ipcss) % W16 && Get16(f, c.ipcss + 4) == (Get16(hdr, c.ipcss + 4) + n) % W16
    else Get16(f, c.ipcss + 4) == (|f| - c.ipcss) % W16
  }

  ghost predicate TransportOk(c: Context, hdr: seq<Byte>, n: nat, f: seq<Byte>)
    requires |hdr| == c.hdrLen <= |f| && FieldsInside(c)
  {
    if c.tcp
    then && Get32(f, c.tucss + 4) == (Get32(hdr, c.tucss + 4) + n * c.mss) % W32
         && Flagged(hdr[c.tucss + 13], f[c.tucss + 13], (c.paylen - n * c.mss) % W32 > c.mss)
    else Get16(f, c.tucss + 4) == (|f| - c.tucss) % W16
  }

  /** The payloads of the frames, in order. */
  ghost function Payload(frames: seq<seq<Byte>>, h: nat): seq<Byte> {
    if frames == [] then []
    else
      var f := frames[|frames| - 1];
      Payload(frames[..|frames| - 1], h) + if h <= |f| then f[h..] else []
  }

  // ----- xmit_seg -----

  /** The IP part of the patching done by xmit_seg for frame count n: length and identification. */
  function PatchIp(c: Context, d: seq<Byte>, size: nat, n: nat): (r: seq<Byte>)
    requires |d| == DATA_SIZE
    ensures |r| == |d|
    ensures forall i :: 0 <= i < |d| && !((if c.ip then c.ipcss + 2 else c.ipcss + 4) <= i < c.ipcss + 6) ==> r[i] == d[i]
    ensures c.ip ==> Get16(r, c.ipcss + 2) == (size - c.ipcss) % W16
    ensures Get16(r, c.ipcss + 4) == if c.ip then (Get16(d, c.ipcss + 4) + n) % W16 else (size - c.ipcss) % W16
  {
    if c.ip then
      var e := Put16(d, c.ipcss + 2, (size - c.ipcss) % W16);
      Put16(e, c.ipcss + 4, Get16(e, c.ipcss + 4) + n)
    else
      Put16(d, c.ipcss + 4, (size - c.ipcss) % W16)
  }

  /** The TCP or UDP part: sequence number and flags, or length. */
  function PatchTransport(c: Context, d: seq<Byte>, size: nat, n: nat): (r: seq<Byte>)
    requires |d| == DATA_SIZE
    ensures |r| == |d|
    ensures forall i :: 0 <= i < |d| && !(c.tucss + 4 <= i < c.tucss + if c.tcp then 8 else 6) && !(c.tcp && i == c.tucss + 13)
              ==> r[i] == d[i]
    ensures c.tcp ==> Get32(r, c.tucss + 4) == (Get32(d, c.tucss + 4) + n * c.mss) % W32
    ensures c.tcp ==> r[c.tucss + 13] == if (c.paylen - n * c.mss) % W32 > c.mss then ClearPshFin(d[c.tucss + 13]) else d[c.tucss + 13]
    ensures !c.tcp ==> Get16(r, c.tucss + 4) == (size - c.tucss) % W16
  {
    if c.tcp then
      var e := Put32(d, c.tucss + 4, Get32(d, c.tucss + 4) + n * c.mss);
      if (c.paylen - n * c.mss) % W32 > c.mss then e[c.tucss + 13 := ClearPshFin(e[c.tucss + 13])] else e
    else
      Put16(d, c.tucss + 4, (size - c.tucss) % W16)
  }

  /** The packet buffer after xmit_seg patched it. */
  function Patched(c: Context, d: seq<Byte>, size: nat, n: nat): (r: seq<Byte>)
    requires |d| == DATA_SIZE
    ensures |r| == |d|
  {
    PatchTransport(c, PatchIp(c, d, size, n), size, n)
  }

  lemma SameFields(s: seq<Byte>, t: seq<Byte>, off: nat, n: nat)
    requires Fits(s, off, n) && Fits(t, off, n) && n >= 2
    requires forall i :: off <= i < off + n ==> s[i] == t[i]
    ensures Get16(s, off) == Get16(t, off) && (n >= 4 ==> Get32(s, off) == Get32(t, off))
  {}

  lemma PatchedIsFrame(c: Context, d: seq<Byte>, size: nat, k: nat)
    requires |d| == DATA_SIZE && FieldsInside(c) && c.hdrLen <= size <= DATA_SIZE
    ensures FrameOk(c, d[..c.hdrLen], k, Patched(c, d, size, k % W16)[..size])
    ensures Patched(c, d, size, k % W16)[c.hdrLen..size] == d[c.hdrLen..size]
  {
    hide PatchIp, PatchTransport, IpOk, TransportOk;
    PatchedIp(c, d, size, k % W16);
    PatchedTransport(c, d, size, k % W16);
  }

  lemma PatchedIp(c: Context, d: seq<Byte>, size: nat, n: nat)
    requires |d| == DATA_SIZE && FieldsInside(c) && c.hdrLen <= size <= DATA_SIZE
    ensures IpOk(c, d[..c.hdrLen], n, Patched(c, d, size, n)[..size])
  {
    hide Get16, Get32, PatchIp, PatchTransport, ClearPshFin;
    var e := PatchIp(c, d, size, n);
    var f := Patched(c, d, size, n)[..size];
    SameFields(d[..c.hdrLen], d, c.ipcss + 4, 2);
    SameFields(f, e, c.ipcss + 4, 2);
    if c.ip {
      SameFields(f, e, c.ipcss + 2, 2);
    }
  }

  lemma PatchedTransport(c: Context, d: seq<Byte>, size: nat, n: nat)
    requires |d| == DATA_SIZE && FieldsInside(c) && c.hdrLen <= size <= DATA_SIZE
    ensures TransportOk(c, d[..c.hdrLen], n, Patched(c, d, size, n)[..size])
  {
    hide Get16, Get32, PatchIp, PatchTransport, ClearPshFin;
    var hdr, e, r := d[..c.hdrLen], PatchIp(c, d, size, n), Patched(c, d, size, n);
    var f := r[..size];
    if c.tcp {
      SameFields(hdr, d, c.tucss + 4, 4);
      SameFields(e, d, c.tucss + 4, 4);
      SameFields(f, r, c.tucss + 4, 4);
    } else {
      SameFields(f, r, c.tucss + 4, 2);
    }
  }

  method CopyIn(dst: array<Byte>, off: nat, src: seq<Byte>)
    requires off + |src| <= dst.Length
    modifies dst
    ensures dst[..] == old(dst[..off]) + src + old(dst[off + |src|..])
  {
    forall i | 0 <= i < |src| {
      dst[off + i] := src[i];
    }
  }

  /** Segmentation is set up so that a frame fits the buffer and makes progress. */
  ghost predicate Segmentable(c: Context) {
    c.tse && 0 < c.mss && c.hdrLen + c.mss < W16
  }

  /** f is what xmit_seg sends for a buffer that starts with p, as frame number k of its packet. */
  ghost predicate Made(c: Context, p: seq<Byte>, k: nat, f: seq<Byte>) {
    |p| <= DATA_SIZE && exists d: seq<Byte> :: MadeFrom(c, d, p, k, f)
  }

  ghost predicate MadeFrom(c: Context, d: seq<Byte>, p: seq<Byte>, k: nat, f: seq<Byte>)
    requires |p| <= DATA_SIZE
  {
    |d| == DATA_SIZE && d[..|p|] == p && f == Patched(c, d, |p|, k % W16)[..|p|]
  }

  /** The packet cut up: each of ps is the header followed by the next piece of the payload, mss bytes of it
      in all but the last, which has fewer; the frames are made from them one by one. A packet shorter than
      its header sends nothing. */
  ghost predicate Segmented(c: Context, packet: seq<Byte>, ps: seq<seq<Byte>>, fs: seq<seq<Byte>>) {
    var h := c.hdrLen;
    |ps| == |fs| &&
    if |packet| < h then fs == [] else
      && fs != [] && Payload(ps, h) == packet[h..]
      && (forall k :: 0 <= k < |ps| ==> Headed(packet[..h], ps[k]) && Made(c, ps[k], k, fs[k]))
      && (forall k :: 0 <= k < |ps| - 1 ==> |ps[k]| == h + c.mss)
      && |ps[|ps| - 1]| < h + c.mss
  }

  ghost predicate Headed(hdr: seq<Byte>, p: seq<Byte>) {
    |hdr| <= |p| && p[..|hdr|] == hdr
  }

  /** ps are full pieces cut from the packet bytes `pre`, and fs the frames made from them; the rest of the
      bytes is in the buffer, after a copy of the header once that is complete. */
  ghost predicate CutState(c: Context, header: seq<Byte>, data: seq<Byte>, size: nat, pre: seq<Byte>, ps: seq<seq<Byte>>, fs: seq<seq<Byte>>)
    requires |header| == 256 && |data| == DATA_SIZE
  {
    var h := c.hdrLen;
    && size <= h + c.mss && |ps| == |fs|
    && if |pre| < h then
         size == |pre| && data[..size] == pre && fs == []
       else
         && h <= size <= |data|
         && header[..h] == pre[..h] == data[..h]
         && (forall k :: 0 <= k < |ps| ==> Headed(pre[..h], ps[k]) && |ps[k]| == h + c.mss && Made(c, ps[k], k, fs[k]))
         && Payload(ps, h) + data[h..size] == pre[h..]
  }

  /** Appending bytes to the buffer and saving a header that is now complete. */
  lemma CutAppend(c: Context, header: seq<Byte>, data: seq<Byte>, size: nat, pre: seq<Byte>, ps: seq<seq<Byte>>, fs: seq<seq<Byte>>,
                  chunk: seq<Byte>, header': seq<Byte>, data': seq<Byte>)
    requires |header| == |header'| == 256 && |data| == |data'| == DATA_SIZE && Segmentable(c)
    requires CutState(c, header, data, size, pre, ps, fs) && size + |chunk| <= c.hdrLen + c.mss
    requires data' == data[..size] + chunk + data[size + |chunk|..]
    requires if size < c.hdrLen <= size + |chunk| then header'[..c.hdrLen] == data'[..c.hdrLen] else header' == header
    ensures CutState(c, header', data', size + |chunk|, pre + chunk, ps, fs)
  {
    hide Made, Headed;
    var h, sz, pre' := c.hdrLen, size + |chunk|, pre + chunk;
    assert data'[..sz] == data[..size] + chunk;
    if |pre| < h {
      assert data'[..sz] == pre';
      if h <= |pre'| {
        assert data'[..h] == data'[..sz][..h] && data'[h..sz] == data'[..sz][h..];
        assert Payload(ps, h) == [];
      }
    } else {
      assert pre'[..h] == pre[..h] && pre'[h..] == pre[h..] + chunk;
      assert data'[..h] == data'[..sz][..h] == data[..size][..h] == data[..h];
      assert data'[h..sz] == data[h..size] + chunk;
    }
  }

  /** Sending a full buffer as the next frame, and starting over with the saved header. */
  lemma CutFlush(c: Context, header: seq<Byte>, data: seq<Byte>, pre: seq<Byte>, ps: seq<seq<Byte>>, fs: seq<seq<Byte>>,
                 p: seq<Byte>, f: seq<Byte>, data': seq<Byte>)
    requires |header| == 256 && |data| == |data'| == DATA_SIZE && Segmentable(c) && |pre| >= c.hdrLen
    requires CutState(c, header, data, c.hdrLen + c.mss, pre, ps, fs)
    requires p == data[..c.hdrLen + c.mss] && Made(c, p, |fs|, f) && data'[..c.hdrLen] == header[..c.hdrLen]
    ensures CutState(c, header, data', c.hdrLen, pre, ps + [p], fs + [f])
  {
    hide Made, Payload;
    var h := c.hdrLen;
    PayloadAppend(ps, p, h);
    assert p[h..] == data[h..h + c.mss] && p[..h] == data[..h];
    assert data'[h..h] == [];
  }

  /** Sending what is left as the last frame. */
  lemma CutEnd(c: Context, header: seq<Byte>, data: seq<Byte>, size: nat, packet: seq<Byte>, ps: seq<seq<Byte>>, fs: seq<seq<Byte>>,
               p: seq<Byte>, f: seq<Byte>)
    requires |header| == 256 && |data| == DATA_SIZE && |packet| >= c.hdrLen && size < c.hdrLen + c.mss && size <= |data|
    requires CutState(c, header, data, size, packet, ps, fs)
    requires p == data[..size] && Made(c, p, |fs|, f)
    ensures Segmented(c, packet, ps + [p], fs + [f])
  {
    hide Made, Payload;
    var h := c.hdrLen;
    PayloadAppend(ps, p, h);
    assert p[h..] == data[h..size] && p[..h] == data[..h];
  }

  lemma TailAppend<T>(s: seq<T>, x: T, n: nat)
    requires n <= |s|
    ensures (s + [x])[n..] == s[n..] + [x] && (s + [x])[..n] == s[..n]
  {}

  lemma CountMore(n: nat)
    ensures (n % W16 + 1) % W16 == (n + 1) % W16
  {}

  class Transmitter {
    const header: array<Byte>
    const data: array<Byte>
    var size: nat
    var tsoFrames: nat
    var ctx: Context
    var cptse: bool
    var frames: seq<seq<Byte>>     // sent so far
    ghost var plain: seq<seq<Byte>>   // the same, as they were before xmit_seg patched them

    ghost predicate Shaped()
      reads this
    {
      |plain| == |frames| && header.Length == 256 && data.Length == DATA_SIZE && header != data && size < W16 && tsoFrames < W16
    }

    /** The frames from `sent` on were cut from the packet bytes `pre`, the rest of them being in the buffer. */
    ghost predicate Cut(pre: seq<Byte>, sent: nat)
      reads this, header, data
    {
      && Shaped() && Segmentable(ctx) && sent <= |frames|
      && tsoFrames == (|frames| - sent) % W16
      && CutState(ctx, header[..], data[..], size, pre, plain[sent..], frames[sent..])
    }

    /** xmit_seg for a segmented packet, with checksum and VLAN insertion off. */
    method XmitSeg()
      requires Shaped() && ctx.tse && cptse
      modifies data, this`tsoFrames, this`frames, this`plain
      ensures data[..] == Patched(ctx, old(data[..]), size, old(tsoFrames))
      ensures tsoFrames == (old(tsoFrames) + 1) % W16 && frames == old(frames) + [data[..size]]
      ensures plain == old(plain) + [old(data[..size])]
    {
      hide PatchIp, PatchTransport;
      plain := plain + [data[..size]];
      XmitIp();
      XmitTransport();
      tsoFrames := (tsoFrames + 1) % W16;
      frames := frames + [data[..size]];
    }

    method XmitIp()
      requires data.Length == DATA_SIZE
      modifies data
      ensures data[..] == PatchIp(ctx, old(data[..]), size, tsoFrames)
    {
      hide Put16, Get16;
      if ctx.ip {
        StoreBe16(data, ctx.ipcss + 2, (size - ctx.ipcss) % W16);
        StoreBe16(data, ctx.ipcss + 4, Get16(data[..], ctx.ipcss + 4) + tsoFrames);
      } else {
        StoreBe16(data, ctx.ipcss + 4, (size - ctx.ipcss) % W16);
      }
    }

    method XmitTransport()
      requires data.Length == DATA_SIZE
      modifies data
      ensures data[..] == PatchTransport(ctx, old(data[..]), size, tsoFrames)
    {
      hide Put16, Put32, Get16, Get32, ClearPshFin;
      if ctx.tcp {
        var sofar := tsoFrames * ctx.mss;
        StoreBe32(data, ctx.tucss + 4, Get32(data[..], ctx.tucss + 4) + sofar);
        if (ctx.paylen - sofar) % W32 > ctx.mss {
          ghost var d := data[..];
          data[ctx.tucss + 13] := ClearPshFin(data[ctx.tucss + 13]);
          assert data[..] == d[ctx.tucss + 13 := ClearPshFin(d[ctx.tucss + 13])];
        }
      } else {
        StoreBe16(data, ctx.tucss + 4, (size - ctx.tucss) % W16);
      }
    }

    /** One round of the segmentation loop: append `chunk`, save the header once it is complete, and
        send a frame when it is full. */
    method Take(chunk: seq<Byte>, ghost pre: seq<Byte>, ghost sent: nat)
      requires Cut(pre, sent) && cptse
      requires size < ctx.hdrLen + ctx.mss && size + |chunk| <= ctx.hdrLen + ctx.mss
      modifies header, data, this`size, this`tsoFrames, this`frames, this`plain
      ensures Cut(pre + chunk, sent) && frames[..sent] == old(frames[..sent])
      ensures size < ctx.hdrLen + ctx.mss
    {
      Append(chunk, pre, sent);
      if size == ctx.hdrLen + ctx.mss {
        Flush(pre + chunk, sent);
      }
    }

    method Append(chunk: seq<Byte>, ghost pre: seq<Byte>, ghost sent: nat)
      requires Cut(pre, sent) && size + |chunk| <= ctx.hdrLen + ctx.mss
      modifies header, data, this`size
      ensures size == old(size) + |chunk| && Cut(pre + chunk, sent)
    {
      hide CutState;
      ghost var h0, d0, ps, fs := header[..], data[..], plain[sent..], frames[sent..];
      CopyIn(data, size, chunk);
      ghost var d1 := data[..];
      assert d1 == d0[..size] + chunk + d0[size + |chunk|..];
      var sz := size + |chunk|;
      if sz >= ctx.hdrLen && size < ctx.hdrLen {
        CopyIn(header, 0, data[..ctx.hdrLen]);
        assert header[..][..ctx.hdrLen] == d1[..ctx.hdrLen];
      }
      CutAppend(ctx, h0, d0, size, pre, ps, fs, chunk, header[..], d1);
      size := sz;
    }

    /** Send what is in the buffer as the next frame of the packet. */
    method SendFrame(ghost pre: seq<Byte>, ghost sent: nat) returns (ghost p: seq<Byte>, ghost f: seq<Byte>)
      requires Cut(pre, sent) && cptse && |pre| >= ctx.hdrLen
      modifies data, this`tsoFrames, this`frames, this`plain
      ensures frames == old(frames) + [f] && plain == old(plain) + [p] && tsoFrames == (old(tsoFrames) + 1) % W16
      ensures p == old(data[..size]) && Made(ctx, p, |old(frames)| - sent, f)
    {
      hide Patched, Payload, CutState;
      ghost var d := data[..];
      p := data[..size];
      XmitSeg();
      f := data[..size];
      assert MadeFrom(ctx, d, p, |old(frames)| - sent, f);
    }

    /** Send a full frame and start the next one with the saved header. */
    method Flush(ghost pre: seq<Byte>, ghost sent: nat)
      requires Cut(pre, sent) && cptse && |pre| >= ctx.hdrLen
      requires size == ctx.hdrLen + ctx.mss
      modifies data, this`size, this`tsoFrames, this`frames, this`plain
      ensures Cut(pre, sent) && frames[..sent] == old(frames[..sent]) && size == ctx.hdrLen
    {
      hide Made, CutState;
      ghost var ps, fs, d := plain[sent..], frames[sent..], data[..];
      ghost var p, f := SendFrame(pre, sent);
      CopyIn(data, 0, header[..ctx.hdrLen]);
      size := ctx.hdrLen;
      TailAppend(old(frames), f, sent);
      TailAppend(old(plain), p, sent);
      CountMore(|old(frames)| - sent);
      assert data[..ctx.hdrLen] == header[..ctx.hdrLen] == header[..][..ctx.hdrLen];
      CutFlush(ctx, header[..], d, pre, ps, fs, p, f, data[..]);
    }

    /** process_tx_desc for a data descriptor of a segmented packet; `pre` is what earlier
        descriptors of the packet held, `sent` the number of frames sent before the packet. */
    method ProcessData(buf: seq<Byte>, eop: bool, ghost pre: seq<Byte>, ghost sent: nat)
      requires Cut(pre, sent) && size < ctx.hdrLen + ctx.mss && |buf| < W16
      modifies header, data, this`size, this`tsoFrames, this`frames, this`plain, this`cptse
      ensures sent <= |frames| == |plain| && frames[..sent] == old(frames[..sent])
      ensures !eop ==> Cut(pre + buf, sent) && size < ctx.hdrLen + ctx.mss
      ensures eop ==> Shaped() && size == 0 && tsoFrames == 0 && !cptse && Segmented(ctx, pre + buf, plain[sent..], frames[sent..])
    {
      cptse := true;
      assert Cut(pre, sent);
      hide CutState, Segmented;
      Segment(buf, pre, sent);
      if !eop {
        return;
      }
      EndOfPacket(pre + buf, sent);
    }

    /** The segmentation loop of process_tx_desc. */
    method Segment(buf: seq<Byte>, ghost pre: seq<Byte>, ghost sent: nat)
      requires Cut(pre, sent) && size < ctx.hdrLen + ctx.mss && cptse
      modifies header, data, this`size, this`tsoFrames, this`frames, this`plain
      ensures Cut(pre + buf, sent) && frames[..sent] == old(frames[..sent]) && size < ctx.hdrLen + ctx.mss
    {
      hide CutState;
      var msh := ctx.hdrLen + ctx.mss;
      var left := buf;
      ghost var done := pre;
      while true
        invariant done + left == pre + buf
        invariant Cut(done, sent) && frames[..sent] == old(frames[..sent])
        invariant size < msh
        decreases |left|
      {
        var bytes := |left|;
        if size + bytes > msh {
          bytes := msh - size;
        }
        bytes := Min(DATA_SIZE - size, bytes);
        Take(left[..bytes], done, sent);
        Rejoin(done, left, bytes);
        done, left := done + left[..bytes], left[bytes..];
        if |left| == 0 {
          break;
        }
      }
      assert done == done + left;
    }

    /** The end of process_tx_desc for a descriptor that ends its packet. */
    method EndOfPacket(ghost packet: seq<Byte>, ghost sent: nat)
      requires Cut(packet, sent) && size < ctx.hdrLen + ctx.mss && cptse
      modifies data, this`size, this`tsoFrames, this`frames, this`plain, this`cptse
      ensures sent <= |frames| == |plain| && frames[..sent] == old(frames[..sent])
      ensures Shaped() && size == 0 && tsoFrames == 0 && !cptse && Segmented(ctx, packet, plain[sent..], frames[sent..])
    {
      hide Made;
      ghost var ps, fs, d := plain[sent..], frames[sent..], data[..];
      if !(ctx.tse && cptse && size < ctx.hdrLen) {
        CutSize(packet, sent);
        hide CutState, Segmented;
        ghost var p, f := SendFrame(packet, sent);
        CutEnd(ctx, header[..], d, size, packet, ps, fs, p, f);
        assert frames[sent..] == fs + [f] && plain[sent..] == ps + [p];
      }
      tsoFrames := 0;
      size := 0;
      cptse := false;
    }

    lemma CutSize(pre: seq<Byte>, sent: nat)
      requires Cut(pre, sent) && size >= ctx.hdrLen
      ensures |pre| >= ctx.hdrLen
    {}

    /** A context descriptor: nothing of the next packet is there yet. */
    method SetContext(c: Context)
      requires Shaped() && size == 0 && Segmentable(c)
      modifies this`ctx, this`tsoFrames
      ensures ctx == c && Cut([], |frames|)
    {
      ctx := c;
      tsoFrames := 0;
      assert data[..0] == [];
      assert Payload([], c.hdrLen) == [];
    }

    /** A context descriptor, then the packet spread over data descriptors of which the last ends it. */
    method SendPacket(c: Context, bufs: seq<seq<Byte>>)
      requires Shaped() && size == 0 && Segmentable(c)
      requires bufs != [] && forall i :: 0 <= i < |bufs| ==> |bufs[i]| < W16
      modifies this, header, data
      ensures Shaped() && size == 0 && ctx == c
      ensures old(frames) <= frames && Segmented(c, Flatten(bufs), plain[|old(frames)|..], frames[|old(frames)|..])
    {
      hide Made, Payload, CutState, Segmented, Flatten;
      ghost var sent, was := |frames|, frames;
      SetContext(c);
      FlattenNone<Byte>();
      assert bufs[..0] == [];
      var i := 0;
      while i < |bufs| - 1
        invariant 0 <= i < |bufs| && ctx == c
        invariant Cut(Flatten(bufs[..i]), sent) && frames[..sent] == was
        invariant size < c.hdrLen + c.mss
      {
        NextBuffer(bufs[i], false, bufs[..i], sent);
        assert bufs[..i] + [bufs[i]] == bufs[..i + 1];
        i := i + 1;
      }
      NextBuffer(bufs[i], true, bufs[..i], sent);
      assert bufs[..i] + [bufs[i]] == bufs;
    }

    method NextBuffer(buf: seq<Byte>, eop: bool, ghost before: seq<seq<Byte>>, ghost sent: nat)
      requires Cut(Flatten(before), sent) && size < ctx.hdrLen + ctx.mss && |buf| < W16
      modifies header, data, this`size, this`tsoFrames, this`frames, this`plain, this`cptse
      ensures sent <= |frames| == |plain| && frames[..sent] == old(frames[..sent])
      ensures !eop ==> Cut(Flatten(before + [buf]), sent) && size < ctx.hdrLen + ctx.mss
      ensures eop ==> Shaped() && size == 0 && Segmented(ctx, Flatten(before + [buf]), plain[sent..], frames[sent..])
    {
      hide CutState, Segmented, Flatten;
      FlattenSnoc(before, buf);
      ProcessData(buf, eop, Flatten(before), sent);
    }
  }

  lemma PayloadAppend(fs: seq<seq<Byte>>, f: seq<Byte>, h: nat)
    requires h <= |f|
    ensures Payload(fs + [f], h) == Payload(fs, h) + f[h..]
  {
    assert (fs + [f])[..|fs|] == fs;
  }

  lemma Rejoin(a: seq<Byte>, b: seq<Byte>, n: nat)
    requires n <= |b|
    ensures a + b[..n] + b[n..] == a + b
  {
    assert b[..n] + b[n..] == b;
  }

  method StoreBe16(a: array<Byte>, off: nat, v: nat)
    requires off + 2 <= a.Length
    modifies a
    ensures a[..] == Put16(old(a[..]), off, v)
  {
    a[off], a[off + 1] := v / 256 % 256, v % 256;
  }

  method StoreBe32(a: array<Byte>, off: nat, v: nat)
    requires off + 4 <= a.Length
    modifies a
    ensures a[..] == Put32(old(a[..]), off, v)
  {
    var w := v % W32;
    StoreBe16(a, off, w / W16);
    StoreBe16(a, off + 2, w % W16);
  }

  // ----- Consequences -----

  lemma {:induction false} PayloadLength(fs: seq<seq<Byte>>, h: nat, mss: nat)
    requires forall k :: 0 <= k < |fs| ==> |fs[k]| == h + mss
    ensures |Payload(fs, h)| == |fs| * mss
  {
    if fs != [] {
      PayloadLength(fs[..|fs| - 1], h, mss);
      assert (|fs| - 1) * mss + mss == |fs| * mss;
    }
  }

  lemma MadeLength(c: Context, p: seq<Byte>, k: nat, f: seq<Byte>)
    requires Made(c, p, k, f)
    ensures |f| == |p|
  {
    hide Patched;
    var d: seq<Byte> :| MadeFrom(c, d, p, k, f);
  }

  /** A packet with a complete header becomes payload / mss + 1 frames, whatever the split. The last
      frame carries payload % mss bytes: none at all when mss divides the payload. */
  lemma FrameCount(c: Context, packet: seq<Byte>, ps: seq<seq<Byte>>, fs: seq<seq<Byte>>)
    requires Segmentable(c) && Segmented(c, packet, ps, fs) && |packet| >= c.hdrLen
    ensures |fs| == (|packet| - c.hdrLen) / c.mss + 1
    ensures forall k :: 0 <= k < |fs| ==> |fs[k]| == c.hdrLen + if k < |fs| - 1 then c.mss else (|packet| - c.hdrLen) % c.mss
  {
    hide Made;
    var h, n := c.hdrLen, |ps| - 1;
    var full, last := ps[..n], ps[n];
    assert Headed(packet[..h], last);
    PayloadLength(full, h, c.mss);
    assert |packet| - h == n * c.mss + (|last| - h);
    DivIs(|packet| - h, c.mss, n);
    forall k | 0 <= k < |fs| ensures |fs[k]| == |ps[k]| {
      MadeLength(c, ps[k], k, fs[k]);
    }
  }

  /** With all patched fields in the header, a frame is the header with the fields of its number and the
      payload as it was. */
  lemma MadeIsFrame(c: Context, hdr: seq<Byte>, p: seq<Byte>, k: nat, f: seq<Byte>)
    requires FieldsInside(c) && |hdr| == c.hdrLen && Headed(hdr, p) && Made(c, p, k, f)
    ensures FrameOk(c, hdr, k, f) && |f| == |p| && f[c.hdrLen..] == p[c.hdrLen..]
  {
    hide FrameOk, Patched;
    var d: seq<Byte> :| MadeFrom(c, d, p, k, f);
    var h, r := c.hdrLen, Patched(c, d, |p|, k % W16);
    PatchedIsFrame(c, d, |p|, k);
    assert d[..h] == d[..|p|][..h] == hdr;
    assert f[h..] == r[h..|p|] && p[h..] == d[h..|p|];
  }

  // ----- The sequence number -----

  /** The sequence field (or UDP length) lies in the header, behind the IP fields. */
  ghost predicate SequenceInside(c: Context) {
    c.ipcss + 6 <= c.tucss + 4 && c.tucss + (if c.tcp then 8 else 6) <= c.hdrLen
  }

  /** Frame k has sequence number base + k * mss modulo 2^32, exactly as long as the 16-bit frame
      counter did not lose it: always for the first 65536 frames. */
  lemma SequenceNumber(c: Context, hdr: seq<Byte>, p: seq<Byte>, k: nat, f: seq<Byte>)
    requires SequenceInside(c) && c.tcp && |hdr| == c.hdrLen && Headed(hdr, p) && Made(c, p, k, f)
    ensures |f| == |p| && c.tucss + 8 <= |f|
    ensures Get32(f, c.tucss + 4) == (Get32(hdr, c.tucss + 4) + k * c.mss) % W32 <==> (k / W16 * c.mss) % W16 == 0
    ensures k < W16 ==> Get32(f, c.tucss + 4) == (Get32(hdr, c.tucss + 4) + k * c.mss) % W32
  {
    hide Get32, Made;
    SequenceIs(c, hdr, p, k, f);
    SeqShift(Get32(hdr, c.tucss + 4), k, c.mss);
  }

  lemma SequenceIs(c: Context, hdr: seq<Byte>, p: seq<Byte>, k: nat, f: seq<Byte>)
    requires SequenceInside(c) && c.tcp && |hdr| == c.hdrLen && Headed(hdr, p) && Made(c, p, k, f)
    ensures |f| == |p| && Get32(f, c.tucss + 4) == (Get32(hdr, c.tucss + 4) + k % W16 * c.mss) % W32
  {
    hide Get16, Get32, PatchIp, PatchTransport, ClearPshFin;
    var d: seq<Byte> :| MadeFrom(c, d, p, k, f);
    var n := k % W16;
    var e := PatchIp(c, d, |p|, n);
    var r := PatchTransport(c, e, |p|, n);
    assert forall i :: 0 <= i < c.hdrLen ==> hdr[i] == p[i] == d[i];
    SameFields(hdr, d, c.tucss + 4, 4);
    SameFields(e, d, c.tucss + 4, 4);
    SameFields(f, r, c.tucss + 4, 4);
  }

  // ----- The payload -----

  /** The bytes of the IP fields and of the transport fields that every frame rewrites; the flags are apart. */
  function IpFields(c: Context): (nat, nat) {
    (if c.ip then c.ipcss + 2 else c.ipcss + 4, c.ipcss + 6)
  }

  function TransportFields(c: Context): (nat, nat) {
    (c.tucss + 4, if c.tcp then c.tucss + 8 else c.tucss + 6)
  }

  function FlagsAt(c: Context): nat {
    c.tucss + 13
  }

  predicate In(i: int, fields: (nat, nat)) {
    fields.0 <= i < fields.1
  }

  /** Byte i of a frame of size bytes is in its payload. */
  predicate InPayload(c: Context, size: nat, i: int) {
    c.hdrLen <= i < size
  }

  /** Fields that reach into the payload do not overlap each other there or behind it. */
  ghost predicate Placed(c: Context, size: nat) {
    var ip, tr := IpFields(c), TransportFields(c);
    && c.hdrLen <= size
    && (c.tcp && InPayload(c, size, FlagsAt(c)) ==> !In(FlagsAt(c), ip))
    && (tr.1 <= c.hdrLen || size <= tr.0 || ip.1 <= c.hdrLen || ip.1 <= tr.0 || tr.1 <= ip.0)
  }

  /** Adding m to v does not change the digit of v, to the base 256, that stands for multiples of w. */
  predicate SameDigit(v: nat, m: nat, w: nat)
    requires w > 0
  {
    (v % w + m) / w % 256 == 0
  }

  /** The bytes of a field of two at pos that are in the payload hold v already. */
  predicate Holds(c: Context, d: seq<Byte>, size: nat, pos: nat, v: nat)
    requires Fits(d, pos, 2)
  {
    (InPayload(c, size, pos) ==> d[pos] == v / 256) && (InPayload(c, size, pos + 1) ==> d[pos + 1] == v % 256)
  }

  /** IP fields, as far as they are written into the payload, happen to hold what is written: the length, and for
      IPv4 an identification that counting on does not change. */
  predicate KeepsIp(c: Context, d: seq<Byte>, size: nat, n: nat)
    requires |d| == DATA_SIZE
  {
    var at, len := c.ipcss + 4, (size - c.ipcss) % W16;
    if c.ip then
      && Holds(c, d, size, c.ipcss + 2, len)
      && (InPayload(c, size, at) ==> SameDigit(Get16(d, at), n, 256)) && (InPayload(c, size, at + 1) ==> SameDigit(Get16(d, at), n, 1))
    else Holds(c, d, size, at, len)
  }

  /** The weight of byte i of a word of four. */
  function Weight(i: nat): (w: nat)
    ensures w > 0
  {
    if i == 0 then 0x100_0000 else if i == 1 then 0x1_0000 else if i == 2 then 256 else 1
  }

  /** Adding m to the word at `at` does not change its byte i, or that is not in the payload. */
  predicate KeepsByte(c: Context, d: seq<Byte>, size: nat, at: nat, m: nat, i: nat)
    requires Fits(d, at, 4)
  {
    InPayload(c, size, at + i) ==> SameDigit(Get32(d, at), m, Weight(i))
  }

  /** The same of a sequence number or UDP length. */
  predicate KeepsTransport(c: Context, d: seq<Byte>, size: nat, n: nat)
    requires |d| == DATA_SIZE
  {
    var at, m := c.tucss + 4, n * c.mss;
    if c.tcp then
      KeepsByte(c, d, size, at, m, 0) && KeepsByte(c, d, size, at, m, 1) && KeepsByte(c, d, size, at, m, 2) && KeepsByte(c, d, size, at, m, 3)
    else Holds(c, d, size, at, (size - c.tucss) % W16)
  }

  /** The flags byte is in the header or behind the frame, or at most mss bytes of the packet remain, or PSH and
      FIN are clear there already. */
  predicate KeepsFlags(c: Context, d: seq<Byte>, size: nat, n: nat)
    requires |d| == DATA_SIZE
  {
    var at := FlagsAt(c);
    !c.tcp || !InPayload(c, size, at) || (c.paylen - n * c.mss) % W32 <= c.mss || (d[at] % 2 == 0 && d[at] / 8 % 2 == 0)
  }

  /** Frame k, made from the first size bytes of the buffer d, has its payload as it was. */
  predicate KeepsPayload(c: Context, d: seq<Byte>, size: nat, k: nat)
    requires |d| == DATA_SIZE
  {
    KeepsFlags(c, d, size, k % W16) && KeepsIp(c, d, size, k % W16) && KeepsTransport(c, d, size, k % W16)
  }

  lemma ClearNothing(b: Byte)
    ensures ClearPshFin(b) == b <==> b % 2 == 0 && b / 8 % 2 == 0
  {}

  /** Two sequences agree on the part of the fields in the payload. */
  ghost predicate SameOn(c: Context, size: nat, s: seq<Byte>, t: seq<Byte>, fields: (nat, nat))
    requires size <= |s| && size <= |t|
  {
    forall i :: In(i, fields) && InPayload(c, size, i) ==> s[i] == t[i]
  }

  /** Exactly when a frame keeps its payload, wherever the fields lie. */
  lemma PayloadLaw(c: Context, d: seq<Byte>, p: seq<Byte>, k: nat, f: seq<Byte>)
    requires |p| <= DATA_SIZE && Placed(c, |p|) && MadeFrom(c, d, p, k, f)
    ensures |f| == |p| && (f[c.hdrLen..] == p[c.hdrLen..] <==> KeepsPayload(c, d, |p|, k))
  {
    hide Get16, Get32, PatchIp, PatchTransport, ClearPshFin, KeepsFlags, KeepsIp, KeepsTransport, SameOn;
    var n := k % W16;
    var e := PatchIp(c, d, |p|, n);
    var r := PatchTransport(c, e, |p|, n);
    FrameSame(c, p, d, e, r, n, f);
    SameTail(f, p, c.hdrLen);
    IpKept(c, d, |p|, n);
    TransportKept(c, d, e, |p|, n);
    FlagsKept(c, d, e, |p|, n);
  }

  /** The payload is the same exactly if the fields in it are. */
  lemma FrameSame(c: Context, p: seq<Byte>, d: seq<Byte>, e: seq<Byte>, r: seq<Byte>, n: nat, f: seq<Byte>)
    requires |p| <= |d| == DATA_SIZE && Placed(c, |p|) && d[..|p|] == p
    requires e == PatchIp(c, d, |p|, n) && r == PatchTransport(c, e, |p|, n) && f == r[..|p|]
    ensures (forall i :: c.hdrLen <= i < |p| ==> f[i] == p[i]) <==>
              && SameOn(c, |p|, e, d, IpFields(c)) && SameOn(c, |p|, r, e, TransportFields(c))
              && (c.tcp && InPayload(c, |p|, FlagsAt(c)) ==> r[FlagsAt(c)] == e[FlagsAt(c)])
  {
    hide Get16, Get32, PatchIp, PatchTransport, ClearPshFin;
    assert forall i :: 0 <= i < |p| ==> f[i] == r[i] && p[i] == d[i];
  }

  lemma FlagsKept(c: Context, d: seq<Byte>, e: seq<Byte>, size: nat, n: nat)
    requires size <= |d| == DATA_SIZE && Placed(c, size) && e == PatchIp(c, d, size, n)
    ensures var at, r := FlagsAt(c), PatchTransport(c, e, size, n);
            (c.tcp && InPayload(c, size, at) ==> r[at] == e[at]) <==> KeepsFlags(c, d, size, n)
  {
    hide Get16, Get32, PatchIp, PatchTransport, ClearPshFin;
    var at := FlagsAt(c);
    if c.tcp && InPayload(c, size, at) {
      assert d[at] == e[at];
      ClearNothing(d[at]);
    }
  }

  // ----- The fields byte by byte -----

  lemma DigitLaw(v: nat, m: nat, w: nat)
    requires w > 0
    ensures (v + m) / w % 256 == v / w % 256 <==> SameDigit(v, m, w)
  {
    var q, a := v / w, (v % w + m) / w;
    DivAdd(v, m, w);
    AddDigits(q, a);
  }

  lemma DivAdd(v: nat, m: nat, w: nat)
    requires w > 0
    ensures (v + m) / w == v / w + (v % w + m) / w
  {
    var q, x := v / w, v % w + m;
    var a := x / w;
    assert v + m == q * w + x && x == a * w + x % w;
    assert (q + a) * w == q * w + a * w;
    DivIs(v + m, w, q + a);
  }

  lemma AddDigits(q: nat, a: nat)
    ensures (q + a) % 256 == q % 256 <==> a % 256 == 0
  {}

  /** A byte of a field of two, and what adding does to it. */
  lemma Byte16(s: seq<Byte>, off: nat)
    requires Fits(s, off, 2)
    ensures s[off] == Get16(s, off) / 256 == Get16(s, off) / 256 % 256 && s[off + 1] == Get16(s, off) % 256
  {}

  lemma Add16(s: seq<Byte>, t: seq<Byte>, off: nat, m: nat)
    requires Fits(s, off, 2) && Fits(t, off, 2) && Get16(t, off) == (Get16(s, off) + m) % W16
    ensures t[off] == s[off] <==> SameDigit(Get16(s, off), m, 256)
    ensures t[off + 1] == s[off + 1] <==> SameDigit(Get16(s, off), m, 1)
  {
    hide Get16, SameDigit;
    Byte16(s, off);
    Byte16(t, off);
    var v := Get16(s, off);
    DigitLaw(v, m, 256);
    DigitLaw(v, m, 1);
    LowDigits(v + m);
  }

  /** Cutting off high digits keeps the low ones. */
  lemma LowDigits(x: nat)
    ensures x % W16 / 256 == x / 256 % 256 && x % W16 % 256 == x % 256
  {
    var q := x / W16;
    DivIs(x, 256, q * 256 + x % W16 / 256);
  }

  lemma Byte32(s: seq<Byte>, off: nat, i: nat)
    requires Fits(s, off, 4) && i < 4
    ensures s[off + i] == Get32(s, off) / Weight(i) % 256
  {
    hide Get16;
    Byte16(s, off);
    Byte16(s, off + 2);
    HighLow(Get16(s, off), Get16(s, off + 2));
  }

  lemma HighLow(h: nat, l: nat)
    requires l < W16 && h < W16
    ensures var v := h * W16 + l;
            v / 0x100_0000 % 256 == h / 256 % 256 && v / 0x1_0000 % 256 == h % 256 && v / 256 % 256 == l / 256 % 256 && v % 256 == l % 256
  {
    var v, m := h * W16 + l, l / 256;
    DivIs(v, 0x100_0000, h / 256);
    DivIs(v, 0x1_0000, h);
    DivIs(v, 256, h * 256 + m);
    HighDigits(h, m);
  }

  lemma Add32(s: seq<Byte>, t: seq<Byte>, off: nat, m: nat, i: nat)
    requires Fits(s, off, 4) && Fits(t, off, 4) && Get32(t, off) == (Get32(s, off) + m) % W32 && i < 4
    ensures t[off + i] == s[off + i] <==> SameDigit(Get32(s, off), m, Weight(i))
  {
    hide Get32, SameDigit, Weight;
    Byte32(s, off, i);
    Byte32(t, off, i);
    var v := Get32(s, off);
    DigitLaw(v, m, Weight(i));
    LowWeights(v + m, i);
  }

  lemma LowWeights(x: nat, i: nat)
    requires i < 4
    ensures x % W32 / Weight(i) % 256 == x / Weight(i) % 256
  {
    var q, y := x / W32, x % W32;
    if i == 0 {
      DivIs(x, 0x100_0000, q * 256 + y / 0x100_0000);
      HighDigits(q, y / 0x100_0000);
    } else if i == 1 {
      DivIs(x, 0x1_0000, q * 0x1_0000 + y / 0x1_0000);
      HighDigits(q * 256, y / 0x1_0000);
    } else if i == 2 {
      DivIs(x, 256, q * 0x100_0000 + y / 256);
      HighDigits(q * 0x1_0000, y / 256);
    } else {
      HighDigits(q * 0x100_0000, y);
    }
  }

  lemma HighDigits(q: nat, z: nat)
    ensures (q * 256 + z) % 256 == z % 256
  {}

  /** The IP part of the patching changes nothing in the payload exactly when its bytes hold what is written. */
  lemma IpKept(c: Context, d: seq<Byte>, size: nat, n: nat)
    requires size <= |d| == DATA_SIZE
    ensures SameOn(c, size, PatchIp(c, d, size, n), d, IpFields(c)) <==> KeepsIp(c, d, size, n)
  {
    hide PatchIp, Get16, SameDigit;
    var e, at := PatchIp(c, d, size, n), c.ipcss + 4;
    Byte16(e, at);
    if c.ip {
      Byte16(e, c.ipcss + 2);
      Add16(d, e, at, n);
    }
    SameTwo(c, size, e, d, at);
    SameTwo(c, size, e, d, c.ipcss + 2);
    assert SameOn(c, size, e, d, IpFields(c)) <==>
           SameOn(c, size, e, d, (at, at + 2)) && (c.ip ==> SameOn(c, size, e, d, (c.ipcss + 2, at)));
  }

  lemma SameTwo(c: Context, size: nat, s: seq<Byte>, t: seq<Byte>, at: nat)
    requires size <= |s| == |t|
    ensures SameOn(c, size, s, t, (at, at + 2)) <==>
              (InPayload(c, size, at) ==> s[at] == t[at]) && (InPayload(c, size, at + 1) ==> s[at + 1] == t[at + 1])
  {}

  /** The transport part of the patching, on a buffer e whose payload has the transport fields as they were in d. */
  lemma TransportKept(c: Context, d: seq<Byte>, e: seq<Byte>, size: nat, n: nat)
    requires size <= |d| == DATA_SIZE && Placed(c, size) && e == PatchIp(c, d, size, n)
    ensures SameOn(c, size, PatchTransport(c, e, size, n), e, TransportFields(c)) <==> KeepsTransport(c, d, size, n)
  {
    hide PatchIp, PatchTransport, Get16, Get32, SameDigit, Weight;
    var r, at := PatchTransport(c, e, size, n), c.tucss + 4;
    if c.tcp {
      ByteKept(c, d, e, r, size, at, n * c.mss, 0);
      ByteKept(c, d, e, r, size, at, n * c.mss, 1);
      ByteKept(c, d, e, r, size, at, n * c.mss, 2);
      ByteKept(c, d, e, r, size, at, n * c.mss, 3);
      SameFour(c, size, r, e, at);
    } else {
      Byte16(r, at);
      SameTwo(c, size, r, e, at);
    }
  }

  /** Byte i is in the payload and was changed, or not. */
  ghost predicate SameAt(c: Context, size: nat, s: seq<Byte>, t: seq<Byte>, i: nat)
    requires size <= |s| == |t|
  {
    InPayload(c, size, i) ==> s[i] == t[i]
  }

  lemma ByteKept(c: Context, d: seq<Byte>, e: seq<Byte>, r: seq<Byte>, size: nat, at: nat, m: nat, i: nat)
    requires size <= |d| == |e| == |r| && Fits(d, at, 4) && i < 4 && Get32(r, at) == (Get32(e, at) + m) % W32
    requires InPayload(c, size, at + i) ==> forall j :: at + i <= j < at + 4 ==> d[j] == e[j]
    ensures SameAt(c, size, r, e, at + i) <==> KeepsByte(c, d, size, at, m, i)
  {
    hide Get32, SameDigit, Weight;
    if InPayload(c, size, at + i) {
      Add32(e, r, at, m, i);
      LowerBytes(d, e, at, i, m);
    }
  }

  lemma SameFour(c: Context, size: nat, s: seq<Byte>, t: seq<Byte>, at: nat)
    requires size <= |s| == |t|
    ensures SameOn(c, size, s, t, (at, at + 4)) <==>
              SameAt(c, size, s, t, at) && SameAt(c, size, s, t, at + 1) && SameAt(c, size, s, t, at + 2) && SameAt(c, size, s, t, at + 3)
  {}

  /** What adding does to byte i depends on that byte and those behind it. */
  lemma LowerBytes(s: seq<Byte>, t: seq<Byte>, off: nat, i: nat, m: nat)
    requires Fits(s, off, 4) && Fits(t, off, 4) && i < 4 && forall j :: off + i <= j < off + 4 ==> s[j] == t[j]
    ensures SameDigit(Get32(s, off), m, Weight(i)) <==> SameDigit(Get32(t, off), m, Weight(i))
  {
    Lowest(s, off, i);
    Lowest(t, off, i);
  }

  function Tail(s: seq<Byte>, off: nat, i: nat): nat
    requires Fits(s, off, 4) && i < 4
  {
    var b1: nat, b2: nat, b3: nat := s[off + 1], s[off + 2], s[off + 3];
    if i == 0 then b1 * 0x1_0000 + b2 * 256 + b3 else if i == 1 then b2 * 256 + b3 else if i == 2 then b3 else 0
  }

  lemma Lowest(s: seq<Byte>, off: nat, i: nat)
    requires Fits(s, off, 4) && i < 4
    ensures Get32(s, off) % Weight(i) == Tail(s, off, i)
  {
    var b0: nat, b1: nat, b2: nat, b3: nat := s[off], s[off + 1], s[off + 2], s[off + 3];
    var v := b0 * 0x100_0000 + b1 * 0x1_0000 + b2 * 256 + b3;
    if i == 0 {
      DivIs(v, 0x100_0000, b0);
    } else if i == 1 {
      DivIs(v, 0x1_0000, b0 * 256 + b1);
    } else if i == 2 {
      DivIs(v, 256, b0 * 0x1_0000 + b1 * 256 + b2);
    }
  }

  /** Where a sequence differs from another behind h. */
  lemma SameTail(f: seq<Byte>, p: seq<Byte>, h: nat)
    requires |f| == |p| && h <= |p|
    ensures f[h..] == p[h..] <==> forall i :: h <= i < |p| ==> f[i] == p[i]
  {
    if f[h..] == p[h..] {
      forall i | h <= i < |p| ensures f[i] == p[i] {
        assert f[h..][i - h] == p[h..][i - h];
      }
    }
  }

  /** A header of fourteen bytes with the IP header behind it: the second frame never carries its payload. */
  lemma IpOverPayload(p: seq<Byte>, f: seq<Byte>)
    requires var c := Context(20, 0, 14, 100, 1000, true, true, true); |p| == 114 && Made(c, p, 1, f)
    ensures |f| == 114 && f[14..] != p[14..]
  {
    hide Get16, Patched;
    var c := Context(20, 0, 14, 100, 1000, true, true, true);
    var d: seq<Byte> :| MadeFrom(c, d, p, 1, f);
    PayloadLaw(c, d, p, 1, f);
  }

  /** A header that ends in the middle of the sequence number: the second frame alters the last two bytes of it,
      which are payload, unless mss is a multiple of 65536. */
  lemma SequenceAcross(p: seq<Byte>, mss: nat, f: seq<Byte>)
    requires var c := Context(0, 4, 10, mss, 1000, true, true, true); |p| == 16 && Made(c, p, 1, f)
    ensures |f| == 16 && (f[10..] == p[10..] <==> mss % W16 == 0)
  {
    hide Patched, Get32, SameDigit, Get16;
    var c := Context(0, 4, 10, mss, 1000, true, true, true);
    var d: seq<Byte> :| MadeFrom(c, d, p, 1, f);
    PayloadLaw(c, d, p, 1, f);
    TwoLowest(Get32(d, 8), mss);
  }

  lemma TwoLowest(v: nat, m: nat)
    ensures SameDigit(v, m, 256) && SameDigit(v, m, 1) <==> m % W16 == 0
  {
    var l, q := v % 256, m / 256;
    LowDigits(m);
    if m % 256 == 0 {
      DivIs(l + m, 256, q);
      DivIs(m, W16, q / 256);
    }
  }

  /** The payloads together are the same exactly when they are the same frame by frame. */
  lemma {:induction false} SamePayload(ps: seq<seq<Byte>>, fs: seq<seq<Byte>>, h: nat)
    requires |ps| == |fs| && forall k :: 0 <= k < |ps| ==> h <= |ps[k]| == |fs[k]|
    ensures |Payload(fs, h)| == |Payload(ps, h)|
    ensures Payload(fs, h) == Payload(ps, h) <==> forall k :: 0 <= k < |ps| ==> fs[k][h..] == ps[k][h..]
  {
    if ps != [] {
      hide Payload;
      var n := |ps| - 1;
      var p, f := ps[n], fs[n];
      SamePayload(ps[..n], fs[..n], h);
      assert ps[..n] + [p] == ps && fs[..n] + [f] == fs;
      PayloadAppend(ps[..n], p, h);
      PayloadAppend(fs[..n], f, h);
      JoinedSame(Payload(fs[..n], h), f[h..], Payload(ps[..n], h), p[h..]);
    }
  }

  lemma JoinedSame(a: seq<Byte>, x: seq<Byte>, b: seq<Byte>, y: seq<Byte>)
    requires |a| == |b|
    ensures a + x == b + y <==> a == b && x == y
  {
    if a + x == b + y {
      assert a == (a + x)[..|a|] && b == (b + y)[..|b|];
      assert x == (a + x)[|a|..] && y == (b + y)[|b|..];
    }
  }

  /** ds are the contents of the buffer that the frames were made from. */
  ghost predicate Buffered(c: Context, ps: seq<seq<Byte>>, fs: seq<seq<Byte>>, ds: seq<seq<Byte>>) {
    && |ps| == |fs| == |ds|
    && forall k :: 0 <= k < |ps| ==> |ps[k]| <= DATA_SIZE == |ds[k]| && MadeFrom(c, ds[k], ps[k], k, fs[k])
  }

  /** Every segmentation has such buffers. */
  lemma {:induction false} Buffers(c: Context, ps: seq<seq<Byte>>, fs: seq<seq<Byte>>) returns (ds: seq<seq<Byte>>)
    requires |ps| == |fs| && forall k :: 0 <= k < |ps| ==> Made(c, ps[k], k, fs[k])
    ensures Buffered(c, ps, fs, ds)
  {
    hide Patched;
    if ps == [] {
      ds := [];
    } else {
      var n := |ps| - 1;
      var front := Buffers(c, ps[..n], fs[..n]);
      assert Made(c, ps[n], n, fs[n]);
      var d: seq<Byte> :| MadeFrom(c, d, ps[n], n, fs[n]);
      ds := front + [d];
    }
  }

  /** Exactly when the payloads of the frames concatenate to that of the packet. */
  lemma PacketLaw(c: Context, packet: seq<Byte>, ps: seq<seq<Byte>>, fs: seq<seq<Byte>>, ds: seq<seq<Byte>>)
    requires Segmentable(c) && Segmented(c, packet, ps, fs) && |packet| >= c.hdrLen && Buffered(c, ps, fs, ds)
    requires forall k :: 0 <= k < |ps| ==> Placed(c, |ps[k]|)
    ensures Payload(fs, c.hdrLen) == packet[c.hdrLen..] <==> forall k :: 0 <= k < |ps| ==> KeepsPayload(c, ds[k], |ps[k]|, k)
  {
    hide Made, MadeFrom, KeepsPayload, Payload, Placed;
    forall k | 0 <= k < |ps|
      ensures c.hdrLen <= |ps[k]| == |fs[k]| && (fs[k][c.hdrLen..] == ps[k][c.hdrLen..] <==> KeepsPayload(c, ds[k], |ps[k]|, k))
    {
      assert Headed(packet[..c.hdrLen], ps[k]);
      PayloadLaw(c, ds[k], ps[k], k, fs[k]);
    }
    SamePayload(ps, fs, c.hdrLen);
  }

  /** With all patched fields in the header, the frames carry the packet: header and payload, in order. */
  lemma PacketCarried(c: Context, packet: seq<Byte>, ps: seq<seq<Byte>>, fs: seq<seq<Byte>>)
    requires Segmentable(c) && FieldsInside(c) && Segmented(c, packet, ps, fs) && |packet| >= c.hdrLen
    ensures Payload(fs, c.hdrLen) == packet[c.hdrLen..]
    ensures forall k :: 0 <= k < |fs| ==> FrameOk(c, packet[..c.hdrLen], k, fs[k])
  {
    hide Made, MadeFrom, FrameOk, Payload;
    var ds := Buffers(c, ps, fs);
    forall k | 0 <= k < |ps| ensures Placed(c, |ps[k]|) && KeepsPayload(c, ds[k], |ps[k]|, k) {
      assert Headed(packet[..c.hdrLen], ps[k]);
    }
    PacketLaw(c, packet, ps, fs, ds);
    forall k | 0 <= k < |fs| ensures FrameOk(c, packet[..c.hdrLen], k, fs[k]) {
      MadeIsFrame(c, packet[..c.hdrLen], ps[k], k, fs[k]);
    }
  }

  /** A header that ends right behind the sequence field, PSH and FIN bits in the payload byte that xmit_seg
      takes for the flags, and more than mss bytes to go: the first frame does not carry its payload. */
  lemma FlagsInPayload(p: seq<Byte>, f: seq<Byte>)
    requires var c := Context(0, 4, 12, 100, 1000, true, true, true);
             |p| == 112 && p[17] == 9 && Made(c, p, 0, f)
    ensures |f| == 112 && f[12..] != p[12..]
  {
    hide Patched;
    var c := Context(0, 4, 12, 100, 1000, true, true, true);
    var d: seq<Byte> :| MadeFrom(c, d, p, 0, f);
    PayloadLaw(c, d, p, 0, f);
  }

  lemma SeqShift(base: nat, k: nat, m: nat)
    ensures (base + k % W16 * m) % W32 == (base + k * m) % W32 <==> (k / W16 * m) % W16 == 0
  {
    var q, n := k / W16, k % W16;
    assert k * m == n * m + W16 * (q * m) by {
      assert k == W16 * q + n;
    }
    ShiftMod(base + n * m, q * m);
  }

  lemma ShiftMod(a: nat, b: nat)
    ensures a % W32 == (a + W16 * b) % W32 <==> b % W16 == 0
  {
    var q, r := b / W16, b % W16;
    assert W16 * b == W32 * q + W16 * r;
  }

  /** When the context holds the true payload length, PSH and FIN stay only on the last frame with
      payload and on an empty frame after it. */
  lemma PushOnLast(c: Context, packet: seq<Byte>, ps: seq<seq<Byte>>, fs: seq<seq<Byte>>, k: nat)
    requires Segmentable(c) && FieldsInside(c) && Segmented(c, packet, ps, fs) && |packet| >= c.hdrLen && c.tcp
    requires c.paylen == |packet| - c.hdrLen < W32 && k < |fs| <= W16
    ensures c.hdrLen <= |fs[k]|
    ensures Flagged(packet[c.tucss + 13], fs[k][c.tucss + 13], (k + 1) * c.mss < c.paylen)
  {
    hide Made, FrameOk, ClearPshFin;
    var hdr := packet[..c.hdrLen];
    MadeIsFrame(c, hdr, ps[k], k, fs[k]);
    FrameCount(c, packet, ps, fs);
    Remaining(c.paylen, k, c.mss);
    FrameFlags(c, hdr, k, fs[k]);
    assert hdr[c.tucss + 13] == packet[c.tucss + 13];
  }

  lemma FrameFlags(c: Context, hdr: seq<Byte>, k: nat, f: seq<Byte>)
    requires |hdr| == c.hdrLen && FieldsInside(c) && c.tcp && FrameOk(c, hdr, k, f) && k < W16
    ensures Flagged(hdr[c.tucss + 13], f[c.tucss + 13], (c.paylen - k * c.mss) % W32 > c.mss)
  {
    hide Get16, Get32, ClearPshFin;
    assert k % W16 == k;
  }

  lemma Remaining(x: nat, k: nat, m: nat)
    requires m > 0 && k <= x / m && x < W32
    ensures (x - k * m) % W32 == x - k * m
    ensures (x - k * m) > m <==> (k + 1) * m < x
  {
    MulMono(k, x / m, m);
    assert (k + 1) * m == k * m + m;
    assert 0 <= x - k * m < W32;
  }
}
