/**
  The RAM migration stream. A page is a header word (offset and flags), the block's name unless the
  page is of the same block as the one before, and the contents. The receiver keeps the block it last
  saw, so that both sides must agree on it at every header.
 */
module MigrationStream {
  import opened Bytes
  import opened Common

  const COMPRESS := 0x02
  const MEM_SIZE := 0x04
  const PAGE_FLAG := 0x08
  const EOS := 0x10
  const CONTINUE := 0x20
  const XBZRLE := 0x40
  const HOOK := 0x80
  const VERSION := 4

  datatype Block = Block(name: seq<Byte>, length: nat)

  /** One page of a block; offset is in pages. */
  datatype Page = Page(name: seq<Byte>, offset: nat, data: seq<Byte>)

  // ----- Big-endian words -----

  function Be16(v: nat): (s: seq<Byte>)
    ensures |s| == 2
  {
    [v / 256 % 256, v % 256]
  }

  /** qemu_put_be64 */
  function Be64(v: nat): (s: seq<Byte>)
    ensures |s| == 8
  {
    Be16(v / 0x1_0000_0000_0000) + Be16(v / 0x1_0000_0000 % 0x1_0000) + Be16(v / 0x1_0000 % 0x1_0000) + Be16(v % 0x1_0000)
  }

  /** qemu_get_be64 */
  function Get64(s: seq<Byte>, off: nat): nat
    requires Fits(s, off, 8)
  {
    Get32(s, off) * 0x1_0000_0000 + Get32(s, off + 4)
  }

  lemma Get16At(v: nat, s: seq<Byte>, pos: nat)
    requires v < 0x1_0000 && At(s, pos, Be16(v))
    ensures Get16(s, pos) == v
  {
    AtByte(s, pos, Be16(v), 0);
    AtByte(s, pos, Be16(v), 1);
  }

  /** What qemu_put_be64 wrote, qemu_get_be64 reads. */
  lemma Get64At(v: nat, s: seq<Byte>, pos: nat)
    requires v < WORD && At(s, pos, Be64(v))
    ensures Get64(s, pos) == v
  {
    var w3, w2, w1, w0 := v / 0x1_0000_0000_0000, v / 0x1_0000_0000 % 0x1_0000, v / 0x1_0000 % 0x1_0000, v % 0x1_0000;
    Words(v);
    AtSplit(s, pos, Be16(w3) + Be16(w2) + Be16(w1), Be16(w0));
    AtSplit(s, pos, Be16(w3) + Be16(w2), Be16(w1));
    AtSplit(s, pos, Be16(w3), Be16(w2));
    hide At, Be16, Get16;
    Get16At(w3, s, pos);
    Get16At(w2, s, pos + 2);
    Get16At(w1, s, pos + 4);
    Get16At(w0, s, pos + 6);
  }

  lemma Words(v: nat)
    requires v < WORD
    ensures var w3, w2, w1, w0 := v / 0x1_0000_0000_0000, v / 0x1_0000_0000 % 0x1_0000, v / 0x1_0000 % 0x1_0000, v % 0x1_0000;
            w3 < 0x1_0000 && (w3 * 0x1_0000 + w2) * 0x1_0000_0000 + (w1 * 0x1_0000 + w0) == v
  {
    var a, b, c := v / 0x1_0000, v / 0x1_0000_0000, v / 0x1_0000_0000_0000;
    DivIs(a, 0x1_0000, b);
    DivIs(b, 0x1_0000, c);
  }

  // ----- The sender -----

  predicate IsZero(data: seq<Byte>) {
    forall i :: 0 <= i < |data| ==> data[i] == 0
  }

  /** The header word of save_block_hdr: offset, continuation and kind of page. */
  function HeaderWord(cont: bool, zero: bool, offset: nat): nat {
    offset * PAGE + (if cont then CONTINUE else 0) + if zero then COMPRESS else PAGE_FLAG
  }

  /** The block's name follows unless the page continues a block. */
  function NamePart(cont: bool, name: seq<Byte>): seq<Byte>
    requires |name| < 256
  {
    if cont then [] else [|name|] + name
  }

  function Contents(p: Page): seq<Byte> {
    if IsZero(p.data) then [0] else p.data
  }

  /** A page as ram_save_block writes it, after a page of block `last`. */
  function EncodePage(last: Option<seq<Byte>>, p: Page): seq<Byte>
    requires |p.name| < 256
  {
    var cont := last == Some(p.name);
    Be64(HeaderWord(cont, IsZero(p.data), p.offset)) + NamePart(cont, p.name) + Contents(p)
  }

  // ----- The receiver -----

  datatype Error = Truncated | BadFlags | UnknownBlock | NoBlock | Unsupported

  /** The block last seen and the page writes made so far. */
  datatype LoadState = LoadState(cur: Option<seq<Byte>>, writes: seq<Page>)

  /** The outcome of one round of ram_load. */
  datatype Step = More(pos: nat, st: LoadState) | Done(pos: nat, st: LoadState) | Failed(error: Error, pos: nat, st: LoadState)

  predicate Known(dst: seq<Block>, name: seq<Byte>) {
    exists i :: 0 <= i < |dst| && dst[i].name == name
  }

  predicate Bit(f: nat, mask: nat)
    requires mask > 0
  {
    f / mask % 2 == 1
  }

  /** host_from_stream_offset: the block of a page, and where reading goes on. */
  function FindBlock(dst: seq<Block>, s: seq<Byte>, pos: nat, cont: bool, cur: Option<seq<Byte>>): (r: (Option<seq<Byte>>, nat, Error))
    requires pos <= |s|
    ensures pos <= r.1 <= |s|
  {
    if cont then (cur, pos, NoBlock)
    else if pos >= |s| then (None, pos, Truncated)
    else
      var len := s[pos];
      if pos + 1 + len > |s| then (None, pos, Truncated)
      else
        var name := s[pos + 1..pos + 1 + len];
        if Known(dst, name) then (Some(name), pos + 1 + len, UnknownBlock) else (None, pos + 1 + len, UnknownBlock)
  }

  /** A block of the sender that the receiver has too, with the same length. */
  predicate Accepted(dst: seq<Block>, b: Block) {
    Known(dst, b.name) && LengthOf(dst, b.name) == b.length
  }

  /** The block list of the setup section: names and lengths until `total` bytes are accounted for.
      Reading stops behind a block that does not match; ram_load then overwrites the error with that
      of the file and reads on. None when the stream ends. */
  function LoadBlocks(dst: seq<Block>, s: seq<Byte>, pos: nat, total: nat): (r: Option<nat>)
    requires pos <= |s|
    ensures r.Some? ==> pos <= r.value <= |s|
    decreases |s| - pos
  {
    if total == 0 then Some(pos)
    else if pos >= |s| || pos + 1 + s[pos] + 8 > |s| then None
    else
      var len := s[pos];
      var b, next := Block(s[pos + 1..pos + 1 + len], Get64(s, pos + 1 + len)), pos + 1 + len + 8;
      if Accepted(dst, b) then LoadBlocks(dst, s, next, (total - b.length) % WORD) else Some(next)
  }

  /** The length of the first block with the name. */
  function LengthOf(dst: seq<Block>, name: seq<Byte>): nat
    requires Known(dst, name)
  {
    if dst[0].name == name then dst[0].length else LengthOf(dst[1..], name)
  }

  /** The state after a page whose block was not found: a name that is not known makes the receiver forget the
      block it had. */
  function Forgotten(st: LoadState, error: Error): LoadState {
    if error.UnknownBlock? then st.(cur := None) else st
  }

  /** One round of the loop of ram_load. */
  function LoadStep(dst: seq<Block>, s: seq<Byte>, pos: nat, st: LoadState): (r: Step)
    requires pos <= |s|
    ensures pos <= r.pos <= |s| && (!r.Failed? ==> pos < r.pos)
  {
    if pos + 8 > |s| then Failed(Truncated, |s|, st)
    else
      var w := Get64(s, pos);
      var flags, addr := w % PAGE, w / PAGE;
      if Bit(flags, MEM_SIZE) then
        var next := LoadBlocks(dst, s, pos + 8, addr * PAGE);
        if next.Some? then More(next.value, st) else Failed(Truncated, |s|, st)
      else if Bit(flags, COMPRESS) then
        var (block, next, error) := FindBlock(dst, s, pos + 8, Bit(flags, CONTINUE), st.cur);
        if block == None then Failed(error, next, Forgotten(st, error))
        else if next + 1 > |s| then Failed(Truncated, |s|, st)
        else More(next + 1, LoadState(block, st.writes + [Page(block.value, addr, seq(PAGE, _ => s[next]))]))
      else if Bit(flags, PAGE_FLAG) then
        var (block, next, error) := FindBlock(dst, s, pos + 8, Bit(flags, CONTINUE), st.cur);
        if block == None then Failed(error, next, Forgotten(st, error))
        else if next + PAGE > |s| then Failed(Truncated, |s|, st)
        else More(next + PAGE, LoadState(block, st.writes + [Page(block.value, addr, s[next..next + PAGE])]))
      else if Bit(flags, XBZRLE) || Bit(flags, HOOK) then Failed(Unsupported, pos + 8, st)
      else if Bit(flags, EOS) then Done(pos + 8, st)
      else Failed(BadFlags, pos + 8, st)
  }

  /** ram_load: one section of the stream, up to its end mark. */
  function Load(dst: seq<Block>, s: seq<Byte>, pos: nat, st: LoadState): Step
    requires pos <= |s|
    decreases |s| - pos
  {
    var r := LoadStep(dst, s, pos, st);
    if r.More? then Load(dst, s, r.pos, r.st) else r
  }

  lemma LoadUnfold(dst: seq<Block>, s: seq<Byte>, pos: nat, st: LoadState)
    requires pos <= |s|
    ensures var r := LoadStep(dst, s, pos, st);
            Load(dst, s, pos, st) == if r.More? then Load(dst, s, r.pos, r.st) else r
  {
    hide LoadStep;
  }

  // ----- Round trip -----

  /** When the sender remembers a block, the receiver remembers the same one. */
  predicate Agree(last: Option<seq<Byte>>, cur: Option<seq<Byte>>) {
    last.Some? ==> cur == last
  }

  /** A page the sender can send to a machine with the blocks dst. */
  ghost predicate Sendable(dst: seq<Block>, p: Page) {
    |p.name| < 256 && Known(dst, p.name) && |p.data| == PAGE && p.offset * PAGE + PAGE <= WORD
  }

  /** The bits of the flags the sender uses. */
  lemma FlagBits(offset: nat, cont: bool, zero: bool)
    ensures var w := HeaderWord(cont, zero, offset);
            && w / PAGE == offset
            && !Bit(w % PAGE, MEM_SIZE) && (Bit(w % PAGE, COMPRESS) <==> zero)
            && (Bit(w % PAGE, PAGE_FLAG) <==> !zero) && (Bit(w % PAGE, CONTINUE) <==> cont)
  {
    DivIs(HeaderWord(cont, zero, offset), PAGE, offset);
  }

  /** The receiver finds the sender's block, when both agree on the block before. */
  lemma NameAt(dst: seq<Block>, s: seq<Byte>, pos: nat, cont: bool, name: seq<Byte>, cur: Option<seq<Byte>>)
    requires pos <= |s| && |name| < 256 && Known(dst, name) && (cont ==> cur == Some(name))
    requires At(s, pos, NamePart(cont, name))
    ensures var r := FindBlock(dst, s, pos, cont, cur);
            r.0 == Some(name) && r.1 == pos + |NamePart(cont, name)|
  {
    if !cont {
      AtByte(s, pos, [|name|] + name, 0);
      AtSplit(s, pos, [|name|], name);
    }
  }

  /** What one round does once the header word and the block are known. */
  lemma RoundIs(dst: seq<Block>, s: seq<Byte>, pos: nat, st: LoadState, offset: nat, cont: bool, zero: bool, name: seq<Byte>, next: nat)
    requires pos + 8 <= |s| && Get64(s, pos) == HeaderWord(cont, zero, offset)
    requires var r := FindBlock(dst, s, pos + 8, cont, st.cur); r.0 == Some(name) && r.1 == next
    requires next + (if zero then 1 else PAGE) <= |s|
    ensures LoadStep(dst, s, pos, st) ==
              if zero
              then More(next + 1, LoadState(Some(name), st.writes + [Page(name, offset, seq(PAGE, _ => s[next]))]))
              else More(next + PAGE, LoadState(Some(name), st.writes + [Page(name, offset, s[next..next + PAGE])]))
  {
    FlagBits(offset, cont, zero);
    hide Get64, FindBlock, LoadBlocks, Bit, HeaderWord;
  }

  lemma WordFits(cont: bool, zero: bool, offset: nat)
    requires offset * PAGE + PAGE <= WORD
    ensures HeaderWord(cont, zero, offset) < WORD
  {}

  lemma PageParts(s: seq<Byte>, pos: nat, last: Option<seq<Byte>>, p: Page)
    requires |p.name| < 256 && At(s, pos, EncodePage(last, p))
    ensures var cont := last == Some(p.name);
            var n := |NamePart(cont, p.name)|;
            && At(s, pos, Be64(HeaderWord(cont, IsZero(p.data), p.offset))) && At(s, pos + 8, NamePart(cont, p.name))
            && At(s, pos + 8 + n, Contents(p)) && pos + 8 + n <= |s| && |EncodePage(last, p)| == 8 + n + |Contents(p)|
  {
    hide At, Be64, HeaderWord, NamePart, Contents, IsZero;
    var cont := last == Some(p.name);
    var w, n, c := Be64(HeaderWord(cont, IsZero(p.data), p.offset)), NamePart(cont, p.name), Contents(p);
    AtSplit(s, pos, w + n, c);
    AtFits(s, pos, w + n);
    AtSplit(s, pos, w, n);
  }

  lemma ContentsAt(s: seq<Byte>, pos: nat, p: Page)
    requires |p.data| == PAGE && At(s, pos, Contents(p))
    ensures pos + |Contents(p)| <= |s| && |Contents(p)| == if IsZero(p.data) then 1 else PAGE
    ensures if IsZero(p.data) then seq(PAGE, _ => s[pos]) == p.data else s[pos..pos + PAGE] == p.data
  {
    AtSlice(s, pos, Contents(p));
    if IsZero(p.data) {
      AtByte(s, pos, [0], 0);
    }
  }

  /** One page is loaded as it was sent. */
  lemma PageStep(dst: seq<Block>, s: seq<Byte>, pos: nat, last: Option<seq<Byte>>, p: Page, st: LoadState)
    requires Sendable(dst, p) && Agree(last, st.cur) && At(s, pos, EncodePage(last, p))
    ensures LoadStep(dst, s, pos, st) == More(pos + |EncodePage(last, p)|, LoadState(Some(p.name), st.writes + [p]))
  {
    hide Get64, Be64, FindBlock, LoadStep, NamePart, At, Known, Contents, EncodePage, HeaderWord, IsZero;
    var cont, zero := last == Some(p.name), IsZero(p.data);
    PageParts(s, pos, last, p);
    WordFits(cont, zero, p.offset);
    Get64At(HeaderWord(cont, zero, p.offset), s, pos);
    NameAt(dst, s, pos + 8, cont, p.name, st.cur);
    var next := pos + 8 + |NamePart(cont, p.name)|;
    ContentsAt(s, next, p);
    RoundIs(dst, s, pos, st, p.offset, cont, zero, p.name, next);
  }

  /** The bytes of a page on the wire: a big-endian word with the address and the flags 0x20 for a page of the block
      before, 0x02 for a page of zeros and 0x08 for another, the name with its length in front unless it is known
      already, and the contents, or one zero byte. */
  lemma WireFormat(last: Option<seq<Byte>>, p: Page)
    requires |p.name| < 256 && |p.data| == 4096 && p.offset * 4096 + 4096 <= WORD
    ensures var e, cont, zero := EncodePage(last, p), last == Some(p.name), forall i :: 0 <= i < 4096 ==> p.data[i] == 0;
            var n := if cont then 0 else 1 + |p.name|;
            && |e| == 8 + n + (if zero then 1 else 4096)
            && Get64(e, 0) == p.offset * 4096 + (if cont then 0x20 else 0) + (if zero then 0x02 else 0x08)
            && (!cont ==> e[8] == |p.name| && e[9..9 + |p.name|] == p.name)
            && if zero then e[8 + n] == 0 else e[8 + n..] == p.data
  {
    hide Be64, Get64, HeaderWord, At, NamePart, Contents, EncodePage, IsZero;
    var e, cont := EncodePage(last, p), last == Some(p.name);
    AllOf(e);
    PageParts(e, 0, last, p);
    WordFits(cont, IsZero(p.data), p.offset);
    WordIs(cont, IsZero(p.data), p.offset);
    Get64At(HeaderWord(cont, IsZero(p.data), p.offset), e, 0);
    NameBytes(e, 8, cont, p.name);
    ContentBytes(e, 8 + |NamePart(cont, p.name)|, p);
    ZeroIs(p.data);
  }

  lemma AllOf(e: seq<Byte>)
    ensures At(e, 0, e)
  {}

  lemma ZeroIs(data: seq<Byte>)
    ensures IsZero(data) <==> forall i :: 0 <= i < |data| ==> data[i] == 0
  {}

  lemma NameBytes(s: seq<Byte>, pos: nat, cont: bool, name: seq<Byte>)
    requires |name| < 256 && At(s, pos, NamePart(cont, name))
    ensures |NamePart(cont, name)| == if cont then 0 else 1 + |name|
    ensures !cont ==> pos + 1 + |name| <= |s| && s[pos] == |name| && s[pos + 1..pos + 1 + |name|] == name
  {
    if !cont {
      AtByte(s, pos, [|name|] + name, 0);
      AtSplit(s, pos, [|name|], name);
    }
  }

  lemma ContentBytes(s: seq<Byte>, pos: nat, p: Page)
    requires At(s, pos, Contents(p))
    ensures |Contents(p)| == if IsZero(p.data) then 1 else |p.data|
    ensures pos + |Contents(p)| <= |s| && if IsZero(p.data) then s[pos] == 0 else s[pos..pos + |p.data|] == p.data
  {
    AtSlice(s, pos, Contents(p));
    if IsZero(p.data) {
      AtByte(s, pos, [0], 0);
    }
  }

  lemma WordIs(cont: bool, zero: bool, offset: nat)
    ensures HeaderWord(cont, zero, offset) == offset * 4096 + (if cont then 0x20 else 0) + (if zero then 0x02 else 0x08)
  {}

  /** A page of a block that the receiver does not have is not written, and fails the load. */
  lemma UnknownFails(dst: seq<Block>, s: seq<Byte>, pos: nat, last: Option<seq<Byte>>, p: Page, st: LoadState)
    requires |p.name| < 256 && !Known(dst, p.name) && p.offset * PAGE + PAGE <= WORD && last != Some(p.name)
    requires At(s, pos, EncodePage(last, p)) && pos <= |s|
    ensures Load(dst, s, pos, st) == Failed(UnknownBlock, pos + 9 + |p.name|, LoadState(None, st.writes))
  {
    hide Get64, Be64, At, Known, Contents, EncodePage, HeaderWord, IsZero, Load, LoadBlocks, Bit;
    PageParts(s, pos, last, p);
    WordFits(false, IsZero(p.data), p.offset);
    Get64At(HeaderWord(false, IsZero(p.data), p.offset), s, pos);
    FlagBits(p.offset, false, IsZero(p.data));
    UnknownAt(dst, s, pos + 8, p.name, st.cur);
    LoadUnfold(dst, s, pos, st);
  }

  lemma UnknownAt(dst: seq<Block>, s: seq<Byte>, pos: nat, name: seq<Byte>, cur: Option<seq<Byte>>)
    requires pos <= |s| && |name| < 256 && !Known(dst, name) && At(s, pos, NamePart(false, name))
    ensures FindBlock(dst, s, pos, false, cur) == (None, pos + 1 + |name|, UnknownBlock)
  {
    hide Known;
    AtByte(s, pos, [|name|] + name, 0);
    AtSplit(s, pos, [|name|], name);
  }

  /** A page that continues a block when there is none fails the load too. */
  lemma NoBlockFails(dst: seq<Block>, s: seq<Byte>, pos: nat, offset: nat, zero: bool, st: LoadState)
    requires pos + 8 <= |s| && Get64(s, pos) == HeaderWord(true, zero, offset) && st.cur == None
    ensures Load(dst, s, pos, st) == Failed(NoBlock, pos + 8, st)
  {
    hide Get64, HeaderWord, Load, LoadBlocks, Bit;
    FlagBits(offset, true, zero);
    LoadUnfold(dst, s, pos, st);
  }

  /** The remembered block and all pages written belong to blocks of the receiver. */
  ghost predicate AllKnown(dst: seq<Block>, st: LoadState) {
    (st.cur.Some? ==> Known(dst, st.cur.value)) && forall p :: p in st.writes ==> Known(dst, p.name)
  }

  /** Whatever bytes a stream holds, only pages of the receiver's own blocks are written, whole and one by one. */
  lemma {:induction false} OnlyKnown(dst: seq<Block>, s: seq<Byte>, pos: nat, st: LoadState)
    requires pos <= |s| && AllKnown(dst, st)
    ensures var r := Load(dst, s, pos, st); AllKnown(dst, r.st) && st.writes <= r.st.writes
    ensures var r := Load(dst, s, pos, st); forall i :: |st.writes| <= i < |r.st.writes| ==> |r.st.writes[i].data| == PAGE
    decreases |s| - pos
  {
    hide LoadStep, Load, AllKnown;
    StepKnown(dst, s, pos, st);
    LoadUnfold(dst, s, pos, st);
    var r := LoadStep(dst, s, pos, st);
    if r.More? {
      OnlyKnown(dst, s, r.pos, r.st);
    }
  }

  lemma StepKnown(dst: seq<Block>, s: seq<Byte>, pos: nat, st: LoadState)
    requires pos <= |s| && AllKnown(dst, st)
    ensures var r := LoadStep(dst, s, pos, st);
            && AllKnown(dst, r.st) && (r.More? ==> pos < r.pos <= |s|)
            && (r.st.writes == st.writes || exists p :: r.st.writes == st.writes + [p] && |p.data| == PAGE)
  {
    hide Get64, LoadBlocks, Bit, Known, FindBlock;
    if pos + 8 <= |s| {
      FoundKnown(dst, s, pos + 8, true, st.cur);
      FoundKnown(dst, s, pos + 8, false, st.cur);
    }
  }

  lemma FoundKnown(dst: seq<Block>, s: seq<Byte>, pos: nat, cont: bool, cur: Option<seq<Byte>>)
    requires pos <= |s| && (cur.Some? ==> Known(dst, cur.value))
    ensures var b := FindBlock(dst, s, pos, cont, cur).0; b.Some? ==> Known(dst, b.value)
  {}

  function EncodePages(last: Option<seq<Byte>>, ps: seq<Page>): seq<Byte>
    requires forall i :: 0 <= i < |ps| ==> |ps[i].name| < 256
    decreases |ps|
  {
    if ps == [] then [] else EncodePage(last, ps[0]) + EncodePages(Some(ps[0].name), ps[1..])
  }

  /** The block both sides remember after the pages. */
  function LastOf(last: Option<seq<Byte>>, ps: seq<Page>): Option<seq<Byte>> {
    if ps == [] then last else Some(ps[|ps| - 1].name)
  }

  /** The receiver's state after the pages. */
  function After(st: LoadState, ps: seq<Page>): LoadState {
    LoadState(LastOf(st.cur, ps), st.writes + ps)
  }

  ghost predicate AllSendable(dst: seq<Block>, ps: seq<Page>) {
    forall i :: 0 <= i < |ps| ==> Sendable(dst, ps[i])
  }

  /** Any interleaving of pages is loaded as it was sent. */
  lemma {:induction false} PagesStep(dst: seq<Block>, s: seq<Byte>, pos: nat, last: Option<seq<Byte>>, ps: seq<Page>, st: LoadState)
    requires AllSendable(dst, ps) && Agree(last, st.cur) && pos <= |s| && At(s, pos, EncodePages(last, ps))
    ensures Load(dst, s, pos, st) == Load(dst, s, pos + |EncodePages(last, ps)|, After(st, ps))
    decreases |ps|
  {
    hide Load, LoadStep, EncodePage, At;
    if ps == [] {
      assert st.writes + ps == st.writes;
    } else {
      var first, rest := EncodePage(last, ps[0]), EncodePages(Some(ps[0].name), ps[1..]);
      var st1 := LoadState(Some(ps[0].name), st.writes + [ps[0]]);
      AtSplit(s, pos, first, rest);
      AtFits(s, pos, first);
      PageStep(dst, s, pos, last, ps[0], st);
      LoadUnfold(dst, s, pos, st);
      PagesStep(dst, s, pos + |first|, Some(ps[0].name), ps[1..], st1);
      assert st1.writes + ps[1..] == st.writes + ps;
    }
  }

  lemma EosBits()
    ensures !Bit(EOS, MEM_SIZE) && !Bit(EOS, COMPRESS) && !Bit(EOS, PAGE_FLAG) && !Bit(EOS, XBZRLE) && !Bit(EOS, HOOK) && Bit(EOS, EOS)
  {}

  lemma EosRound(dst: seq<Block>, s: seq<Byte>, pos: nat, st: LoadState)
    requires pos + 8 <= |s| && Get64(s, pos) == EOS
    ensures LoadStep(dst, s, pos, st) == Done(pos + 8, st)
  {
    EosBits();
    hide Get64, LoadBlocks, FindBlock, Bit;
  }

  lemma EosStep(dst: seq<Block>, s: seq<Byte>, pos: nat, st: LoadState)
    requires At(s, pos, Be64(EOS))
    ensures Load(dst, s, pos, st) == Done(pos + 8, st)
  {
    Get64At(EOS, s, pos);
    AtFits(s, pos, Be64(EOS));
    hide Get64, Be64, At, Load, LoadStep;
    EosRound(dst, s, pos, st);
    LoadUnfold(dst, s, pos, st);
  }

  /** A section: pages and the end mark. */
  function EncodeSection(last: Option<seq<Byte>>, ps: seq<Page>): seq<Byte>
    requires forall i :: 0 <= i < |ps| ==> |ps[i].name| < 256
  {
    EncodePages(last, ps) + Be64(EOS)
  }

  lemma SectionParts(s: seq<Byte>, pos: nat, last: Option<seq<Byte>>, ps: seq<Page>)
    requires forall i :: 0 <= i < |ps| ==> |ps[i].name| < 256
    requires At(s, pos, EncodeSection(last, ps))
    ensures var n := |EncodePages(last, ps)|;
            && At(s, pos, EncodePages(last, ps)) && At(s, pos + n, Be64(EOS))
            && pos + n <= |s| && |EncodeSection(last, ps)| == n + 8
  {
    AtSplit(s, pos, EncodePages(last, ps), Be64(EOS));
  }

  /** A section is loaded as it was sent. */
  lemma SectionStep(dst: seq<Block>, s: seq<Byte>, pos: nat, last: Option<seq<Byte>>, ps: seq<Page>, st: LoadState)
    requires AllSendable(dst, ps) && Agree(last, st.cur) && pos <= |s| && At(s, pos, EncodeSection(last, ps))
    ensures Load(dst, s, pos, st) == Done(pos + |EncodeSection(last, ps)|, After(st, ps))
  {
    hide Load, EncodePages, Be64, LoadStep, At, AllSendable, After, Agree, EncodeSection;
    PageNamesFit(dst, ps);
    SectionParts(s, pos, last, ps);
    PagesStep(dst, s, pos, last, ps, st);
    EosStep(dst, s, pos + |EncodePages(last, ps)|, After(st, ps));
  }

  lemma PageNamesFit(dst: seq<Block>, ps: seq<Page>)
    requires AllSendable(dst, ps)
    ensures forall i :: 0 <= i < |ps| ==> |ps[i].name| < 256
  {}

  // ----- The setup section -----

  function EncodeBlocks(bs: seq<Block>): seq<Byte>
    requires forall i :: 0 <= i < |bs| ==> |bs[i].name| < 256
  {
    if bs == [] then [] else EncodeBlock(bs[0]) + EncodeBlocks(bs[1..])
  }

  function EncodeBlock(b: Block): (e: seq<Byte>)
    requires |b.name| < 256
    ensures |e| == 1 + |b.name| + 8
  {
    [|b.name|] + b.name + Be64(b.length)
  }

  function Total(bs: seq<Block>): nat {
    if bs == [] then 0 else bs[0].length + Total(bs[1..])
  }

  /** The part of ram_save_setup that goes into the stream. */
  function EncodeSetup(bs: seq<Block>): seq<Byte>
    requires forall i :: 0 <= i < |bs| ==> |bs[i].name| < 256
  {
    Be64(Total(bs) + MEM_SIZE) + EncodeBlocks(bs) + Be64(EOS)
  }

  /** Blocks of whole pages, that fit the address space together. */
  ghost predicate Sane(bs: seq<Block>) {
    && (forall i :: 0 <= i < |bs| ==> |bs[i].name| < 256 && bs[i].length > 0 && bs[i].length % PAGE == 0)
    && Total(bs) + PAGE <= WORD
  }

  /** The receiver has every block of the sender, with the same length. */
  ghost predicate Matching(dst: seq<Block>, bs: seq<Block>) {
    Sane(bs) && forall i :: 0 <= i < |bs| ==> Accepted(dst, bs[i])
  }

  lemma {:induction false} BlocksStep(dst: seq<Block>, s: seq<Byte>, pos: nat, bs: seq<Block>)
    requires Matching(dst, bs) && pos <= |s| && At(s, pos, EncodeBlocks(bs))
    ensures LoadBlocks(dst, s, pos, Total(bs)) == Some(pos + |EncodeBlocks(bs)|)
    decreases |bs|
  {
    hide At, EncodeBlock, Accepted, LoadBlocks;
    NoBlocks(dst, s, pos);
    if bs != [] {
      AtSplit(s, pos, EncodeBlock(bs[0]), EncodeBlocks(bs[1..]));
      AtFits(s, pos, EncodeBlock(bs[0]));
      BlockStep(dst, s, pos, bs[0], Total(bs));
      BlocksStep(dst, s, pos + |EncodeBlock(bs[0])|, bs[1..]);
    }
  }

  lemma NoBlocks(dst: seq<Block>, s: seq<Byte>, pos: nat)
    requires pos <= |s|
    ensures LoadBlocks(dst, s, pos, 0) == Some(pos)
  {}

  /** Block k is the first that does not match. */
  ghost predicate FirstMismatch(dst: seq<Block>, bs: seq<Block>, k: nat) {
    k < |bs| && !Accepted(dst, bs[k]) && forall i :: 0 <= i < k ==> Accepted(dst, bs[i])
  }

  /** Reading the list stops behind the first block that does not match. */
  lemma {:induction false} BlocksStop(dst: seq<Block>, s: seq<Byte>, pos: nat, bs: seq<Block>, k: nat)
    requires Sane(bs) && FirstMismatch(dst, bs, k) && pos <= |s| && At(s, pos, EncodeBlocks(bs))
    ensures LoadBlocks(dst, s, pos, Total(bs)) == Some(pos + |EncodeBlocks(bs[..k + 1])|)
    decreases |bs|
  {
    hide At, EncodeBlock, Accepted, LoadBlocks;
    AtSplit(s, pos, EncodeBlock(bs[0]), EncodeBlocks(bs[1..]));
    AtFits(s, pos, EncodeBlock(bs[0]));
    BlockStep(dst, s, pos, bs[0], Total(bs));
    assert bs[..k + 1][1..] == bs[1..][..k];
    if k == 0 {
      assert EncodeBlocks(bs[1..][..0]) == [];
    } else {
      BlocksStop(dst, s, pos + |EncodeBlock(bs[0])|, bs[1..], k - 1);
    }
  }

  /** One entry of the block list. */
  lemma BlocksUnfold(dst: seq<Block>, s: seq<Byte>, pos: nat, b: Block, total: nat)
    requires 0 < total < WORD && pos + 1 + |b.name| + 8 <= |s| && s[pos] == |b.name|
    requires s[pos + 1..pos + 1 + |b.name|] == b.name && Get64(s, pos + 1 + |b.name|) == b.length <= total
    ensures var next := pos + 1 + |b.name| + 8;
            LoadBlocks(dst, s, pos, total) == if Accepted(dst, b) then LoadBlocks(dst, s, next, total - b.length) else Some(next)
  {
    hide Get64, Accepted;
    assert (total - b.length) % WORD == total - b.length;
  }

  lemma BlockStep(dst: seq<Block>, s: seq<Byte>, pos: nat, b: Block, total: nat)
    requires |b.name| < 256 && 0 < b.length <= total < WORD && At(s, pos, EncodeBlock(b)) && pos + |EncodeBlock(b)| <= |s|
    ensures var next := pos + |EncodeBlock(b)|;
            LoadBlocks(dst, s, pos, total) == if Accepted(dst, b) then LoadBlocks(dst, s, next, total - b.length) else Some(next)
  {
    hide At, Be64, Get64, Accepted, LoadBlocks;
    var head: seq<Byte> := [|b.name|];
    AtSplit(s, pos, head + b.name, Be64(b.length));
    AtSplit(s, pos, head, b.name);
    AtByte(s, pos, head, 0);
    AtSlice(s, pos + 1, b.name);
    Get64At(b.length, s, pos + 1 + |b.name|);
    BlocksUnfold(dst, s, pos, b, total);
  }

  lemma {:induction false} TotalAligned(bs: seq<Block>)
    requires forall i :: 0 <= i < |bs| ==> bs[i].length % PAGE == 0
    ensures Total(bs) % PAGE == 0
  {
    if bs != [] {
      TotalAligned(bs[1..]);
    }
  }

  /** The receiver accepts the setup section of a matching machine and writes nothing. */
  lemma SetupStep(dst: seq<Block>, s: seq<Byte>, pos: nat, bs: seq<Block>, st: LoadState)
    requires Matching(dst, bs) && At(s, pos, EncodeSetup(bs))
    ensures Load(dst, s, pos, st) == Done(pos + |EncodeSetup(bs)|, st)
  {
    hide Get64, Be64, LoadBlocks, EncodeBlocks, LoadStep, At, Load, Accepted;
    SetupParts(s, pos, bs);
    BlocksStep(dst, s, pos + 8, bs);
    SetupRound(dst, s, pos, bs, pos + 8 + |EncodeBlocks(bs)|, st);
    LoadUnfold(dst, s, pos, st);
    EosStep(dst, s, pos + 8 + |EncodeBlocks(bs)|, st);
  }

  /** A block that does not match is no error of the load: it reads on behind that block, taking the
      rest of the list for page headers. */
  lemma SetupMismatch(dst: seq<Block>, s: seq<Byte>, pos: nat, bs: seq<Block>, k: nat, st: LoadState)
    requires Sane(bs) && FirstMismatch(dst, bs, k) && At(s, pos, EncodeSetup(bs))
    ensures var next := pos + 8 + |EncodeBlocks(bs[..k + 1])|;
            next <= |s| && Load(dst, s, pos, st) == Load(dst, s, next, st)
  {
    hide Get64, Be64, LoadBlocks, EncodeBlocks, LoadStep, At, Load, Accepted;
    SetupParts(s, pos, bs);
    BlocksStop(dst, s, pos + 8, bs, k);
    SetupRound(dst, s, pos, bs, pos + 8 + |EncodeBlocks(bs[..k + 1])|, st);
    LoadUnfold(dst, s, pos, st);
  }

  /** When it is the last block that does not match, the setup section is accepted all the same. */
  lemma LastMismatchAccepted(dst: seq<Block>, s: seq<Byte>, pos: nat, bs: seq<Block>, st: LoadState)
    requires bs != [] && Sane(bs) && FirstMismatch(dst, bs, |bs| - 1) && At(s, pos, EncodeSetup(bs))
    ensures Load(dst, s, pos, st) == Done(pos + |EncodeSetup(bs)|, st)
  {
    hide Be64, EncodeBlocks, At, Load, Accepted;
    SetupMismatch(dst, s, pos, bs, |bs| - 1, st);
    assert bs[..|bs|] == bs;
    SetupParts(s, pos, bs);
    EosStep(dst, s, pos + 8 + |EncodeBlocks(bs)|, st);
  }

  /** A receiver with a block "a" accepts the setup section of a sender with a block "b". */
  lemma MismatchExample(st: LoadState)
    ensures var dst, bs: seq<Block> := [Block([97], PAGE)], [Block([98], PAGE)];
            !Known(dst, bs[0].name) && Load(dst, EncodeSetup(bs), 0, st) == Done(|EncodeSetup(bs)|, st)
  {
    var dst, bs: seq<Block> := [Block([97], PAGE)], [Block([98], PAGE)];
    assert Total(bs) == PAGE + Total([]);
    assert dst[0].name[0] != bs[0].name[0];
    hide Load, EncodeSetup, LengthOf;
    LastMismatchAccepted(dst, EncodeSetup(bs), 0, bs, st);
  }

  /** The low byte of a word decides its flags. */
  lemma LowByte(s: seq<Byte>, pos: nat)
    requires pos + 8 <= |s|
    ensures var flags, c := Get64(s, pos) % PAGE, s[pos + 7];
            && (Bit(flags, COMPRESS) <==> Bit(c, COMPRESS)) && (Bit(flags, MEM_SIZE) <==> Bit(c, MEM_SIZE))
            && (Bit(flags, PAGE_FLAG) <==> Bit(c, PAGE_FLAG)) && (Bit(flags, EOS) <==> Bit(c, EOS))
            && (Bit(flags, CONTINUE) <==> Bit(c, CONTINUE))
            && (Bit(flags, XBZRLE) <==> Bit(c, XBZRLE)) && (Bit(flags, HOOK) <==> Bit(c, HOOK))
  {
    var h: nat, c: nat := s[pos + 6], s[pos + 7];
    var w := Get64(s, pos);
    LowWord(s, pos);
    LowBits(h % 16, c);
  }

  lemma LowWord(s: seq<Byte>, pos: nat)
    requires pos + 8 <= |s|
    ensures var h: nat, c: nat := s[pos + 6], s[pos + 7]; Get64(s, pos) % PAGE == h % 16 * 256 + c
  {
    var h: nat, c: nat := s[pos + 6], s[pos + 7];
    var high := (Get32(s, pos) * 0x1_0000 + Get16(s, pos + 4)) * 16 + h / 16;
    assert Get64(s, pos) == high * PAGE + (h % 16 * 256 + c);
    DivIs(Get64(s, pos), PAGE, high);
  }

  lemma LowBits(h: nat, c: nat)
    requires c < 256
    ensures var f := h * 256 + c;
            && (Bit(f, COMPRESS) <==> Bit(c, COMPRESS)) && (Bit(f, MEM_SIZE) <==> Bit(c, MEM_SIZE))
            && (Bit(f, PAGE_FLAG) <==> Bit(c, PAGE_FLAG)) && (Bit(f, EOS) <==> Bit(c, EOS))
            && (Bit(f, CONTINUE) <==> Bit(c, CONTINUE))
            && (Bit(f, XBZRLE) <==> Bit(c, XBZRLE)) && (Bit(f, HOOK) <==> Bit(c, HOOK))
  {
    hide Bit;
    LowBit(c, COMPRESS, h * 64);
    LowBit(c, MEM_SIZE, h * 32);
    LowBit(c, PAGE_FLAG, h * 16);
    LowBit(c, EOS, h * 8);
    LowBit(c, CONTINUE, h * 4);
    LowBit(c, XBZRLE, h * 2);
    LowBit(c, HOOK, h);
  }

  /** Adding an even number of masks does not change the masked bit. */
  lemma LowBit(c: nat, mask: nat, e: nat)
    requires mask > 0
    ensures Bit(mask * (2 * e) + c, mask) <==> Bit(c, mask)
  {
    AddMultiple(c, mask, 2 * e);
    AddEven(c / mask, e);
  }

  lemma AddEven(d: nat, e: nat)
    ensures (2 * e + d) % 2 == d % 2
  {}

  lemma AddMultiple(c: nat, m: nat, e: nat)
    requires m > 0
    ensures (m * e + c) / m == e + c / m
  {
    var d := c / m;
    assert (e + d) * m == m * e + d * m;
    DivIs(m * e + c, m, e + d);
  }

  /** A byte whose flags ask for nothing that is read from the stream: no block list and no hook, and a page
      only if it continues a block. */
  predicate Decided(c: Byte) {
    !Bit(c, MEM_SIZE) && !Bit(c, HOOK) && (Bit(c, CONTINUE) || !(Bit(c, COMPRESS) || Bit(c, PAGE_FLAG) || Bit(c, XBZRLE)))
  }

  /** Of those, the end mark alone is accepted. */
  predicate EndsSection(c: Byte) {
    Bit(c, EOS) && !Bit(c, COMPRESS) && !Bit(c, PAGE_FLAG) && !Bit(c, XBZRLE)
  }

  /** A header with such flags is accepted exactly when it is an end mark, as long as no block was seen. */
  lemma DecidedRound(dst: seq<Block>, s: seq<Byte>, pos: nat, st: LoadState)
    requires pos + 8 <= |s| && st.cur == None && Decided(s[pos + 7])
    ensures Load(dst, s, pos, st).Done? <==> EndsSection(s[pos + 7])
    ensures Load(dst, s, pos, st).Failed? <==> !EndsSection(s[pos + 7])
  {
    LowByte(s, pos);
    LoadUnfold(dst, s, pos, st);
    hide Get64, LoadBlocks, Load, Bit;
  }

  /** Exactly when a setup section is accepted whose block k, not the last, is the first that does not match:
      the first eight bytes of the next block's entry are read as a header word, the last of them as its flags.
      That is byte 6 of the name, or a byte of the length when the name is shorter. */
  lemma MismatchLaw(dst: seq<Block>, s: seq<Byte>, pos: nat, bs: seq<Block>, k: nat, st: LoadState)
    requires Sane(bs) && FirstMismatch(dst, bs, k) && k + 1 < |bs| && pos <= |s| && At(s, pos, EncodeSetup(bs)) && st.cur == None
    requires |bs[k + 1].name| < 256 && Decided(EncodeBlock(bs[k + 1])[7])
    ensures Load(dst, s, pos, st).Done? <==> EndsSection(EncodeBlock(bs[k + 1])[7])
    ensures Load(dst, s, pos, st).Failed? <==> !EndsSection(EncodeBlock(bs[k + 1])[7])
  {
    hide EncodeBlocks, LoadStep, At, Load, Decided, EndsSection, Sane, EncodeSetup, FirstMismatch, EncodeBlock;
    var next := SetupNext(s, pos, bs, k);
    SetupMismatch(dst, s, pos, bs, k, st);
    DecidedRound(dst, s, next, st);
  }

  lemma SetupNext(s: seq<Byte>, pos: nat, bs: seq<Block>, k: nat) returns (next: nat)
    requires Sane(bs) && k + 1 < |bs| && At(s, pos, EncodeSetup(bs))
    ensures forall i :: 0 <= i <= k + 1 ==> |bs[i].name| < 256
    ensures next == pos + 8 + |EncodeBlocks(bs[..k + 1])| && next + 8 <= |s| && s[next + 7] == EncodeBlock(bs[k + 1])[7]
  {
    hide At, EncodeBlocks, EncodeSetup, Total;
    next := pos + 8 + |EncodeBlocks(bs[..k + 1])|;
    SetupParts(s, pos, bs);
    NextEntry(s, pos + 8, bs, k);
  }

  /** Where byte 7 of the entry of block k + 1 stands in an encoded list. */
  lemma NextEntry(s: seq<Byte>, pos: nat, bs: seq<Block>, k: nat)
    requires k + 1 < |bs| && forall i :: 0 <= i < |bs| ==> |bs[i].name| < 256
    requires At(s, pos, EncodeBlocks(bs))
    ensures var next := pos + |EncodeBlocks(bs[..k + 1])|;
            next + 8 <= |s| && s[next + 7] == EncodeBlock(bs[k + 1])[7]
  {
    hide At, EncodeBlocks, EncodeBlock;
    var back := bs[k + 1..];
    var front, e := EncodeBlocks(bs[..k + 1]), EncodeBlock(bs[k + 1]);
    BlocksSplit(bs, k + 1);
    AtSplit(s, pos, front, EncodeBlocks(back));
    BlocksFirst(back);
    AtSplit(s, pos + |front|, e, EncodeBlocks(back[1..]));
    AtFits(s, pos + |front|, e);
    EntryLength(bs[k + 1]);
    AtByte(s, pos + |front|, e, 7);
  }

  lemma EntryLength(b: Block)
    requires |b.name| < 256
    ensures |EncodeBlock(b)| == |b.name| + 9
  {}

  lemma BlocksFirst(bs: seq<Block>)
    requires bs != [] && forall i :: 0 <= i < |bs| ==> |bs[i].name| < 256
    ensures EncodeBlocks(bs) == EncodeBlock(bs[0]) + EncodeBlocks(bs[1..])
  {}

  lemma {:induction false} BlocksSplit(bs: seq<Block>, k: nat)
    requires k <= |bs| && forall i :: 0 <= i < |bs| ==> |bs[i].name| < 256
    ensures EncodeBlocks(bs) == EncodeBlocks(bs[..k]) + EncodeBlocks(bs[k..])
  {
    hide EncodeBlock;
    if k == 0 {
      assert bs[0..] == bs;
    } else {
      BlocksSplit(bs[1..], k - 1);
      assert bs[..k][1..] == bs[1..][..k - 1] && bs[1..][k - 1..] == bs[k..];
    }
  }

  lemma SetupParts(s: seq<Byte>, pos: nat, bs: seq<Block>)
    requires Sane(bs) && At(s, pos, EncodeSetup(bs))
    ensures var n := |EncodeBlocks(bs)|;
            && At(s, pos, Be64(Total(bs) + MEM_SIZE)) && At(s, pos + 8, EncodeBlocks(bs)) && At(s, pos + 8 + n, Be64(EOS))
            && pos + 8 + n <= |s| && |EncodeSetup(bs)| == 8 + n + 8
  {
    hide EncodeBlocks, Be64;
    var w, list := Be64(Total(bs) + MEM_SIZE), EncodeBlocks(bs);
    AtSplit(s, pos, w + list, Be64(EOS));
    AtSplit(s, pos, w, list);
  }

  lemma SetupRound(dst: seq<Block>, s: seq<Byte>, pos: nat, bs: seq<Block>, next: nat, st: LoadState)
    requires Sane(bs) && pos + 8 <= |s| && At(s, pos, Be64(Total(bs) + MEM_SIZE))
    requires LoadBlocks(dst, s, pos + 8, Total(bs)) == Some(next)
    ensures LoadStep(dst, s, pos, st) == More(next, st)
  {
    hide Get64, Be64, LoadBlocks, FindBlock, Bit, At, Total, Sane;
    SetupFits(bs);
    Get64At(Total(bs) + MEM_SIZE, s, pos);
    SetupWord(Total(bs));
  }

  lemma SetupFits(bs: seq<Block>)
    requires Sane(bs)
    ensures Total(bs) + MEM_SIZE < WORD && Total(bs) % PAGE == 0
  {
    TotalAligned(bs);
  }

  lemma SetupWord(total: nat)
    requires total % PAGE == 0
    ensures Bit((total + MEM_SIZE) % PAGE, MEM_SIZE) && (total + MEM_SIZE) / PAGE * PAGE == total
  {
    DivIs(total + MEM_SIZE, PAGE, total / PAGE);
  }

  lemma {:induction false} EncodeSnoc(last: Option<seq<Byte>>, ps: seq<Page>, p: Page)
    requires |p.name| < 256 && forall i :: 0 <= i < |ps| ==> |ps[i].name| < 256
    ensures EncodePages(last, ps + [p]) == EncodePages(last, ps) + EncodePage(LastOf(last, ps), p)
    decreases |ps|
  {
    hide EncodePage, EncodePages;
    if ps == [] {
      EncodeCons(last, p, []);
      EncodeNone(Some(p.name));
      EncodeNone(last);
      assert [] + [p] == [p] + [];
    } else {
      var h, t := ps[0], ps[1..];
      EncodeSnoc(Some(h.name), t, p);
      EncodeCons(last, h, t);
      EncodeCons(last, h, t + [p]);
      assert ps == [h] + t && ps + [p] == [h] + (t + [p]);
      JoinAssoc(EncodePage(last, h), EncodePages(Some(h.name), t), EncodePage(LastOf(last, ps), p));
    }
  }

  lemma EncodeNone(last: Option<seq<Byte>>)
    ensures EncodePages(last, []) == []
  {}

  lemma EncodeCons(last: Option<seq<Byte>>, h: Page, t: seq<Page>)
    requires |h.name| < 256 && forall i :: 0 <= i < |t| ==> |t[i].name| < 256
    ensures EncodePages(last, [h] + t) == EncodePage(last, h) + EncodePages(Some(h.name), t)
  {
    hide EncodePage;
    assert ([h] + t)[1..] == t;
  }

  lemma {:induction false} BlocksSnoc(bs: seq<Block>, b: Block)
    requires |b.name| < 256 && forall i :: 0 <= i < |bs| ==> |bs[i].name| < 256
    ensures EncodeBlocks(bs + [b]) == EncodeBlocks(bs) + EncodeBlock(b)
  {
    hide EncodeBlock;
    if bs == [] {
      assert EncodeBlocks([b][1..]) == [];
    } else {
      BlocksSnoc(bs[1..], b);
      assert (bs + [b])[1..] == bs[1..] + [b];
    }
  }

  class Sender {
    var f: seq<Byte>                       // the stream written so far
    var lastSent: Option<seq<Byte>>        // last_sent_block

    constructor ()
      ensures f == [] && lastSent == None
    {
      f, lastSent := [], None;
    }

    method PutBe64(v: nat)
      modifies this`f
      ensures f == old(f) + Be64(v)
    {
      f := f + Be64(v);
    }

    /** The name part of save_block_hdr. */
    method PutName(cont: bool, name: seq<Byte>)
      requires |name| < 256
      modifies this`f
      ensures f == old(f) + NamePart(cont, name)
    {
      if !cont {
        f := f + [|name|] + name;
      }
    }

    method PutBlocks(bs: seq<Block>)
      requires forall i :: 0 <= i < |bs| ==> |bs[i].name| < 256
      modifies this`f
      ensures f == old(f) + EncodeBlocks(bs)
    {
      hide Be64;
      ghost var f0 := f;
      for i := 0 to |bs|
        invariant f == f0 + EncodeBlocks(bs[..i])
      {
        PutName(false, bs[i].name);
        PutBe64(bs[i].length);
        BlocksSnoc(bs[..i], bs[i]);
        assert bs[..i] + [bs[i]] == bs[..i + 1];
      }
      assert bs[..|bs|] == bs;
    }

    /** ram_save_setup, the stream part. */
    method Setup(bs: seq<Block>)
      requires forall i :: 0 <= i < |bs| ==> |bs[i].name| < 256
      modifies this
      ensures f == old(f) + EncodeSetup(bs) && lastSent == None
    {
      hide Be64, EncodeBlocks, Total;
      lastSent := None;
      PutBe64(Total(bs) + MEM_SIZE);
      PutBlocks(bs);
      PutBe64(EOS);
      JoinAssoc(old(f), Be64(Total(bs) + MEM_SIZE), EncodeBlocks(bs));
      JoinAssoc(old(f), Be64(Total(bs) + MEM_SIZE) + EncodeBlocks(bs), Be64(EOS));
    }

    /** The sending part of ram_save_block. */
    method SavePage(p: Page)
      requires |p.name| < 256
      modifies this
      ensures f == old(f) + EncodePage(old(lastSent), p) && lastSent == Some(p.name)
    {
      hide IsZero, HeaderWord, Be64;
      var cont := lastSent == Some(p.name);
      var zero := IsZero(p.data);
      PutBe64(HeaderWord(cont, zero, p.offset));
      PutName(cont, p.name);
      f := f + if zero then [0] else p.data;
      lastSent := Some(p.name);
    }

    /** A round of ram_save_iterate or ram_save_complete that sends the given pages. */
    method SaveSection(ps: seq<Page>)
      requires forall i :: 0 <= i < |ps| ==> |ps[i].name| < 256
      modifies this
      ensures f == old(f) + EncodeSection(old(lastSent), ps) && lastSent == LastOf(old(lastSent), ps)
    {
      hide EncodePage, EncodePages;
      ghost var f0, last := f, lastSent;
      var i := 0;
      EncodeNone(last);
      while i < |ps|
        invariant 0 <= i <= |ps|
        invariant f == f0 + EncodePages(last, ps[..i]) && lastSent == LastOf(last, ps[..i])
      {
        SavePage(ps[i]);
        EncodeSnoc(last, ps[..i], ps[i]);
        assert ps[..i] + [ps[i]] == ps[..i + 1];
        i := i + 1;
      }
      assert ps[..i] == ps;
      PutBe64(EOS);
    }
  }

  class Receiver {
    const dst: seq<Block>
    var pos: nat
    var cur: Option<seq<Byte>>      // the static block of host_from_stream_offset
    var writes: seq<Page>

    constructor (dst: seq<Block>)
      ensures this.dst == dst && pos == 0 && cur == None && writes == []
    {
      this.dst := dst;
      pos, cur, writes := 0, None, [];
    }

    /** ram_load: read up to the end mark of a section. */
    method RamLoad(f: seq<Byte>, versionId: int) returns (ok: bool)
      requires pos <= |f|
      modifies this
      ensures var r := Load(dst, f, old(pos), LoadState(old(cur), old(writes)));
              && (ok <==> versionId == VERSION && r.Done?)
              && (versionId == VERSION ==> pos == r.pos && cur == r.st.cur && writes == r.st.writes)
              && (versionId != VERSION ==> pos == old(pos) && cur == old(cur) && writes == old(writes))
    {
      hide Load, LoadStep;
      if versionId != VERSION {
        return false;
      }
      while true
        invariant pos <= |f|
        invariant Load(dst, f, pos, LoadState(cur, writes)) == Load(dst, f, old(pos), LoadState(old(cur), old(writes)))
        decreases |f| - pos
      {
        LoadUnfold(dst, f, pos, LoadState(cur, writes));
        var r := LoadStep(dst, f, pos, LoadState(cur, writes));
        pos, cur, writes := r.pos, r.st.cur, r.st.writes;
        if r.Failed? {
          return false;
        }
        if r.Done? {
          return true;
        }
      }
    }
  }

  /** A whole migration: setup, then any number of rounds with any pages in any order. The receiver
      accepts every section and performs exactly the sender's page writes, in order. */
  method Migrate(bs: seq<Block>, dst: seq<Block>, sections: seq<seq<Page>>) returns (r: Receiver, ok: bool)
    requires Matching(dst, bs) && forall k :: 0 <= k < |sections| ==> AllSendable(dst, sections[k])
    ensures ok && r.writes == Flatten(sections)
  {
    hide Matching, Load, Total, EncodeSetup, EncodeSection, AllSendable, Accepted;
    var s := new Sender();
    r := new Receiver(dst);
    NamesFit(dst, bs);
    s.Setup(bs);
    SetupStep(dst, s.f, 0, bs, LoadState(r.cur, r.writes));
    ok := r.RamLoad(s.f, VERSION);
    for k := 0 to |sections|
      invariant ok && r.pos == |s.f| && Agree(s.lastSent, r.cur) && r.dst == dst && fresh(r) && fresh(s)
      invariant r.writes == Flatten(sections[..k])
    {
      PageNamesFit(dst, sections[k]);
      ghost var f0, last := s.f, s.lastSent;
      s.SaveSection(sections[k]);
      AtEnd(f0, EncodeSection(last, sections[k]));
      SectionStep(dst, s.f, |f0|, last, sections[k], LoadState(r.cur, r.writes));
      ok := r.RamLoad(s.f, VERSION);
      FlattenSnoc(sections[..k], sections[k]);
      assert sections[..k] + [sections[k]] == sections[..k + 1];
    }
    assert sections[..|sections|] == sections;
  }

  lemma AtEnd(f: seq<Byte>, e: seq<Byte>)
    ensures At(f + e, |f|, e)
  {}

  lemma NamesFit(dst: seq<Block>, bs: seq<Block>)
    requires Matching(dst, bs)
    ensures forall i :: 0 <= i < |bs| ==> |bs[i].name| < 256
    ensures At(EncodeSetup(bs), 0, EncodeSetup(bs))
  {}
}
