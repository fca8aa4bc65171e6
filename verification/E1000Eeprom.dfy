/**
  The EEPROM of the e1000, read either bit by bit through the lines of the EECD register (the
  Microwire protocol) or a word at a time through the EERD register.
 */
module E1000Eeprom {
  import opened Common

  const WORDS := 64
  const READ_OPCODE := 6          // EEPROM_READ_OPCODE_MICROWIRE
  const RW_START := 1             // E1000_EEPROM_RW_REG_START
  const RW_DONE := 0x10           // E1000_EEPROM_RW_REG_DONE
  const RW_ADDR := 0x100          // 1 << E1000_EEPROM_RW_ADDR_SHIFT
  const RW_DATA := 0x1_0000       // 1 << E1000_EEPROM_RW_REG_DATA
  const CHECKSUM_REG := 0x3f      // EEPROM_CHECKSUM_REG

  /** The lines of EECD that drive the protocol: chip select, clock, data in. */
  datatype Lines = Lines(cs: bool, sk: bool, di: bool)

  /** w without its lowest i bits: w >> i. */
  ghost function High(w: nat, i: nat): nat {
    if i == 0 then w else High(w / 2, i - 1)
  }

  lemma {:induction false} HighZero(w: nat, n: nat)
    requires w < Pow2(n)
    ensures High(w, n) == 0
  {
    if n > 0 {
      HighZero(w / 2, n - 1);
    }
  }

  /** Dropping one bit less appends that bit. */
  lemma {:induction false} HighStep(w: nat, i: nat)
    ensures High(w, i) == 2 * High(w, i + 1) + Bit(w, i)
    ensures Bit(w, i) == 0 || Bit(w, i) == 1
    ensures High(w, i) <= w
  {
    if i > 0 {
      HighStep(w / 2, i - 1);
    } else {
      assert High(w, 1) == High(w / 2, 0);
    }
  }

  /** One more bit of the command is in. */
  lemma ShiftIn(command: nat, i: nat)
    requires command < 512
    ensures (2 * High(command, i + 1) + if Bit(command, i) == 1 then 1 else 0) % W32 == High(command, i) < 512
  {
    hide High, Bit;
    HighStep(command, i);
  }

  class Eeprom {
    const data: seq<nat>
    var valIn: nat         // 32 bits
    var bitnumIn: nat      // 16 bits
    var bitnumOut: nat     // 16 bits
    var reading: bool
    var lines: Lines

    ghost predicate Valid()
      reads this
    {
      && |data| == WORDS && (forall i :: 0 <= i < WORDS ==> data[i] < W16)
      && valIn < W32 && bitnumIn < W16 && bitnumOut < W16
    }

    constructor (data: seq<nat>)
      requires |data| == WORDS && forall i :: 0 <= i < WORDS ==> data[i] < W16
      ensures Valid() && this.data == data && lines == Lines(false, false, false)
    {
      this.data := data;
      valIn, bitnumIn, bitnumOut, reading, lines := 0, 0, 0, false, Lines(false, false, false);
    }

    /** get_eecd: the data-out line. */
    function DataOut(): bool
      reads this
      requires Valid()
    {
      !reading || Bit(data[bitnumOut / 16 % WORDS], 15 - bitnumOut % 16) == 1
    }

    /** set_eecd */
    method SetEecd(val: Lines)
      requires Valid()
      modifies this`valIn, this`bitnumIn, this`bitnumOut, this`reading, this`lines
      ensures Valid() && lines == val
      ensures !val.cs ==> unchanged(`valIn) && unchanged(`bitnumIn) && unchanged(`bitnumOut) && unchanged(`reading)
      // chip select rises with the clock steady: start over
      ensures val.cs && !old(lines).cs && val.sk == old(lines).sk ==> valIn == 0 && bitnumIn == 0 && bitnumOut == 0 && !reading
      // chip select rises together with a clock edge: the edge counts from the fresh state
      ensures val.cs && !old(lines).cs && val.sk != old(lines).sk ==>
                && !reading && valIn == (if val.sk && val.di then 1 else 0)
                && bitnumIn == (if val.sk then 1 else 0) && bitnumOut == (if val.sk then 0 else 1)
      // no edge
      ensures val.cs && old(lines).cs && val.sk == old(lines).sk ==>
                unchanged(`valIn) && unchanged(`bitnumIn) && unchanged(`bitnumOut) && unchanged(`reading)
      // falling edge
      ensures val.cs && old(lines).cs && !val.sk && old(lines).sk ==>
                bitnumOut == (old(bitnumOut) + 1) % W16 && unchanged(`valIn) && unchanged(`bitnumIn) && unchanged(`reading)
      // rising edge
      ensures val.cs && old(lines).cs && val.sk && !old(lines).sk ==>
                && valIn == (2 * old(valIn) + if val.di then 1 else 0) % W32
                && bitnumIn == (old(bitnumIn) + 1) % W16
                && if bitnumIn == 9 && !old(reading)
                   then bitnumOut == (valIn % 64 * 16 - 1) % W16 && (reading <==> valIn / 64 % 8 == READ_OPCODE)
                   else bitnumOut == old(bitnumOut) && reading == old(reading)
    {
      var oldval := lines;
      lines := val;
      if !val.cs {
        return;
      }
      if val.cs != oldval.cs {
        valIn, bitnumIn, bitnumOut, reading := 0, 0, 0, false;
      }
      if val.sk == oldval.sk {
        return;
      }
      if !val.sk {
        bitnumOut := (bitnumOut + 1) % W16;
        return;
      }
      valIn := (2 * valIn + if val.di then 1 else 0) % W32;
      bitnumIn := (bitnumIn + 1) % W16;
      if bitnumIn == 9 && !reading {
        bitnumOut := (valIn % 64 * 16 - 1) % W16;
        reading := valIn / 64 % 8 == READ_OPCODE;
      }
    }

    /** The driver clocks one bit into the device. */
    method ClockIn(bit: bool)
      requires Valid() && lines.cs && !lines.sk
      modifies this`valIn, this`bitnumIn, this`bitnumOut, this`reading, this`lines
      ensures Valid() && lines.cs && !lines.sk
      ensures valIn == (2 * old(valIn) + if bit then 1 else 0) % W32 && bitnumIn == (old(bitnumIn) + 1) % W16
      ensures bitnumIn == 9 && !old(reading) ==>
                bitnumOut == valIn % 64 * 16 && (reading <==> valIn / 64 % 8 == READ_OPCODE)
      ensures !(bitnumIn == 9 && !old(reading)) ==> reading == old(reading) && bitnumOut == (old(bitnumOut) + 1) % W16
    {
      SetEecd(Lines(true, false, bit));
      SetEecd(Lines(true, true, bit));
      SetEecd(Lines(true, false, bit));
    }

    /** The driver clocks one bit out of the device, whatever the data-in line is. */
    method ClockOut(di: bool) returns (bit: bool)
      requires Valid() && lines.cs && !lines.sk && reading
      modifies this`valIn, this`bitnumIn, this`bitnumOut, this`reading, this`lines
      ensures Valid() && lines.cs && !lines.sk && reading && bitnumOut == (old(bitnumOut) + 1) % W16
      ensures bit <==> Bit(data[old(bitnumOut) / 16 % WORDS], 15 - old(bitnumOut) % 16) == 1
    {
      SetEecd(Lines(true, true, di));
      bit := DataOut();
      SetEecd(Lines(true, false, di));
    }

    /** The driver's read of `count` consecutive words from addr: select the chip, clock in the read
        opcode and the address, clock out the words most significant bit first. */
    method Read(addr: nat, count: nat) returns (words: seq<nat>)
      requires Valid() && addr < WORDS
      modifies this`valIn, this`bitnumIn, this`bitnumOut, this`reading, this`lines
      ensures Valid() && |words| == count
      ensures forall k :: 0 <= k < count ==> words[k] == data[(addr + k) % WORDS]
    {
      SetEecd(Lines(false, false, false));
      SetEecd(Lines(true, false, false));
      var command := READ_OPCODE * 64 + addr;
      SendCommand(command);
      words := [];
      while |words| < count
        invariant |words| <= count
        invariant Valid() && lines.cs && !lines.sk && reading && bitnumOut == (16 * (addr + |words|)) % W16
        invariant forall k :: 0 <= k < |words| ==> words[k] == data[(addr + k) % WORDS]
      {
        var w := ReadWord(addr + |words|);
        words := words + [w];
      }
    }

    /** Clock in the nine bits of a command. */
    method SendCommand(command: nat)
      requires Valid() && lines.cs && !lines.sk && valIn == 0 && bitnumIn == 0 && !reading && command < 512
      modifies this`valIn, this`bitnumIn, this`bitnumOut, this`reading, this`lines
      ensures Valid() && lines.cs && !lines.sk && bitnumOut == command % 64 * 16 && (reading <==> command / 64 == READ_OPCODE)
    {
      hide High, Bit;
      var i: nat := 9;
      CommandBits(command);
      while i > 0
        invariant i <= 9 && bitnumIn == 9 - i && valIn == High(command, i) < 512
        invariant Valid() && lines.cs && !lines.sk
        invariant i > 0 ==> !reading
        invariant i == 0 ==> bitnumOut == valIn % 64 * 16 && (reading <==> valIn / 64 % 8 == READ_OPCODE)
      {
        i := i - 1;
        ShiftIn(command, i);
        ClockIn(Bit(command, i) == 1);
      }
    }

    /** Clock out the sixteen bits of word x, reading on from where the device stands. */
    method ReadWord(x: nat) returns (w: nat)
      requires Valid() && lines.cs && !lines.sk && reading && bitnumOut == (16 * x) % W16
      modifies this`valIn, this`bitnumIn, this`bitnumOut, this`reading, this`lines
      ensures Valid() && lines.cs && !lines.sk && reading && bitnumOut == (16 * (x + 1)) % W16
      ensures w == data[x % WORDS]
    {
      hide High, Bit;
      w := 0;
      var i: nat := 16;
      ghost var word := data[x % WORDS];
      WordBits(word);
      while i > 0
        invariant i <= 16 && w == High(word, i)
        invariant Valid() && lines.cs && !lines.sk && reading && bitnumOut == (16 * x + 16 - i) % W16
      {
        Position(x, 16 - i);
        NextPosition(x, 16 - i);
        i := i - 1;
        HighStep(word, i);
        var bit := ClockOut(false);
        w := 2 * w + if bit then 1 else 0;
      }
    }

    /** flash_eerd_read for register value eerd. */
    function EerdRead(eerd: nat): nat
      reads this
      requires Valid()
    {
      if eerd % 2 == 0 then eerd
      else
        var r := eerd - RW_START;
        var index := r / RW_ADDR;
        // RW_DONE is or-ed in
        var done := if r / RW_DONE % 2 == 1 then r else r + RW_DONE;
        if index > CHECKSUM_REG then done else data[index] * RW_DATA + done
    }

    /** Both ways of reading agree: the data field of EERD for an address is the word that the bit
        protocol delivers. */
    method ReadBothWays(addr: nat) returns (w: nat, eerd: nat)
      requires Valid() && addr < WORDS
      modifies this`valIn, this`bitnumIn, this`bitnumOut, this`reading, this`lines
      ensures Valid() && w == data[addr] && eerd / RW_DATA == w && eerd / RW_DONE % 2 == 1
    {
      var ws := Read(addr, 1);
      w := ws[0];
      assert (addr + 0) % WORDS == addr;
      EerdData(addr, w);
      eerd := EerdRead(addr * RW_ADDR + RW_START);
    }
  }

  lemma EerdData(addr: nat, w: nat)
    requires addr < WORDS
    ensures (w * RW_DATA + (addr * RW_ADDR + RW_DONE)) / RW_DATA == w
    ensures (w * RW_DATA + (addr * RW_ADDR + RW_DONE)) / RW_DONE % 2 == 1
    ensures (addr * RW_ADDR) / RW_DONE % 2 == 0
  {
    var x := w * RW_DATA + (addr * RW_ADDR + RW_DONE);
    DivIs(x, RW_DATA, w);
    DivIs(x, RW_DONE, 4096 * w + 16 * addr + 1);
    DivIs(addr * RW_ADDR, RW_DONE, 16 * addr);
    DivIs(4096 * w + 16 * addr + 1, 2, 2048 * w + 8 * addr);
  }

  /** The word and bit that position 16 * x + j of the bit stream stands for, wrap-around included. */
  lemma Position(x: nat, j: nat)
    requires j < 16
    ensures var b := (16 * x + j) % W16; b / 16 % WORDS == x % WORDS && b % 16 == j
  {
    var q, y := x / 4096, x % 4096;
    DivIs(16 * x + j, W16, q);
    DivIs(16 * y + j, 16, y);
    var a, r := y / WORDS, y % WORDS;
    DivIs(x, WORDS, 64 * q + a);
  }

  lemma NextPosition(x: nat, j: nat)
    requires j < 16
    ensures ((16 * x + j) % W16 + 1) % W16 == (16 * x + j + 1) % W16
  {}

  lemma CommandBits(command: nat)
    requires command < 512
    ensures High(command, 9) == 0 && High(command, 0) == command
  {
    assert Pow2(3) == 8 && Pow2(6) == 64 && Pow2(9) == 512;
    HighZero(command, 9);
  }

  lemma WordBits(w: nat)
    requires w < W16
    ensures High(w, 16) == 0 && High(w, 0) == w
  {
    assert Pow2(4) == 16 && Pow2(8) == 256 && Pow2(12) == 4096 && Pow2(16) == W16;
    HighZero(w, 16);
  }
}
