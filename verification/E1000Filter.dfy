/**
  The receive filter of the e1000: the VLAN table, the promiscuous modes, the station addresses and the
  multicast hash decide whether a frame is received.
 */
module E1000Filter {
  import opened Bytes
  import opened Common

  const HEADER := 18             // MAXIMUM_ETHERNET_HDR_LEN
  const STATIONS := 16
  const TABLE := 128             // words of the VLAN table and of the multicast table
  const AV := 0x8000_0000        // E1000_RAH_AV

  /** One pair of receive address registers. */
  datatype Station = Station(low: nat, high: nat)

  /** The bits of RCTL that matter here, the VLAN table, the station addresses and the multicast table. */
  datatype Filter = Filter(upe: bool, mpe: bool, bam: bool, vfe: bool, mo: nat,
                           vfta: seq<nat>, stations: seq<Station>, mta: seq<nat>)

  predicate Valid(f: Filter) {
    f.mo < 4 && |f.vfta| == |f.mta| == TABLE && |f.stations| == STATIONS
  }

  /** The six bytes of a station address, as memcmp sees the two registers. */
  function Address(st: Station): (a: seq<Byte>)
    ensures |a| == 6
  {
    [st.low % 256, st.low / 256 % 256, st.low / 0x1_0000 % 256, st.low / 0x100_0000 % 256, st.high % 256, st.high / 256 % 256]
  }

  /** The frame is for the station, and the station is in use. */
  predicate Names(st: Station, buf: seq<Byte>)
    requires |buf| >= HEADER
  {
    st.high / AV % 2 == 1 && buf[..6] == Address(st)
  }

  predicate Broadcast(buf: seq<Byte>)
    requires |buf| >= HEADER
  {
    forall i :: 0 <= i < 6 ==> buf[i] == 0xff
  }

  /** A tagged frame is dropped when the VLAN filter is on and its VLAN is not in the table. */
  predicate VlanPasses(f: Filter, vet: nat, buf: seq<Byte>)
    requires Valid(f) && |buf| >= HEADER
  {
    var vid := Get16(buf, 14);
    Get16(buf, 12) == vet && f.vfe ==> Bit(f.vfta[vid / 32 % TABLE], vid % 32) == 1
  }

  function Shift(mo: nat): (s: nat)
    requires mo < 4
  {
    if mo == 3 then 0 else 4 - mo
  }

  /** Twelve bits of the last two bytes of the address. */
  function Hash(mo: nat, buf: seq<Byte>): (h: nat)
    requires mo < 4 && |buf| >= HEADER
    ensures h < 32 * TABLE
  {
    var hi: nat, lo: nat := buf[5], buf[4];
    (hi * 256 + lo) / Pow2(Shift(mo)) % 4096
  }

  predicate Hashed(f: Filter, buf: seq<Byte>)
    requires Valid(f) && |buf| >= HEADER
  {
    var h := Hash(f.mo, buf);
    Bit(f.mta[h / 32], h % 32) == 1
  }

  /** Which bit of the VLAN table a tagged frame tests, from its bytes: the VLAN number is its low twelve bits. */
  lemma VlanBit(f: Filter, vet: nat, buf: seq<Byte>)
    requires Valid(f) && |buf| >= HEADER
    ensures var a: nat, b: nat, x: nat, y: nat := buf[12], buf[13], buf[14], buf[15];
            VlanPasses(f, vet, buf) <==> !f.vfe || a * 256 + b != vet || f.vfta[x % 16 * 8 + y / 32] / Pow2(y % 32) % 2 == 1
  {
    hide Bit, Pow2;
    var x: nat, y: nat := buf[14], buf[15];
    TableIndex(x, y);
    BitIs(f.vfta[x % 16 * 8 + y / 32], y % 32);
  }

  lemma TableIndex(x: nat, y: nat)
    requires x < 256 && y < 256
    ensures (x * 256 + y) / 32 % 128 == x % 16 * 8 + y / 32 && (x * 256 + y) % 32 == y % 32
  {
    var v, q := x * 256 + y, x * 8 + y / 32;
    DivIs(v, 32, q);
    DivIs(q, 128, x / 16);
  }

  /** Which bits of the last two bytes of the address make the hash. */
  lemma HashIs(mo: nat, buf: seq<Byte>)
    requires mo < 4 && |buf| >= HEADER
    ensures var x: nat, y: nat := buf[5], buf[4];
            Hash(mo, buf) == if mo == 0 then x * 16 + y / 16 else if mo == 1 then x % 128 * 32 + y / 8
                             else if mo == 2 then x % 64 * 64 + y / 4 else x % 16 * 256 + y
  {
    hide Pow2;
    var x: nat, y: nat := buf[5], buf[4];
    SmallPowers();
    match mo {
      case 0 => ShiftFour(x, y);
      case 1 => ShiftThree(x, y);
      case 2 => ShiftTwo(x, y);
      case _ => ShiftNone(x, y);
    }
  }

  lemma SmallPowers()
    ensures Pow2(4) == 16 && Pow2(3) == 8 && Pow2(2) == 4 && Pow2(0) == 1
  {}

  /** Twelve bits of two bytes, behind those that are shifted out. */
  lemma ShiftFour(x: nat, y: nat)
    requires x < 256 && y < 256
    ensures (x * 256 + y) / 16 % 4096 == x * 16 + y / 16
  {
    DivIs(x * 256 + y, 16, x * 16 + y / 16);
  }

  lemma ShiftThree(x: nat, y: nat)
    requires x < 256 && y < 256
    ensures (x * 256 + y) / 8 % 4096 == x % 128 * 32 + y / 8
  {
    DivIs(x * 256 + y, 8, x * 32 + y / 8);
    DivIs(x * 32 + y / 8, 4096, x / 128);
  }

  lemma ShiftTwo(x: nat, y: nat)
    requires x < 256 && y < 256
    ensures (x * 256 + y) / 4 % 4096 == x % 64 * 64 + y / 4
  {
    DivIs(x * 256 + y, 4, x * 64 + y / 4);
    DivIs(x * 64 + y / 4, 4096, x / 64);
  }

  lemma ShiftNone(x: nat, y: nat)
    requires x < 256 && y < 256
    ensures (x * 256 + y) % 4096 == x % 16 * 256 + y
  {
    DivIs(x * 256 + y, 4096, x / 16);
  }

  /** The bit of the multicast table that is tested. */
  lemma HashBit(f: Filter, buf: seq<Byte>)
    requires Valid(f) && |buf| >= HEADER
    ensures var h := Hash(f.mo, buf); Hashed(f, buf) <==> f.mta[h / 32] / Pow2(h % 32) % 2 == 1
  {
    hide Bit, Pow2, Hash;
    var h := Hash(f.mo, buf);
    BitIs(f.mta[h / 32], h % 32);
  }

  /** The frame is received. */
  ghost predicate Accepted(f: Filter, vet: nat, buf: seq<Byte>)
    requires Valid(f) && |buf| >= HEADER
  {
    && VlanPasses(f, vet, buf)
    && (f.upe || (buf[0] % 2 == 1 && f.mpe) || (f.bam && Broadcast(buf))
        || (exists i :: 0 <= i < STATIONS && Names(f.stations[i], buf)) || Hashed(f, buf))
  }

  /** receive_filter */
  method ReceiveFilter(f: Filter, vet: nat, buf: seq<Byte>) returns (ok: bool)
    requires Valid(f) && |buf| >= HEADER
    ensures ok <==> Accepted(f, vet, buf)
  {
    hide Names, Hashed, VlanPasses;
    if !VlanPasses(f, vet, buf) {
      return false;
    }
    if f.upe || (buf[0] % 2 == 1 && f.mpe) || (f.bam && Broadcast(buf)) {
      return true;
    }
    for i := 0 to STATIONS
      invariant forall j :: 0 <= j < i ==> !Names(f.stations[j], buf)
    {
      if Names(f.stations[i], buf) {
        return true;
      }
    }
    return Hashed(f, buf);
  }

  /** The registers a driver writes for an address. */
  function StationOf(mac: seq<Byte>): (st: Station)
    requires |mac| == 6
    ensures st.low < W32 && st.high < W32
  {
    var a: nat, b: nat, c: nat, d: nat, e: nat, g: nat := mac[0], mac[1], mac[2], mac[3], mac[4], mac[5];
    Station(a + 256 * b + 0x1_0000 * c + 0x100_0000 * d, e + 256 * g + AV)
  }

  /** The registers of an address name that address and no other. */
  lemma StationNames(mac: seq<Byte>, buf: seq<Byte>)
    requires |mac| == 6 && |buf| >= HEADER
    ensures Names(StationOf(mac), buf) <==> buf[..6] == mac
  {
    hide Names;
    StationAddress(mac);
    NamesIs(StationOf(mac), buf);
  }

  lemma StationAddress(mac: seq<Byte>)
    requires |mac| == 6
    ensures Address(StationOf(mac)) == mac && StationOf(mac).high / AV % 2 == 1
  {
    var a: nat, b: nat, c: nat, d: nat, e: nat, g: nat := mac[0], mac[1], mac[2], mac[3], mac[4], mac[5];
    FourBytes(a, b, c, d);
    TwoBytesAndBit(e, g);
    assert mac == [mac[0], mac[1], mac[2], mac[3], mac[4], mac[5]];
  }

  lemma FourBytes(a: nat, b: nat, c: nat, d: nat)
    requires a < 256 && b < 256 && c < 256 && d < 256
    ensures var w := a + 256 * b + 0x1_0000 * c + 0x100_0000 * d;
            w % 256 == a && w / 256 % 256 == b && w / 0x1_0000 % 256 == c && w / 0x100_0000 % 256 == d
  {
    var w := a + 256 * b + 0x1_0000 * c + 0x100_0000 * d;
    var x, y := b + 256 * c + 0x1_0000 * d, c + 256 * d;
    DivIs(w, 256, x);
    DivIs(w, 0x1_0000, y);
    DivIs(w, 0x100_0000, d);
    DivIs(x, 256, y);
    DivIs(y, 256, d);
  }

  lemma TwoBytesAndBit(e: nat, g: nat)
    requires e < 256 && g < 256
    ensures var w := e + 256 * g + AV; w % 256 == e && w / 256 % 256 == g && w / AV % 2 == 1
  {
    var w := e + 256 * g + AV;
    DivIs(w, 256, g + AV / 256);
    DivIs(w, AV, 1);
  }

  lemma NamesIs(st: Station, buf: seq<Byte>)
    requires |buf| >= HEADER
    ensures Names(st, buf) <==> st.high / AV % 2 == 1 && buf[..6] == Address(st)
  {
    hide Address;
  }

  lemma {:induction false} NoBits(i: nat)
    ensures Bit(0, i) == 0
  {
    if i > 0 {
      NoBits(i - 1);
    }
  }

  /** A driver that writes the addresses macs and leaves everything else off receives exactly the frames for them. */
  lemma ExactFilter(f: Filter, vet: nat, macs: seq<seq<Byte>>, buf: seq<Byte>)
    requires Valid(f) && |buf| >= HEADER && !f.upe && !f.mpe && !f.bam && !f.vfe && |macs| <= STATIONS
    requires forall i :: 0 <= i < TABLE ==> f.mta[i] == 0
    requires forall i :: 0 <= i < |macs| ==> |macs[i]| == 6 && f.stations[i] == StationOf(macs[i])
    requires forall i :: |macs| <= i < STATIONS ==> f.stations[i].high < AV
    ensures Accepted(f, vet, buf) <==> buf[..6] in macs
  {
    hide Names, StationOf, Address, Bit, Hash;
    NoBits(Hash(f.mo, buf) % 32);
    forall i | 0 <= i < STATIONS ensures Names(f.stations[i], buf) <==> i < |macs| && buf[..6] == macs[i] {
      if i < |macs| {
        StationNames(macs[i], buf);
      } else {
        NamesIs(f.stations[i], buf);
      }
    }
  }
}
