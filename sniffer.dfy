/**
 * The serial packet decoder and device-id resolver of `sharp_hems/sniffer.py`.
 *
 * A frame is a 2-byte header followed by a payload; `header[1]` selects its kind:
 * `0x08` announces a hardware (IEEE) address, `0x12` binds a 16-bit device id to one of the
 * announced addresses by its index, `0x2C` carries a power measurement. The module-level state
 * of the source (`ieee_addr_list`, `counter_hist` and the cached `dev_id_map`) is the state of
 * one `Decoder` object.
 */
module Sniffer {
  import opened Wrappers
  import opened Hex

  const ADDR_ANNOUNCE: byte := 0x08
  const ID_ANNOUNCE: byte := 0x12
  const MEASURE: byte := 0x2C

  /** The address reported for a device id that has not been bound yet. */
  const UNKNOWN: string := "UNKNOWN"

  /** A measurement frame must reach offset 46 (the end of `pre_power`). */
  const MEASURE_MIN_LEN: nat := 46

  /** `dump_packet`: every byte as two upper-case digits, separated by commas. */
  function DumpPacket(data: seq<byte>): (s: string)
    ensures data == [] ==> s == []
    ensures data != [] ==> |s| == 3 * |data| - 1
    ensures forall k :: 0 <= k < |data| ==> 3 * k + 2 <= |s| && s[3 * k .. 3 * k + 2] == ByteHex(data[k], true)
    ensures forall k :: 0 <= k < |data| - 1 ==> s[3 * k + 2] == ','
  {
    if data != [] then HexJoinLayout(data, ','); HexJoin(data, ',')
    else HexJoin(data, ',')
  }

  /** Python's `packet[lo:hi]` for `0 <= lo <= hi`: the bounds are clipped to the packet. */
  function Slice(packet: seq<byte>, lo: nat, hi: nat): (r: seq<byte>)
    requires lo <= hi
    ensures |r| == (if |packet| <= lo then 0 else if |packet| <= hi then |packet| - lo else hi - lo)
    ensures forall i :: 0 <= i < |r| ==> r[i] == packet[lo + i]
  {
    if |packet| <= lo then [] else if |packet| <= hi then packet[lo..] else packet[lo..hi]
  }

  function Reverse(s: seq<byte>): (r: seq<byte>)
    ensures |r| == |s|
    ensures forall i :: 0 <= i < |s| ==> r[i] == s[|s| - 1 - i]
  {
    if s == [] then [] else Reverse(s[1..]) + [s[0]]
  }

  /**
   * `parse_packet_ieee_addr`: bytes 4..11 of the frame in reverse order, upper-case hex,
   * joined by colons. A full frame gives 8 fields, 7 colons and 23 characters, the first
   * field being byte 11; a shorter frame gives the bytes it has, without raising.
   */
  function ParseIeeeAddr(packet: seq<byte>): (addr: string)
    ensures |packet| >= 12 ==> |addr| == 23
    ensures |packet| >= 12 ==> forall k :: 0 <= k < 8 ==> addr[3 * k .. 3 * k + 2] == ByteHex(packet[11 - k], true)
    ensures |packet| >= 12 ==> forall k :: 0 <= k < 7 ==> addr[3 * k + 2] == ':'
    ensures |packet| <= 4 ==> addr == []
  {
    var field := Reverse(Slice(packet, 4, 12));
    if |packet| >= 12 then IeeeAddrLayout(packet, field); HexJoin(field, ':')
    else HexJoin(field, ':')
  }

  lemma IeeeAddrLayout(packet: seq<byte>, field: seq<byte>)
    requires |packet| >= 12 && field == Reverse(Slice(packet, 4, 12))
    ensures |HexJoin(field, ':')| == 23
    ensures forall k :: 0 <= k < 8 ==> HexJoin(field, ':')[3 * k .. 3 * k + 2] == ByteHex(packet[11 - k], true)
    ensures forall k :: 0 <= k < 7 ==> HexJoin(field, ':')[3 * k + 2] == ':'
  {
    HexJoinLayout(field, ':');
    forall k | 0 <= k < 8
      ensures HexJoin(field, ':')[3 * k .. 3 * k + 2] == ByteHex(packet[11 - k], true)
    {
      assert field[k] == packet[11 - k];
    }
  }

  /** `struct.unpack("<H", packet[o:o+2])`: an unsigned little-endian 16-bit field. */
  function U16(packet: seq<byte>, o: nat): (v: int)
    requires o + 2 <= |packet|
    ensures 0 <= v < 0x1_0000
    ensures v % 256 == packet[o] && v / 256 == packet[o + 1]
  {
    var lo: int, hi: int := packet[o], packet[o + 1];
    lo + 256 * hi
  }

  /** `struct.unpack("<I", packet[o:o+4])`: an unsigned little-endian 32-bit field. */
  function U32(packet: seq<byte>, o: nat): (v: int)
    requires o + 4 <= |packet|
    ensures 0 <= v < 0x1_0000_0000
    ensures v % 0x1_0000 == U16(packet, o) && v / 0x1_0000 == U16(packet, o + 2)
  {
    U16(packet, o) + 0x1_0000 * U16(packet, o + 2)
  }

  /** The result of an id announcement (`parse_packet_dev_id`). */
  datatype DevIdAnnounce = DevIdAnnounce(devId: int, index: byte)

  /**
   * `parse_packet_dev_id`: the device id is the little-endian 16-bit value at bytes 4..5 and the
   * list index is byte 6. A frame shorter than 7 bytes raises (`struct.error` or `IndexError`).
   */
  function ParseDevId(packet: seq<byte>): (r: Result<DevIdAnnounce>)
    ensures r.Success? <==> |packet| >= 7
    ensures r.Success? ==> 0 <= r.value.devId < 0x1_0000
    ensures r.Success? ==> r.value.devId % 256 == packet[4] && r.value.devId / 256 == packet[5]
    ensures r.Success? ==> r.value.index == packet[6]
  {
    if |packet| < 6 then Failure("struct.error: unpack requires a buffer of 2 bytes")
    else if |packet| < 7 then Failure("IndexError: index out of range")
    else Success(DevIdAnnounce(U16(packet, 4), packet[6]))
  }

  /** The raw fields of a measurement frame, read before anything else happens. */
  datatype MeasureFields = MeasureFields(
    devId: int, counter: byte, curTime: int, curPower: int, preTime: int, prePower: int)

  /**
   * The reads at the head of `parse_packet_measure`: id at 5..6, counter at 14, current tick at
   * 19..20, current energy at 26..29, previous tick at 35..36 and previous energy at 42..45,
   * all little-endian. Any of them raises on a frame shorter than 46 bytes.
   */
  function ReadMeasureFields(packet: seq<byte>): (r: Result<MeasureFields>)
    ensures r.Success? <==> |packet| >= MEASURE_MIN_LEN
    ensures r.Success? ==> r.value == MeasureFields(
      U16(packet, 5), packet[14], U16(packet, 19), U32(packet, 26), U16(packet, 35), U32(packet, 42))
    ensures r.Success? ==> FieldsInRange(r.value)
  {
    if |packet| < 7 then Failure("struct.error: unpack requires a buffer of 2 bytes")
    else if |packet| < 15 then Failure("IndexError: index out of range")
    else if |packet| < MEASURE_MIN_LEN then Failure("struct.error: unpack requires a buffer of 4 bytes")
    else Success(MeasureFields(
      U16(packet, 5), packet[14], U16(packet, 19), U32(packet, 26), U16(packet, 35), U32(packet, 42)))
  }

  /**
   * The wrapped difference `cur - pre` of a counter that counts modulo `modulus`: the unique
   * value in `[0, modulus)` that brings `pre` to `cur` when added modulo `modulus`.
   */
  function WrapDiff(cur: int, pre: int, modulus: int): (d: int)
    requires 0 <= cur < modulus && 0 <= pre < modulus
    ensures 0 <= d < modulus
    ensures (pre + d) % modulus == cur
  {
    var d := cur - pre;
    if d < 0 then d + modulus else d
  }

  /** Only one value does what `WrapDiff` promises. */
  lemma WrapDiffUnique(cur: int, pre: int, modulus: int, d: int)
    requires 0 <= cur < modulus && 0 <= pre < modulus
    requires 0 <= d < modulus && (pre + d) % modulus == cur
    ensures d == WrapDiff(cur, pre, modulus)
  {
    var w := WrapDiff(cur, pre, modulus);
    assert pre + d == cur || pre + d == cur + modulus;
    assert pre + w == cur || pre + w == cur + modulus;
  }

  /** `f"0x{dev_id:04X}"`: "0x" and four upper-case digits that read back as the id. */
  function DevIdStr(devId: int): (s: string)
    requires 0 <= devId < 0x1_0000
    ensures |s| == 6 && s[..2] == "0x"
    ensures forall i :: 2 <= i < 6 ==> IsHexDigit(s[i])
    ensures DigitValue(s[2]) * 4096 + DigitValue(s[3]) * 256 + DigitValue(s[4]) * 16 + DigitValue(s[5]) == devId
  {
    "0x" + ByteHex(devId / 256, true) + ByteHex(devId % 256, true)
  }

  /**
   * A measurement event. The source's `watt` is `difPower / difTime * 1.5` rounded to two
   * decimals; the two exact integers it is computed from are kept instead.
   */
  datatype Measurement = Measurement(
    addr: string, devId: int, devIdStr: string,
    curTime: int, curPower: int, preTime: int, prePower: int,
    difTime: int, difPower: int)

  /** What `process_packet` leaves behind: the event passed to `on_capture`, if any, and whether the id map was stored. */
  datatype Handled = Handled(captured: Option<Measurement>, stored: bool)

  /** The address a measurement is reported under. */
  function ResolveAddr(devIdMap: map<int, string>, devId: int): (addr: string)
    ensures devId in devIdMap ==> addr == devIdMap[devId]
    ensures devId !in devIdMap ==> addr == UNKNOWN
  {
    if devId in devIdMap then devIdMap[devId] else UNKNOWN
  }

  /** The field widths a frame guarantees: 16-bit id and ticks, 32-bit energy counters. */
  predicate FieldsInRange(f: MeasureFields) {
    0 <= f.devId < 0x1_0000 && 0 <= f.curTime < 0x1_0000 && 0 <= f.preTime < 0x1_0000
    && 0 <= f.curPower < 0x1_0000_0000 && 0 <= f.prePower < 0x1_0000_0000
  }

  /** The counter of `f` is the one last accepted for its device: the frame is a rebroadcast. */
  predicate IsRepeat(counterHist: map<int, byte>, f: MeasureFields) {
    f.devId in counterHist && counterHist[f.devId] == f.counter
  }

  /** The event an accepted frame yields: the raw fields, their wrapped differences and the resolved address. */
  function EventOf(devIdMap: map<int, string>, f: MeasureFields): (m: Measurement)
    requires FieldsInRange(f)
    ensures m.devId == f.devId && m.addr == ResolveAddr(devIdMap, f.devId)
    ensures (f.preTime + m.difTime) % 0x1_0000 == f.curTime && 0 <= m.difTime < 0x1_0000
    ensures (f.prePower + m.difPower) % 0x1_0000_0000 == f.curPower && 0 <= m.difPower < 0x1_0000_0000
  {
    Measurement(ResolveAddr(devIdMap, f.devId), f.devId, DevIdStr(f.devId),
      f.curTime, f.curPower, f.preTime, f.prePower,
      WrapDiff(f.curTime, f.preTime, 0x1_0000), WrapDiff(f.curPower, f.prePower, 0x1_0000_0000))
  }

  class Decoder {
    /** `counter_hist`: the last counter byte accepted per device id. */
    var counterHist: map<int, byte>
    /** `ieee_addr_list`: the addresses announced since the list was last cleared. */
    var ieeeAddrList: seq<string>
    /** `dev_id_map`: the id-to-address binding, as held in the cache file. */
    var devIdMap: map<int, string>

    /** A fresh process: empty history and address list, and the id map read from the cache file. */
    constructor (cached: map<int, string>)
      ensures counterHist == map[] && ieeeAddrList == [] && devIdMap == cached
    {
      counterHist := map[];
      ieeeAddrList := [];
      devIdMap := cached;
    }

    /**
     * `parse_packet_measure`. All fields are read first, so a short frame raises with nothing
     * changed. A repeated counter for the same id gives no event and leaves the history alone;
     * otherwise the counter is recorded, and then a zero tick difference still gives no event.
     */
    method ParseMeasure(packet: seq<byte>) returns (r: Result<Option<Measurement>>)
      modifies this`counterHist
      ensures r.Failure? <==> |packet| < MEASURE_MIN_LEN
      ensures r.Failure? ==> counterHist == old(counterHist)
      ensures r.Success? ==>
        var f := ReadMeasureFields(packet).value;
        && counterHist == (if IsRepeat(old(counterHist), f) then old(counterHist) else old(counterHist)[f.devId := f.counter])
        && r.value == (if IsRepeat(old(counterHist), f) || f.curTime == f.preTime then None else Some(EventOf(devIdMap, f)))
    {
      var fields := ReadMeasureFields(packet);
      if fields.Failure? {
        return Failure(fields.error);
      }
      var f := fields.value;
      var addr := if f.devId in devIdMap then devIdMap[f.devId] else UNKNOWN;

      if f.devId in counterHist && counterHist[f.devId] == f.counter {
        return Success(None);
      }
      counterHist := counterHist[f.devId := f.counter];

      var difTime := f.curTime - f.preTime;
      if difTime < 0 {
        difTime := difTime + 0x1_0000;
      }
      if difTime == 0 {
        return Success(None);
      }
      var difPower := f.curPower - f.prePower;
      if difPower < 0 {
        difPower := difPower + 0x1_0000_0000;
      }
      r := Success(Some(Measurement(addr, f.devId, DevIdStr(f.devId),
        f.curTime, f.curPower, f.preTime, f.prePower, difTime, difPower)));
    }

    /**
     * `process_packet`, dispatching on `header[1]`. A header shorter than 2 bytes and a short
     * id announcement raise to the caller with nothing changed; an exception in the measurement
     * branch is swallowed and nothing is captured. Only an id announcement touches the id map,
     * and it stores the map exactly when the binding changed; the address list grows only on an
     * address announcement and is cleared only by an id announcement naming its last index.
     */
    method ProcessPacket(header: seq<byte>, payload: seq<byte>) returns (r: Result<Handled>)
      modifies this
      ensures r.Failure? ==>
        counterHist == old(counterHist) && ieeeAddrList == old(ieeeAddrList) && devIdMap == old(devIdMap)
      ensures r.Failure? <==> |header| < 2 || (header[1] == ID_ANNOUNCE && |header + payload| < 7)
      ensures r.Success? && header[1] == ADDR_ANNOUNCE ==>
        && ieeeAddrList == old(ieeeAddrList) + [ParseIeeeAddr(header + payload)]
        && devIdMap == old(devIdMap) && counterHist == old(counterHist)
        && r.value == Handled(None, false)
      ensures r.Success? && header[1] == ID_ANNOUNCE ==>
        var d := ParseDevId(header + payload).value;
        var bound := d.index < |old(ieeeAddrList)|;
        && devIdMap == (if bound then old(devIdMap)[d.devId := old(ieeeAddrList)[d.index]] else old(devIdMap))
        && (r.value.stored <==> devIdMap != old(devIdMap))
        && ieeeAddrList == (if d.index == |old(ieeeAddrList)| - 1 then [] else old(ieeeAddrList))
        && counterHist == old(counterHist)
        && r.value.captured.None?
      ensures r.Success? && header[1] == MEASURE ==>
        && ieeeAddrList == old(ieeeAddrList) && devIdMap == old(devIdMap)
        && !r.value.stored
        && (|header + payload| < MEASURE_MIN_LEN ==> counterHist == old(counterHist) && r.value.captured.None?)
        && (|header + payload| >= MEASURE_MIN_LEN ==>
              var f := ReadMeasureFields(header + payload).value;
              && counterHist == (if IsRepeat(old(counterHist), f) then old(counterHist) else old(counterHist)[f.devId := f.counter])
              && r.value.captured == (if IsRepeat(old(counterHist), f) || f.curTime == f.preTime then None else Some(EventOf(old(devIdMap), f))))
      ensures r.Success? && header[1] !in {ADDR_ANNOUNCE, ID_ANNOUNCE, MEASURE} ==>
        && ieeeAddrList == old(ieeeAddrList) && devIdMap == old(devIdMap) && counterHist == old(counterHist)
        && r.value == Handled(None, false)
    {
      if |header| < 2 {
        return Failure("IndexError: index out of range");
      }
      var packet := header + payload;
      if header[1] == ADDR_ANNOUNCE {
        ieeeAddrList := ieeeAddrList + [ParseIeeeAddr(packet)];
        r := Success(Handled(None, false));
      } else if header[1] == ID_ANNOUNCE {
        var parsed := ParseDevId(packet);
        if parsed.Failure? {
          return Failure(parsed.error);
        }
        var d := parsed.value;
        var stored := false;
        if d.index < |ieeeAddrList| {
          if d.devId !in devIdMap {
            devIdMap := devIdMap[d.devId := ieeeAddrList[d.index]];
            stored := true;
          } else if devIdMap[d.devId] != ieeeAddrList[d.index] {
            devIdMap := devIdMap[d.devId := ieeeAddrList[d.index]];
            stored := true;
          }
        }
        if d.index == |ieeeAddrList| - 1 {
          ieeeAddrList := [];
        }
        r := Success(Handled(None, stored));
      } else if header[1] == MEASURE {
        var m := ParseMeasure(packet);
        if m.Success? {
          r := Success(Handled(m.value, false));
        } else {
          r := Success(Handled(None, false));
        }
      } else {
        r := Success(Handled(None, false));
      }
    }
  }

  /**
   * A measurement frame received twice in a row (the relay rebroadcasts readings) yields no
   * event the second time, and the decoder is left as the first delivery left it.
   */
  method RebroadcastIsDropped(d: Decoder, header: seq<byte>, payload: seq<byte>)
    returns (first: Result<Handled>, second: Result<Handled>)
    requires |header| >= 2 && header[1] == MEASURE && |header + payload| >= MEASURE_MIN_LEN
    modifies d
    ensures first.Success? && second == Success(Handled(None, false))
    ensures first.value.captured.Some? ==> first.value.captured.value.devId == U16(header + payload, 5)
    ensures d.counterHist == old(d.counterHist)[U16(header + payload, 5) := (header + payload)[14]]
  {
    first := d.ProcessPacket(header, payload);
    second := d.ProcessPacket(header, payload);
  }

  /**
   * One announcement burst followed by its id announcements: two addresses are announced, the
   * ids `a` and `b` are bound to them by indices 0 and 1, and the second binding empties the list.
   */
  method AnnounceBurst(d: Decoder, addrFrame0: seq<byte>, addrFrame1: seq<byte>, idFrame0: seq<byte>, idFrame1: seq<byte>)
    returns (bound0: string, bound1: string)
    requires d.ieeeAddrList == []
    requires |addrFrame0| >= 2 && addrFrame0[1] == ADDR_ANNOUNCE
    requires |addrFrame1| >= 2 && addrFrame1[1] == ADDR_ANNOUNCE
    requires |idFrame0| >= 7 && idFrame0[1] == ID_ANNOUNCE && idFrame0[6] == 0
    requires |idFrame1| >= 7 && idFrame1[1] == ID_ANNOUNCE && idFrame1[6] == 1
    requires U16(idFrame0, 4) != U16(idFrame1, 4)
    modifies d
    ensures d.ieeeAddrList == []
    ensures d.devIdMap == old(d.devIdMap)[U16(idFrame0, 4) := ParseIeeeAddr(addrFrame0)][U16(idFrame1, 4) := ParseIeeeAddr(addrFrame1)]
    ensures bound0 == ParseIeeeAddr(addrFrame0) && bound1 == ParseIeeeAddr(addrFrame1)
  {
    var r := d.ProcessPacket(addrFrame0[..2], addrFrame0[2..]);
    assert addrFrame0[..2] + addrFrame0[2..] == addrFrame0;
    r := d.ProcessPacket(addrFrame1[..2], addrFrame1[2..]);
    assert addrFrame1[..2] + addrFrame1[2..] == addrFrame1;
    assert idFrame0[..2] + idFrame0[2..] == idFrame0;
    r := d.ProcessPacket(idFrame0[..2], idFrame0[2..]);
    assert idFrame1[..2] + idFrame1[2..] == idFrame1;
    r := d.ProcessPacket(idFrame1[..2], idFrame1[2..]);
    bound0 := d.devIdMap[U16(idFrame0, 4)];
    bound1 := d.devIdMap[U16(idFrame1, 4)];
  }
}
