/** The 8-byte CAN frame: the client's encoder, its decoder, and the gateway's decoder. */
module CanCodec {
  import opened Wrappers
  import opened Reals
  import opened BigEndian

  datatype Reading = Reading(sensorId: int, value: real, unit: string)

  function UnitToCode(unit: string): byte {
    if unit == "celsius" then 1
    else if unit == "fahrenheit" then 2
    else if unit == "kelvin" then 3
    else if unit == "percent" then 4
    else if unit == "voltage" then 6
    else if unit == "ampere" then 7
    else if unit == "watt" then 8
    else 0
  }

  function CodeToUnit(code: byte): string {
    if code == 1 then "celsius"
    else if code == 2 then "fahrenheit"
    else if code == 3 then "kelvin"
    else if code == 4 then "percent"
    else if code == 6 then "voltage"
    else if code == 7 then "ampere"
    else if code == 8 then "watt"
    else "unknown"
  }

  /** C++ `std::round`: to the nearest integer, halves away from zero. */
  function Round(x: real): int {
    if x >= 0.0 then (x + 0.5).Floor else -((-x + 0.5).Floor)
  }

  /** The fixed-point value fits the signed 32-bit field. */
  predicate InRange(r: Reading) {
    IsInt32(Round(r.value * 100.0))
  }

  function EncodedFrame(r: Reading): (frame: seq<byte>)
    ensures |frame| == 8
  {
    Bytes16(r.sensorId) + Bytes32(Round(r.value * 100.0)) + [UnitToCode(r.unit), 0]
  }

  /** `encode_can_frame`: fills a zeroed frame byte by byte. */
  method EncodeCanFrame(r: Reading) returns (frame: seq<byte>)
    requires InRange(r)
    ensures frame == EncodedFrame(r)
    ensures 256 * (frame[0] as int) + frame[1] as int == r.sensorId % 0x1_0000
    ensures 0x100_0000 * (frame[2] as int) + 0x1_0000 * (frame[3] as int) + 0x100 * (frame[4] as int) + frame[5] as int
         == Round(r.value * 100.0) % 0x1_0000_0000
    ensures frame[6] == UnitToCode(r.unit) && frame[7] == 0
  {
    SensorIdWraps(r.sensorId);
    HighByteFirst(r.sensorId, []);
    HighByteFirst(Round(r.value * 100.0), []);
    var sid := r.sensorId % 0x1_0000;
    var fixed := Round(r.value * 100.0);
    ghost var id, value := Bytes16(sid), Bytes32(fixed);
    frame := seq(8, i => 0);
    frame := frame[0 := sid / 0x100 % 0x100];
    frame := frame[1 := sid % 0x100];
    frame := frame[2 := fixed / 0x100_0000 % 0x100];
    frame := frame[3 := fixed / 0x1_0000 % 0x100];
    frame := frame[4 := fixed / 0x100 % 0x100];
    frame := frame[5 := fixed % 0x100];
    frame := frame[6 := UnitToCode(r.unit)];
    frame := frame[7 := 0];
    assert frame[0] == id[0] && frame[1] == id[1];
    assert frame[2] == value[0] && frame[3] == value[1] && frame[4] == value[2] && frame[5] == value[3];
  }

  /** The client's `decode_can_frame`: refuses only frames that are too short. */
  function DecodeCanFrame(frame: seq<byte>): Option<Reading> {
    if |frame| < 8 then None
    else Some(Reading(Unsigned16(frame[0..2]), Signed32(frame[2..6]) as real / 100.0, CodeToUnit(frame[6])))
  }

  function HexDigit(d: int): char
    requires 0 <= d < 16
  {
    "0123456789abcdef"[d]
  }

  function UnitMap(code: byte): string {
    if code == 1 then "celsius"
    else if code == 2 then "fahrenheit"
    else if code == 3 then "percent"
    else if code == 4 then "hpa"
    else if code == 5 then "lux"
    else if code == 6 then "voltage"
    else if code == 7 then "ampere"
    else if code == 8 then "watt"
    else "unknown_0x" + if code < 16 then [HexDigit(code)] else [HexDigit(code / 16), HexDigit(code % 16)]
  }

  /** The gateway's `decode_frame`: refuses every length but 8. */
  function DecodeFrame(data: seq<byte>): Option<Reading> {
    if |data| != 8 then None
    else Some(Reading(Unsigned16(data[0..2]), Signed32(data[2..6]) as real / 100.0, UnitMap(data[6])))
  }

  // ---- rounding ----

  lemma RoundIsNearest(x: real)
    ensures Abs(Round(x) as real - x) <= 0.5
    ensures x == x.Floor as real ==> Round(x) == x.Floor
  {
    if x == x.Floor as real && x < 0.0 {
      assert (-x + 0.5).Floor == -(x.Floor);
    }
  }

  lemma RoundOfHundredths(k: int)
    ensures Round(k as real / 100.0 * 100.0) == k
  {
    assert k as real / 100.0 * 100.0 == k as real;
    RoundIsNearest(k as real);
  }

  /** A half is rounded away from zero, on either side. */
  lemma RoundHalves(k: nat)
    ensures Round(k as real + 0.5) == k + 1 && Round(-(k as real) - 0.5) == -(k + 1)
  {
    assert (k as real + 0.5 + 0.5).Floor == k + 1;
  }

  // ---- client to client ----

  lemma FieldsOfEncoded(r: Reading)
    requires InRange(r)
    ensures var f := EncodedFrame(r);
      && Unsigned16(f[0..2]) == r.sensorId % 0x1_0000
      && Signed32(f[2..6]) == Round(r.value * 100.0)
      && f[6] == UnitToCode(r.unit) && f[7] == 0
  {
    var f := EncodedFrame(r);
    assert f[0..2] == Bytes16(r.sensorId) && f[2..6] == Bytes32(Round(r.value * 100.0));
    Bytes16RoundTrip(r.sensorId, []);
    Signed32RoundTrip(Round(r.value * 100.0), []);
  }

  lemma HundredthsAreClose(v: real)
    ensures Abs(Round(v * 100.0) as real / 100.0 - v) <= 0.005
  {
    RoundIsNearest(v * 100.0);
  }

  /** The units the client's table knows in both directions; anything else comes back as "unknown". */
  lemma UnitRoundTrip(unit: string, code: byte)
    ensures CodeToUnit(UnitToCode(unit)) == unit <==> UnitToCode(unit) != 0 || unit == "unknown"
    ensures UnitToCode(CodeToUnit(code)) == code <==> code <= 8 && code != 5
    ensures UnitToCode(CodeToUnit(UnitToCode(unit))) == UnitToCode(unit)
  {
  }

  /**
   * Decoding what was encoded keeps the sensor id modulo 2^16 and moves the value, negative or
   * not, by at most 0.005; encoding the result again gives the very same frame.
   */
  lemma RoundTrip(r: Reading)
    requires InRange(r)
    ensures var d := DecodeCanFrame(EncodedFrame(r));
      && d.Some?
      && d.value.sensorId == r.sensorId % 0x1_0000
      && Abs(d.value.value - r.value) <= 0.005
      && (d.value.unit == r.unit <==> UnitToCode(r.unit) != 0 || r.unit == "unknown")
      && InRange(d.value) && EncodedFrame(d.value) == EncodedFrame(r)
  {
    hide UnitToCode, CodeToUnit;
    FieldsOfEncoded(r);
    HundredthsAreClose(r.value);
    UnitRoundTrip(r.unit, 0);
    RoundOfHundredths(Round(r.value * 100.0));
    SensorIdWraps(r.sensorId);
  }

  lemma SensorIdWraps(id: int)
    ensures Bytes16(id % 0x1_0000) == Bytes16(id)
  {
    var q, r := id / 0x1_0000, id % 0x1_0000;
    assert id == 0x1_0000 * q + r;
    assert id / 0x100 == 0x100 * q + r / 0x100;
    ShiftedMod(r / 0x100, id / 0x100, q);
    ShiftedMod(r, id, 0x100 * q);
  }

  /** An 8-byte frame survives decode and encode exactly when its unit code is one the encoder can write and its flags are zero. */
  lemma FrameRoundTrip(f: seq<byte>)
    requires |f| == 8
    ensures InRange(DecodeCanFrame(f).value)
    ensures EncodedFrame(DecodeCanFrame(f).value) == f <==> f[6] <= 8 && f[6] != 5 && f[7] == 0
  {
    hide UnitToCode, CodeToUnit;
    var d := DecodeCanFrame(f).value;
    Bytes16RoundTrip(0, f[0..2]);
    Signed32RoundTrip(0, f[2..6]);
    RoundOfHundredths(Signed32(f[2..6]));
    UnitRoundTrip("", f[6]);
    var g := EncodedFrame(d);
    assert g == f[0..2] + f[2..6] + [UnitToCode(CodeToUnit(f[6])), 0];
    assert f == f[0..2] + f[2..6] + [f[6], f[7]];
    assert g[6] == UnitToCode(CodeToUnit(f[6])) && g[7] == 0;
  }

  // ---- client to gateway ----

  /** The hundredths in four bytes, the first weighing most and its top bit negative, as a value. */
  function FixedPoint(a: byte, b: byte, c: byte, d: byte): real {
    var top := if a < 128 then a as int else a as int - 256;
    (0x100_0000 * top + 0x1_0000 * (b as int) + 0x100 * (c as int) + d as int) as real / 100.0
  }

  lemma TablesAgree(code: byte)
    ensures CodeToUnit(code) == UnitMap(code) <==> code == 1 || code == 2 || 6 <= code <= 8
  {
    if code == 0 || code > 8 {
      assert |UnitMap(code)| > 7;
    }
  }

  /** On every 8-byte frame the two decoders agree on id and value; on the unit exactly for five codes. */
  lemma DecodersAgree(f: seq<byte>)
    ensures |f| == 8 ==>
      var c, p := DecodeCanFrame(f), DecodeFrame(f);
      && c.Some? && p.Some?
      && c.value.sensorId == p.value.sensorId == 256 * (f[0] as int) + f[1] as int
      && c.value.value == p.value.value == FixedPoint(f[2], f[3], f[4], f[5])
      && (c == p <==> f[6] == 1 || f[6] == 2 || 6 <= f[6] <= 8)
    ensures DecodeCanFrame(f).Some? && DecodeFrame(f).None? <==> |f| > 8
    ensures |f| < 8 ==> DecodeCanFrame(f).None? && DecodeFrame(f).None?
    ensures |f| > 8 ==> DecodeCanFrame(f) == DecodeCanFrame(f[..8])
  {
    hide CodeToUnit, UnitMap;
    if |f| == 8 {
      HighByteFirst(0, f[0..2]);
      HighByteFirst(0, f[2..6]);
      hide Signed32, Unsigned16;
      TablesAgree(f[6]);
    } else if |f| > 8 {
      assert f[..8][0..2] == f[0..2] && f[..8][2..6] == f[2..6];
    }
  }

  lemma UnitAcrossTables(unit: string)
    ensures UnitMap(UnitToCode(unit)) == unit
       <==> unit in ["celsius", "fahrenheit", "voltage", "ampere", "watt"] || unit == "unknown_0x0"
  {
  }

  /** What the client sends and the gateway reads: the id and the value as in the round trip, the unit for five names. */
  lemma ClientToGateway(r: Reading)
    requires InRange(r)
    ensures var d := DecodeFrame(EncodedFrame(r));
      && d.Some?
      && d.value.sensorId == r.sensorId % 0x1_0000
      && Abs(d.value.value - r.value) <= 0.005
      && (d.value.unit == r.unit
          <==> r.unit in ["celsius", "fahrenheit", "voltage", "ampere", "watt"] || r.unit == "unknown_0x0")
  {
    hide UnitToCode, UnitMap;
    FieldsOfEncoded(r);
    HundredthsAreClose(r.value);
    UnitAcrossTables(r.unit);
  }

  /** The two tables disagree on codes both define: a kelvin reading arrives as a percentage, a percentage as a pressure. */
  lemma UnitsMistaken()
    ensures UnitMap(UnitToCode("kelvin")) == "percent" && UnitMap(UnitToCode("percent")) == "hpa"
  {
  }

  /** The client's codes, name by name, and back. */
  lemma ClientUnits()
    ensures UnitToCode("celsius") == 1 && UnitToCode("fahrenheit") == 2 && UnitToCode("kelvin") == 3
    ensures UnitToCode("percent") == 4 && UnitToCode("voltage") == 6 && UnitToCode("ampere") == 7 && UnitToCode("watt") == 8
    ensures forall unit ::
      UnitToCode(unit) == 0 <==> unit !in ["celsius", "fahrenheit", "kelvin", "percent", "voltage", "ampere", "watt"]
  {
    hide CodeToUnit;
  }

  /** Codes the client does not use it reads as "unknown". */
  lemma ClientUnknowns(code: byte)
    ensures CodeToUnit(code) == "unknown" <==> code == 0 || code == 5 || code > 8
  {
  }

  /** The gateway reads every code of the documented table as documented. */
  lemma GatewayUnitsAsDocumented()
    ensures UnitMap(1) == "celsius" && UnitMap(2) == "fahrenheit" && UnitMap(3) == "percent" && UnitMap(4) == "hpa"
    ensures UnitMap(5) == "lux" && UnitMap(6) == "voltage" && UnitMap(7) == "ampere" && UnitMap(8) == "watt"
  {
  }

  /** The value of a text of hexadecimal digits. */
  function HexValue(s: string): int {
    if s == "" then 0
    else
      var c := s[|s| - 1];
      16 * HexValue(s[..|s| - 1])
      + if '0' <= c <= '9' then c as int - '0' as int else if 'a' <= c <= 'f' then c as int - 'a' as int + 10 else -1
  }

  lemma HexDigitValue(d: int)
    requires 0 <= d < 16
    ensures HexValue([HexDigit(d)]) == d && (HexDigit(d) == '0' <==> d == 0)
  {
    assert [HexDigit(d)][..0] == "";
  }

  /** Any other code it names by its value in hexadecimal, without leading zeros. */
  lemma UnknownUnitSpellsCode(code: byte)
    requires code == 0 || code > 8
    ensures var text := UnitMap(code);
      && "unknown_0x" <= text && HexValue(text[10..]) == code
      && |text| == (if code < 16 then 11 else 12) && (code > 0 ==> text[10] != '0')
  {
    var text := UnitMap(code);
    assert |"unknown_0x"| == 10;
    if code < 16 {
      HexDigitValue(code);
      assert text[10..] == [HexDigit(code)];
    } else {
      HexDigitValue(code / 16);
      HexDigitValue(code % 16);
      var digits := [HexDigit(code / 16), HexDigit(code % 16)];
      assert text[10..] == digits && digits[..1] == [HexDigit(code / 16)];
    }
  }
}
