/** Big-endian byte representations of fixed-width integers. */
module BigEndian {
  import opened Wrappers

  /** `(v >> 8) & 0xFF`, `v & 0xFF`: shifting floors, so any integer stands for its value modulo 2^16. */
  function Bytes16(v: int): (b: seq<byte>)
    ensures |b| == 2
  {
    [v / 0x100 % 0x100, v % 0x100]
  }

  function Bytes32(v: int): (b: seq<byte>)
    ensures |b| == 4
  {
    [v / 0x100_0000 % 0x100, v / 0x1_0000 % 0x100, v / 0x100 % 0x100, v % 0x100]
  }

  function Unsigned16(b: seq<byte>): int
    requires |b| == 2
  {
    (b[0] as int) * 0x100 + b[1] as int
  }

  function Unsigned32(b: seq<byte>): int
    requires |b| == 4
  {
    (b[0] as int) * 0x100_0000 + (b[1] as int) * 0x1_0000 + (b[2] as int) * 0x100 + b[3] as int
  }

  /** The two's complement reading of four bytes. */
  function Signed32(b: seq<byte>): int
    requires |b| == 4
  {
    var u := Unsigned32(b);
    if u >= 0x8000_0000 then u - 0x1_0000_0000 else u
  }

  predicate IsInt32(v: int) {
    -0x8000_0000 <= v < 0x8000_0000
  }

  /** Written or read, the first byte weighs most; as a signed value the top bit of the first byte weighs -2^31. */
  lemma HighByteFirst(v: int, b: seq<byte>)
    ensures var w := Bytes16(v); 256 * (w[0] as int) + w[1] as int == v % 0x1_0000
    ensures var w := Bytes32(v);
      0x100_0000 * (w[0] as int) + 0x1_0000 * (w[1] as int) + 0x100 * (w[2] as int) + w[3] as int == v % 0x1_0000_0000
    ensures |b| == 2 ==> Unsigned16(b) == 256 * (b[0] as int) + b[1] as int
    ensures |b| == 4 ==>
      var u := 0x100_0000 * (b[0] as int) + 0x1_0000 * (b[1] as int) + 0x100 * (b[2] as int) + b[3] as int;
      Unsigned32(b) == u && Signed32(b) == if b[0] < 128 then u else u - 0x1_0000_0000
  {
    Bytes16RoundTrip(v, []);
    Bytes32RoundTrip(v);
  }

  lemma Bytes16RoundTrip(v: int, b: seq<byte>)
    ensures Unsigned16(Bytes16(v)) == v % 0x1_0000
    ensures |b| == 2 ==> Bytes16(Unsigned16(b)) == b && 0 <= Unsigned16(b) < 0x1_0000
  {
  }

  lemma Bytes32RoundTrip(v: int)
    ensures Unsigned32(Bytes32(v)) == v % 0x1_0000_0000
  {
    assert v / 0x1_0000 == v / 0x100 / 0x100;
    assert v / 0x100_0000 == v / 0x1_0000 / 0x100;
    assert v / 0x1_0000_0000 == v / 0x100_0000 / 0x100;
  }

  lemma Bytes32OfValue(b: seq<byte>)
    requires |b| == 4
    ensures Bytes32(Unsigned32(b)) == b && 0 <= Unsigned32(b) < 0x1_0000_0000
  {
    var v := Unsigned32(b);
    assert v / 0x100 == (b[0] as int) * 0x1_0000 + (b[1] as int) * 0x100 + b[2] as int;
    assert v / 0x1_0000 == (b[0] as int) * 0x100 + b[1] as int;
    assert v / 0x100_0000 == b[0] as int;
  }

  lemma Signed32RoundTrip(v: int, b: seq<byte>)
    ensures IsInt32(v) ==> Signed32(Bytes32(v)) == v
    ensures |b| == 4 ==> IsInt32(Signed32(b)) && Bytes32(Signed32(b)) == b
  {
    hide Bytes32, Unsigned32;
    Bytes32RoundTrip(v);
    if IsInt32(v) {
      WrapsOnce(v);
    }
    if |b| == 4 {
      Bytes32OfValue(b);
      Bytes32Wraps(Unsigned32(b));
    }
  }

  lemma WrapsOnce(v: int)
    requires IsInt32(v)
    ensures v % 0x1_0000_0000 == if v < 0 then v + 0x1_0000_0000 else v
  {
  }

  lemma Bytes32Wraps(u: int)
    ensures Bytes32(u - 0x1_0000_0000) == Bytes32(u)
  {
    var w := u - 0x1_0000_0000;
    assert w % 0x100 == u % 0x100;
    ShiftedMod(w / 0x100, u / 0x100, 0x1_0000);
    ShiftedMod(w / 0x1_0000, u / 0x1_0000, 0x100);
    ShiftedMod(w / 0x100_0000, u / 0x100_0000, 1);
  }

  lemma ShiftedMod(w: int, u: int, k: int)
    requires w == u - 0x100 * k
    ensures w % 0x100 == u % 0x100
  {
    assert w == 0x100 * (u / 0x100 - k) + u % 0x100;
  }
}
