/** Fixed-width integers as little-endian bytes, the layout of every format modelled here. */
module LittleEndian {
  import opened Common

  function Encode16(v: uint16): (b: seq<uint8>)
    ensures |b| == 2
  {
    [v % 0x100, v / 0x100]
  }

  function Decode16(b: seq<uint8>): uint16
    requires |b| == 2
  {
    b[0] + 0x100 * (b[1] as int)
  }

  function Encode32(v: uint32): (b: seq<uint8>)
    ensures |b| == 4
  {
    [v % 0x100, v / 0x100 % 0x100, v / 0x1_0000 % 0x100, v / 0x100_0000]
  }

  function Decode32(b: seq<uint8>): uint32
    requires |b| == 4
  {
    b[0] + 0x100 * (b[1] as int) + 0x1_0000 * (b[2] as int) + 0x100_0000 * (b[3] as int)
  }

  function Encode64(v: uint64): (b: seq<uint8>)
    ensures |b| == 8
  {
    Encode32(v % 0x1_0000_0000) + Encode32(v / 0x1_0000_0000)
  }

  function Decode64(b: seq<uint8>): uint64
    requires |b| == 8
  {
    Decode32(b[..4]) + 0x1_0000_0000 * (Decode32(b[4..]) as int)
  }

  lemma RoundTrip16(v: uint16)
    ensures Decode16(Encode16(v)) == v
  {
  }

  lemma RoundTrip32(v: uint32)
    ensures Decode32(Encode32(v)) == v
  {
    var upper := v / 0x100;
    var top := upper / 0x100;
    assert v / 0x1_0000 == top && v / 0x100_0000 == top / 0x100;
    assert v == v % 0x100 + 0x100 * upper && upper == upper % 0x100 + 0x100 * top;
  }

  lemma RoundTrip64(v: uint64)
    ensures Decode64(Encode64(v)) == v
  {
    var low, high := v % 0x1_0000_0000, v / 0x1_0000_0000;
    RoundTrip32(low);
    RoundTrip32(high);
    assert Encode64(v)[..4] == Encode32(low) && Encode64(v)[4..] == Encode32(high);
  }
}
