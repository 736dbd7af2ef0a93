/**
 * The Ethernet MAC address of lib/TcpServer/MacAddress.cpp: six bytes
 * unpacked from the one-time-programmable fuse registers `HW_OCOTP_MAC1`
 * (its low 16 bits give bytes 0 and 1) and `HW_OCOTP_MAC0` (bytes 2 to 5,
 * most significant first).  The registers are parameters here.
 */
module MacAddress {
  import opened Board

  /** `(x >> (8 * k)) & 0xFF`: byte `k` of `x`, counting from the least significant. */
  function ByteOf(x: u32, k: nat): byte
    requires k < 4
  {
    if k == 0 then x % 256
    else if k == 1 then x / 0x100 % 256
    else if k == 2 then x / 0x1_0000 % 256
    else x / 0x100_0000 % 256
  }

  /** The address `read` fills `mac` with. */
  function Unpack(mac1: u32, mac0: u32): (m: seq<byte>)
    ensures |m| == 6
  {
    [ByteOf(mac1, 1), ByteOf(mac1, 0), ByteOf(mac0, 3), ByteOf(mac0, 2), ByteOf(mac0, 1), ByteOf(mac0, 0)]
  }

  /** The value of bytes read most significant first. */
  function BigEndian(s: seq<byte>): (v: nat)
  {
    if s == [] then 0 else BigEndian(s[..|s| - 1]) * 256 + s[|s| - 1]
  }

  /**
   * Round trip: bytes 0 and 1 hold `MAC1` modulo 2^16, and bytes 2 to 5,
   * read big-endian, give back `MAC0`.
   */
  lemma UnpackRoundTrip(mac1: u32, mac0: u32)
    ensures var m := Unpack(mac1, mac0);
      && BigEndian(m[..2]) == mac1 % 0x1_0000
      && BigEndian(m[2..]) == mac0
  {
    var m := Unpack(mac1, mac0);
    Snoc([], m[0]);
    Snoc([m[0]], m[1]);
    assert m[..2] == [m[0]] + [m[1]];
    assert mac1 % 0x1_0000 == (mac1 / 256) % 256 * 256 + mac1 % 256;
    Snoc([], m[2]);
    Snoc([m[2]], m[3]);
    Snoc([m[2], m[3]], m[4]);
    Snoc([m[2], m[3], m[4]], m[5]);
    assert [m[2]] == [] + [m[2]] && [m[2], m[3]] == [m[2]] + [m[3]];
    assert [m[2], m[3], m[4]] == [m[2], m[3]] + [m[4]];
    assert m[2..] == [m[2], m[3], m[4]] + [m[5]];
    Digits(mac0);
  }

  /** Appending a byte shifts the value up by one byte. */
  lemma Snoc(s: seq<byte>, b: byte)
    ensures BigEndian(s + [b]) == BigEndian(s) * 256 + b
  {
    assert (s + [b])[..|s|] == s;
  }

  /** The four base-256 digits of a 32-bit value put it back together. */
  lemma Digits(x: u32)
    ensures ((x / 0x100_0000 % 256 * 256 + x / 0x1_0000 % 256) * 256 + x / 256 % 256) * 256 + x % 256 == x
  {
    assert x == x / 256 * 256 + x % 256;
    assert x / 256 == x / 0x1_0000 * 256 + x / 256 % 256;
    assert x / 0x1_0000 == x / 0x100_0000 * 256 + x / 0x1_0000 % 256;
    assert x / 0x100_0000 < 256;
  }

  /** The global `mac` array. */
  class Mac {
    var mac: array<byte>

    constructor ()
      ensures mac.Length == 6 && fresh(mac)
    {
      mac := new byte[6](_ => 0);
    }

    /** `read` (lines 8-12): fill the six entries of `mac` from the fuse registers. */
    method Read(mac1: u32, mac0: u32)
      requires mac.Length == 6
      modifies mac
      ensures mac[..] == Unpack(mac1, mac0)
    {
      for i := 0 to 2
        invariant forall k :: 0 <= k < i ==> mac[k] == ByteOf(mac1, 1 - k)
      {
        mac[i] := ByteOf(mac1, 1 - i);
      }
      for i := 0 to 4
        invariant forall k :: 0 <= k < 2 ==> mac[k] == ByteOf(mac1, 1 - k)
        invariant forall k :: 2 <= k < i + 2 ==> mac[k] == ByteOf(mac0, 5 - k)
      {
        mac[i + 2] := ByteOf(mac0, 3 - i);
      }
      assert mac[..] == Unpack(mac1, mac0);
    }
  }
}
