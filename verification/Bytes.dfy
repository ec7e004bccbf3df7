/** Bytes and little-endian integers. */
module Bytes {
  type Byte = b: int | 0 <= b < 256

  function U16(n: nat): seq<Byte>
    requires n < 0x1_0000
  {
    [n % 256, n / 256]
  }

  function U32(n: nat): (bytes: seq<Byte>)
    requires n < 0x1_0000_0000
    ensures |bytes| == 4
  {
    U16(n % 0x1_0000) + U16(n / 0x1_0000)
  }

  function FromU16(bytes: seq<Byte>): (n: nat)
    requires |bytes| == 2
    ensures n < 0x1_0000
  {
    var lo: int, hi: int := bytes[0], bytes[1];
    lo + 256 * hi
  }

  function FromU32(bytes: seq<Byte>): (n: nat)
    requires |bytes| == 4
    ensures n < 0x1_0000_0000
  {
    FromU16(bytes[..2]) + 0x1_0000 * FromU16(bytes[2..])
  }

  lemma U16RoundTrip(n: nat)
    requires n < 0x1_0000
    ensures FromU16(U16(n)) == n
  {
  }

  lemma U16Inverse(bytes: seq<Byte>)
    requires |bytes| == 2
    ensures U16(FromU16(bytes)) == bytes
  {
  }

  lemma U32RoundTrip(n: nat)
    requires n < 0x1_0000_0000
    ensures FromU32(U32(n)) == n
  {
    var lo, hi := U16(n % 0x1_0000), U16(n / 0x1_0000);
    assert (lo + hi)[..2] == lo && (lo + hi)[2..] == hi;
  }

  lemma U32Inverse(bytes: seq<Byte>)
    requires |bytes| == 4
    ensures U32(FromU32(bytes)) == bytes
  {
    hide U16, FromU16;
    var lo, hi := FromU16(bytes[..2]), FromU16(bytes[2..]);
    U16Inverse(bytes[..2]);
    U16Inverse(bytes[2..]);
    SplitU32(lo, hi);
    assert bytes == bytes[..2] + bytes[2..];
  }

  lemma SplitU32(lo: nat, hi: nat)
    requires lo < 0x1_0000 && hi < 0x1_0000
    ensures lo + 0x1_0000 * hi < 0x1_0000_0000
    ensures (lo + 0x1_0000 * hi) % 0x1_0000 == lo && (lo + 0x1_0000 * hi) / 0x1_0000 == hi
  {
  }

  function U64(n: nat): (bytes: seq<Byte>)
    requires n < 0x1_0000_0000_0000_0000
    ensures |bytes| == 8
  {
    U32(n % 0x1_0000_0000) + U32(n / 0x1_0000_0000)
  }

  function FromU64(bytes: seq<Byte>): (n: nat)
    requires |bytes| == 8
  {
    FromU32(bytes[..4]) + 0x1_0000_0000 * FromU32(bytes[4..])
  }

  lemma U64RoundTrip(n: nat)
    requires n < 0x1_0000_0000_0000_0000
    ensures FromU64(U64(n)) == n
  {
    var lo, hi := n % 0x1_0000_0000, n / 0x1_0000_0000;
    U32RoundTrip(lo);
    U32RoundTrip(hi);
    hide U32, FromU32;
    assert (U32(lo) + U32(hi))[..4] == U32(lo) && (U32(lo) + U32(hi))[4..] == U32(hi);
  }

  /** The `width` lowest bytes of a number, lowest first. */
  function Le(n: nat, width: nat): seq<Byte> {
    if width == 0 then [] else [n % 256] + Le(n / 256, width - 1)
  }

  lemma LittleEndian16(n: nat)
    requires n < 0x1_0000
    ensures U16(n) == Le(n, 2)
  {
    assert Le(n / 256 / 256, 0) == [];
    assert Le(n / 256, 1) == [n / 256 % 256] + Le(n / 256 / 256, 0);
  }

  function Power256(k: nat): nat { if k == 0 then 1 else 256 * Power256(k - 1) }

  lemma {:induction false} LeAppend(lo: nat, hi: nat, a: nat, b: nat)
    requires lo < Power256(a)
    ensures Le(lo + Power256(a) * hi, a + b) == Le(lo, a) + Le(hi, b)
    decreases a
  {
    if a > 0 {
      var x := Power256(a - 1) * hi;
      var n := lo + 256 * x;
      assert Power256(a) * hi == 256 * x;
      assert n % 256 == lo % 256 && n / 256 == lo / 256 + x;
      LeAppend(lo / 256, hi, a - 1, b);
    }
  }

  lemma Powers()
    ensures Power256(2) == 0x1_0000 && Power256(4) == 0x1_0000_0000
  {
    assert Power256(0) == 1 && Power256(1) == 256 && Power256(2) == 0x1_0000 && Power256(3) == 0x100_0000;
  }

  /** Integers of all widths are written lowest byte first. */
  lemma LittleEndian(n: nat)
    ensures n < 0x1_0000 ==> U16(n) == Le(n, 2)
    ensures n < 0x1_0000_0000 ==> U32(n) == Le(n, 4)
    ensures n < 0x1_0000_0000_0000_0000 ==> U64(n) == Le(n, 8)
  {
    hide U16, U32, U64, Le;
    if n < 0x1_0000 {
      LittleEndian16(n);
    }
    if n < 0x1_0000_0000 {
      LittleEndian32(n);
    }
    if n < 0x1_0000_0000_0000_0000 {
      LittleEndian64(n);
    }
  }

  lemma LittleEndian64(n: nat)
    requires n < 0x1_0000_0000_0000_0000
    ensures U64(n) == Le(n, 8)
  {
    hide U32, Le, Power256;
    var lo, hi := n % 0x1_0000_0000, n / 0x1_0000_0000;
    LittleEndian32(lo);
    LittleEndian32(hi);
    Powers();
    LeAppend(lo, hi, 4, 4);
  }

  lemma LittleEndian32(n: nat)
    requires n < 0x1_0000_0000
    ensures U32(n) == Le(n, 4)
  {
    hide U16, Le;
    var lo, hi := n % 0x1_0000, n / 0x1_0000;
    LittleEndian16(lo);
    LittleEndian16(hi);
    Powers();
    LeAppend(lo, hi, 2, 2);
  }
}
