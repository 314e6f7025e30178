/** Fixed-width machine integers and their little-endian byte images. */
module Words {
  const TWO_16: int := 0x1_0000
  const TWO_32: int := 0x1_0000_0000
  const TWO_64: int := 0x1_0000_0000_0000_0000

  type Byte = b: int | 0 <= b < 256
  type U16 = v: int | 0 <= v < TWO_16
  type U32 = v: int | 0 <= v < TWO_32
  type U64 = v: int | 0 <= v < TWO_64
  type I16 = v: int | -0x8000 <= v < 0x8000

  /** The number of values that fit in `width` bytes. */
  function Capacity(width: nat): (c: nat)
    ensures c > 0
  {
    if width == 0 then 1 else 256 * Capacity(width - 1)
  }

  lemma CapacityValues()
    ensures Capacity(1) == 256 && Capacity(2) == TWO_16 && Capacity(4) == TWO_32 && Capacity(8) == TWO_64
  {
    assert Capacity(2) == 256 * Capacity(1);
    assert Capacity(4) == 256 * Capacity(3) == 256 * 256 * Capacity(2);
    assert Capacity(6) == 256 * Capacity(5) == 256 * 256 * Capacity(4);
    assert Capacity(8) == 256 * Capacity(7) == 256 * 256 * Capacity(6);
  }

  function LittleEndian(width: nat, v: nat): (bytes: seq<Byte>)
    ensures |bytes| == width
  {
    if width == 0 then [] else [v % 256] + LittleEndian(width - 1, v / 256)
  }

  function FromLittleEndian(bytes: seq<Byte>): (v: nat)
    ensures v < Capacity(|bytes|)
  {
    if bytes == [] then 0 else bytes[0] + 256 * FromLittleEndian(bytes[1..])
  }

  lemma {:induction false} LittleEndianReadsBack(width: nat, v: nat)
    requires v < Capacity(width)
    ensures FromLittleEndian(LittleEndian(width, v)) == v
  {
    if width > 0 {
      LittleEndianReadsBack(width - 1, v / 256);
      assert LittleEndian(width, v)[1..] == LittleEndian(width - 1, v / 256);
    }
  }

  /** Four bytes in little-endian order: the least significant first. */
  lemma FourLittleEndian(bytes: seq<Byte>)
    requires |bytes| == 4
    ensures FromLittleEndian(bytes) == bytes[0] + 0x100 * bytes[1] as int + 0x1_0000 * bytes[2] as int + 0x100_0000 * bytes[3] as int
  {
    assert FromLittleEndian(bytes[1..]) == bytes[1] + 256 * FromLittleEndian(bytes[2..]) by { assert bytes[1..][1..] == bytes[2..]; }
    assert FromLittleEndian(bytes[2..]) == bytes[2] + 256 * FromLittleEndian(bytes[3..]) by { assert bytes[2..][1..] == bytes[3..]; }
    assert bytes[3..] == [bytes[3]];
  }

  lemma {:induction false} LittleEndianWritesBack(bytes: seq<Byte>)
    ensures LittleEndian(|bytes|, FromLittleEndian(bytes)) == bytes
  {
    if bytes != [] {
      var rest := FromLittleEndian(bytes[1..]);
      LittleEndianWritesBack(bytes[1..]);
      assert (bytes[0] + 256 * rest) % 256 == bytes[0] && (bytes[0] + 256 * rest) / 256 == rest;
    }
  }
}
