/** Bytes, 32-bit words and their two byte orders, shared by the linker, the
    partition table and the bFLT header. */
module Words {

  type Byte = x: int | 0 <= x < 0x100

  type U32 = x: int | 0 <= x < 0x1_0000_0000

  const TWO32 := 0x1_0000_0000

  datatype Option<+T> = None | Some(value: T)

  function Word(a: Byte, b: Byte, c: Byte, d: Byte): U32 {
    a + 0x100 * b + 0x1_0000 * c + 0x100_0000 * d
  }

  function Le32(v: U32): (s: seq<Byte>)
    ensures |s| == 4
  {
    [v % 0x100, v / 0x100 % 0x100, v / 0x1_0000 % 0x100, v / 0x100_0000]
  }

  function FromLe32(s: seq<Byte>): U32
    requires |s| == 4
  {
    Word(s[0], s[1], s[2], s[3])
  }

  function Be32(v: U32): (s: seq<Byte>)
    ensures |s| == 4
  {
    [v / 0x100_0000, v / 0x1_0000 % 0x100, v / 0x100 % 0x100, v % 0x100]
  }

  function FromBe32(s: seq<Byte>): U32
    requires |s| == 4
  {
    Word(s[3], s[2], s[1], s[0])
  }

  lemma WordOfBytes(v: U32)
    ensures Word(v % 0x100, v / 0x100 % 0x100, v / 0x1_0000 % 0x100, v / 0x100_0000) == v
  {
    var q := v / 0x100;
    assert v / 0x1_0000 == q / 0x100;
    assert v / 0x100_0000 == q / 0x100 / 0x100;
  }

  lemma Le32RoundTrip(v: U32)
    ensures FromLe32(Le32(v)) == v
  {
    WordOfBytes(v);
  }

  lemma Be32RoundTrip(v: U32)
    ensures FromBe32(Be32(v)) == v
  {
    WordOfBytes(v);
  }
}
