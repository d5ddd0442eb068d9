/**
 * Little-endian byte order stated on its own terms, with no Java operators:
 * the number a run of bytes stands for when the first byte is least
 * significant, and the run of bytes that stands for a given number. The
 * decoders in `LittleEndian` are proved against these in `Fields`.
 */
module ByteOrder {
  import opened JavaInts
  import opened LittleEndian

  /** 256^n: one more than the largest number `n` bytes can hold. */
  function Pow256(n: nat): (r: nat)
    ensures 0 < r
  {
    if n == 0 then 1 else 0x100 * Pow256(n - 1)
  }

  /** The number the bytes `bs` stand for, `bs[0]` least significant. */
  function LeValue(bs: seq<Byte>): (v: nat)
    ensures v < Pow256(|bs|)
  {
    if bs == [] then 0 else Unsigned(bs[0]) + 0x100 * LeValue(bs[1..])
  }

  /** The `w` bytes that hold `n` (modulo 256^w), least significant first. */
  function LeBytes(n: nat, w: nat): (bs: seq<Byte>)
    ensures |bs| == w
  {
    if w == 0 then [] else [ToByte(n % 0x100)] + LeBytes(n / 0x100, w - 1)
  }

  /** One byte stands for its unsigned reading. */
  lemma LeValue1(bs: seq<Byte>)
    requires |bs| == 1
    ensures LeValue(bs) == Unsigned(bs[0])
  {
    assert bs[1..] == [];
  }

  /** Two bytes stand for the first plus 256 times the second. */
  lemma LeValue2(bs: seq<Byte>)
    requires |bs| == 2
    ensures LeValue(bs) == Unsigned(bs[0]) + 0x100 * Unsigned(bs[1])
  {
    LeValue1(bs[1..]);
  }

  /** Four bytes stand for the first two plus 65536 times the last two. */
  lemma LeValue4(bs: seq<Byte>)
    requires |bs| == 4
    ensures LeValue(bs) == LeValue(bs[..2]) + 0x1_0000 * LeValue(bs[2..])
  {
    LeValue2(bs[..2]);
    LeValue2(bs[2..]);
    LeValue2(bs[1..][1..]);
    assert bs[1..][1..] == bs[2..];
  }

  /** Narrowing to `byte` and reading the byte back unsigned keeps the low eight bits. */
  lemma UnsignedToByte(x: Int)
    ensures Unsigned(ToByte(x)) == x % 0x100
  {
  }

  /** Narrowing a byte's unsigned reading gives the byte back. */
  lemma ToByteUnsigned(b: Byte)
    ensures ToByte(Unsigned(b)) == b
  {
    ModUnique(Unsigned(b), 0x100, 0, Unsigned(b));
  }

  /** Encoding a number that fits in `w` bytes and reading them back gives the number. */
  lemma {:induction false} LeValueOfLeBytes(n: nat, w: nat)
    requires n < Pow256(w)
    ensures LeValue(LeBytes(n, w)) == n
  {
    if w > 0 {
      var bs := LeBytes(n, w);
      assert bs[1..] == LeBytes(n / 0x100, w - 1);
      UnsignedToByte(n % 0x100);
      LeValueOfLeBytes(n / 0x100, w - 1);
    }
  }

  /** Reading a run of bytes and encoding the number at the same width gives the bytes back. */
  lemma {:induction false} LeBytesOfLeValue(bs: seq<Byte>)
    ensures LeBytes(LeValue(bs), |bs|) == bs
  {
    if bs != [] {
      var v, rest := LeValue(bs), LeValue(bs[1..]);
      ModUnique(v, 0x100, rest, Unsigned(bs[0]));
      ToByteUnsigned(bs[0]);
      LeBytesOfLeValue(bs[1..]);
      assert bs == [bs[0]] + bs[1..];
    }
  }
}
