/**
 * The four field kinds the decoder reads, taken together: how wide each is,
 * what range its values lie in, and what each decoder computes, stated as the
 * `ByteOrder` reading of the bytes it covers. From that follow the round trips
 * with the `ByteOrder` encoding and the fact that a decoder sees nothing
 * outside its own bytes. `Read` adds the bounds check the JVM performs on
 * every array access.
 */
module Fields {
  import opened JavaInts
  import opened LittleEndian
  import opened ByteOrder

  /** The decoder's readers: `getUInt8`, `getInt8`, `getUInt16`, `getUInt32`. */
  datatype Field = UInt8 | Int8 | UInt16 | UInt32 {
    /** How many bytes the reader consumes. */
    function Width(): nat {
      match this
      case UInt8 => 1
      case Int8 => 1
      case UInt16 => 2
      case UInt32 => 4
    }

    /** The least value the reader can return. */
    function Min(): int {
      if this == Int8 then -0x80 else 0
    }

    /** The greatest value the reader can return. */
    function Max(): int {
      match this
      case UInt8 => 0xff
      case Int8 => 0x7f
      case UInt16 => 0xffff
      case UInt32 => 0xffff_ffff
    }
  }

  /**
   * What a field's bytes stand for, with no Java operators: the little-endian
   * number for the unsigned fields, its two's-complement reading for `Int8`.
   */
  function Reference(f: Field, window: seq<Byte>): int
    requires |window| == f.Width()
  {
    var u := LeValue(window);
    if f == Int8 && 0x80 <= u then u - 0x100 else u
  }

  /** Run the reader for `f` on `src` at `offset`. */
  function Decode(f: Field, src: ByteArray, offset: Int): (r: int)
    requires InBounds(src, offset, f.Width())
    ensures f.Min() <= r <= f.Max()
  {
    match f
    case UInt8 => GetUInt8(src, offset)
    case Int8 => GetInt8(src, offset)
    case UInt16 => GetUInt16(src, offset)
    case UInt32 => GetUInt32(src, offset)
  }

  /** Each reader returns exactly what the bytes it covers stand for. */
  lemma DecodeIsReference(f: Field, src: ByteArray, offset: Int)
    requires InBounds(src, offset, f.Width())
    ensures Decode(f, src, offset) == Reference(f, src[offset..offset + f.Width()])
  {
    var w := src[offset..offset + f.Width()];
    match f
    case UInt8 =>
      LeValue1(w);
    case Int8 =>
      LeValue1(w);
    case UInt16 =>
      LeValue2(w);
    case UInt32 =>
      LeValue4(w);
      LeValue2(w[..2]);
      LeValue2(w[2..]);
  }

  /** A reader depends on the bytes it covers and on nothing else in the array. */
  lemma DecodeLocal(f: Field, src: ByteArray, offset: Int, src': ByteArray, offset': Int)
    requires InBounds(src, offset, f.Width()) && InBounds(src', offset', f.Width())
    requires src[offset..offset + f.Width()] == src'[offset'..offset' + f.Width()]
    ensures Decode(f, src, offset) == Decode(f, src', offset')
  {
    DecodeIsReference(f, src, offset);
    DecodeIsReference(f, src', offset');
  }

  /** The bytes that store `n` in field `f`: the inverse of the reader. */
  function Encode(f: Field, n: int): (bs: seq<Byte>)
    requires f.Min() <= n <= f.Max()
    ensures |bs| == f.Width()
  {
    LeBytes(if n < 0 then n + 0x100 else n, f.Width())
  }

  /**
   * Storing `n` anywhere inside an array and reading the field back there
   * gives `n`, whatever bytes surround it.
   */
  lemma DecodeEncode(f: Field, n: int, before: seq<Byte>, after: seq<Byte>)
    requires f.Min() <= n <= f.Max()
    requires |before| + f.Width() + |after| <= 0x7fff_ffff
    ensures Decode(f, before + Encode(f, n) + after, |before|) == n
  {
    var src: ByteArray := before + Encode(f, n) + after;
    var u := if n < 0 then n + 0x100 else n;
    assert src[|before|..|before| + f.Width()] == Encode(f, n);
    assert Pow256(1) == 0x100 && Pow256(2) == 0x1_0000 && Pow256(4) == 0x1_0000_0000;
    LeValueOfLeBytes(u, f.Width());
    DecodeIsReference(f, src, |before|);
  }

  /** Reading a field and storing the value again reproduces the bytes it was read from. */
  lemma EncodeDecode(f: Field, src: ByteArray, offset: Int)
    requires InBounds(src, offset, f.Width())
    ensures Encode(f, Decode(f, src, offset)) == src[offset..offset + f.Width()]
  {
    var w := src[offset..offset + f.Width()];
    DecodeIsReference(f, src, offset);
    LeBytesOfLeValue(w);
  }

  datatype Error = OutOfBounds

  datatype Result = Ok(value: int) | Err(error: Error)

  /**
   * The reader for `f` with the JVM's array bounds check made explicit: where
   * the Java method would throw `ArrayIndexOutOfBoundsException`, this gives
   * `Err(OutOfBounds)`.
   */
  function Read(f: Field, src: ByteArray, offset: Int): (r: Result)
    ensures r.Err? <==> offset < 0 || |src| < offset + f.Width()
    ensures r.Ok? ==> f.Min() <= r.value <= f.Max()
    ensures r.Ok? ==> r.value == Reference(f, src[offset..offset + f.Width()])
  {
    if InBounds(src, offset, f.Width()) then
      DecodeIsReference(f, src, offset);
      Ok(Decode(f, src, offset))
    else
      Err(OutOfBounds)
  }

  /** `getUInt8` of the byte `-1` is 255, and `getInt8` of it is -1; 127 reads as 127 either way. */
  lemma ExamplesByte()
    ensures GetUInt8([-1], 0) == 0xff && GetInt8([-1], 0) == -1
    ensures GetUInt8([0x7f], 0) == 0x7f && GetInt8([0x7f], 0) == 0x7f
  {
  }

  /** Bytes `34 12` read as 0x1234. */
  lemma ExampleUInt16()
    ensures GetUInt16([0x34, 0x12], 0) == 0x1234
  {
  }

  /** Bytes `78 56 34 12` read as 0x12345678. */
  lemma ExampleUInt32()
    ensures GetUInt32([0x78, 0x56, 0x34, 0x12], 0) == 0x1234_5678
  {
  }

  /** Four `ff` bytes read as 2^32 - 1, not as -1: the `long` accumulator keeps the top bit unsigned. */
  lemma ExampleUInt32Max()
    ensures GetUInt32([-1, -1, -1, -1], 0) == 0xffff_ffff
  {
  }

  /**
   * A field that would run past either end of the array is an error; one that
   * ends exactly at the end of the array is read.
   */
  lemma ExamplesBounds()
    ensures Read(UInt16, [1], 0) == Err(OutOfBounds)
    ensures Read(UInt8, [1], -1) == Err(OutOfBounds)
    ensures Read(UInt32, [1, 2, 3, 4], 1) == Err(OutOfBounds)
    ensures Read(UInt16, [1, 2, 3], 1) == Ok(0x0302)
    ensures Read(Int8, [-2], 0) == Ok(-2)
  {
  }
}
