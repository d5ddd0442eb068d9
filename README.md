# Little-endian field decoder, modelled in Dafny

`dLibs.net.didion.loopy.LittleEndian` is a small set of static readers. Each
one takes a Java `byte[]` and an `int` offset and returns the integer stored
there with its least significant byte first:

- `getUInt8` returns one unsigned byte.
- `getInt8` returns one signed byte.
- `getUInt16` returns two bytes, unsigned, as an `int`.
- `getUInt32` returns four bytes, unsigned, as a `long`.

Each reader masks bytes with `& 0xff`, shifts them with `<<` and combines them
with `|`.

The model has four modules:

- `JavaInts` (`java_ints.dfy`) models Java's `byte`, `int` and `long`. Values
  are mathematical integers restricted to each type's range. The two's-complement
  bit pattern of a value is a natural number below 2^32 or 2^64. `&` and `|`
  work on those patterns one bit at a time. `<<` masks its distance to five or
  six bits, as section 15.19 of the Java Language Specification prescribes.
  Lemmas there give each operator's value on the operands the decoder actually
  uses.
- `LittleEndian` (`little_endian.dfy`) holds the four readers. Each one is
  written with the same operators in the same order as the Java method, and its
  contract gives the closed form of the result. The `Assemble` lemmas show that
  OR-ing the shifted, masked bytes adds them, because their bit ranges do not
  overlap.
- `ByteOrder` (`byte_order.dfy`) gives a second definition of little-endian
  order that uses no Java operators. `LeValue` is the number a run of bytes
  stands for. `LeBytes` is the run of bytes that stands for a number. The two
  are proved to be inverses of each other.
- `Fields` (`fields.dfy`) covers the four readers as one `Field` type. It proves
  that each reader returns `LeValue` of exactly the bytes it covers. It also
  proves the round trips with the encoding, and that a reader sees nothing
  outside its own bytes. Finally, it adds `Read`, which makes the JVM's array
  bounds check explicit as an `OutOfBounds` error.

The byte array is a `seq<Byte>`, which is an immutable value. That the readers
never modify `src` therefore holds by construction.

## Model

| member | source | states |
|---|---|---|
| `JavaInts.IntAndLowByte` | src/dLibs/net/didion/loopy/LittleEndian.java:15 | `x & 0xff` on any `int` (so on any sign-extended byte) is `x mod 256`, which is never negative |
| `JavaInts.IntShlByte` | src/dLibs/net/didion/loopy/LittleEndian.java:27 | `v << 8` on an `int` holding 0..255 is `v * 256`; no bit reaches the sign bit |
| `JavaInts.LongShlByte` | src/dLibs/net/didion/loopy/LittleEndian.java:36 | `v << 8`, `v << 16` and `v << 24` on a `long` holding 0..255 multiply it by 2^8, 2^16 and 2^24 |
| `JavaInts.OrDisjoint` | src/dLibs/net/didion/loopy/LittleEndian.java:27 | when `hi` has no bits below bit `j` and `b` lies below 2^j, the bits of `hi` OR `b` are those of `hi + b` |
| `JavaInts.IntOrAboveByte` | src/dLibs/net/didion/loopy/LittleEndian.java:27 | `int` OR of a non-negative multiple of 256 and a value in 0..255 is their sum |
| `JavaInts.LongOrDisjoint` | src/dLibs/net/didion/loopy/LittleEndian.java:36 | `long` OR of a multiple of 2^j and a value below 2^j is their sum |
| `LittleEndian.MaskByte` | src/dLibs/net/didion/loopy/LittleEndian.java:32-35 | `b & 0xff` on a byte is its unsigned reading: `b` if `b >= 0`, `b + 256` if `b < 0` |
| `LittleEndian.Assemble16` | src/dLibs/net/didion/loopy/LittleEndian.java:27 | `v1 << 8` OR `v0`, on two masked bytes, is `v0 + 256 * v1` |
| `LittleEndian.Assemble32High` | src/dLibs/net/didion/loopy/LittleEndian.java:36 | `v3 << 24` OR `v2 << 16`, on masked bytes in `long`s, is `65536 * (v2 + 256 * v3)` |
| `LittleEndian.Assemble32Mid` | src/dLibs/net/didion/loopy/LittleEndian.java:36 | OR-ing `v1 << 8` into a multiple of 65536 below 2^32 adds `256 * v1` |
| `LittleEndian.Assemble32Low` | src/dLibs/net/didion/loopy/LittleEndian.java:36 | OR-ing a masked byte `v0` into a multiple of 256 below 2^32 adds `v0` |
| `LittleEndian.Assemble32` | src/dLibs/net/didion/loopy/LittleEndian.java:36 | `v3 << 24` OR `v2 << 16` OR `v1 << 8` OR `v0`, on four masked bytes, is `v0 + 2^8 v1 + 2^16 v2 + 2^24 v3` |
| `LittleEndian.GetUInt8` | src/dLibs/net/didion/loopy/LittleEndian.java:13-16 | the result lies in 0..255 and is the byte's unsigned reading (`b + 256` for a negative byte) |
| `LittleEndian.GetInt8` | src/dLibs/net/didion/loopy/LittleEndian.java:18-21 | the result lies in -128..127 and is `getUInt8` when that is below 128, `getUInt8 - 256` otherwise |
| `LittleEndian.GetUInt16` | src/dLibs/net/didion/loopy/LittleEndian.java:23-28 | the result lies in 0..65535 and is `getUInt8(o) + 256 * getUInt8(o + 1)`: the byte at the lower offset is least significant |
| `LittleEndian.GetUInt32` | src/dLibs/net/didion/loopy/LittleEndian.java:30-37 | the result lies in 0..4294967295 (never negative: the `long` accumulator) and is `v0 + 2^8 v1 + 2^16 v2 + 2^24 v3` with `vi = getUInt8(o + i)`, which also equals `getUInt16(o) + 65536 * getUInt16(o + 2)` |
| `ByteOrder.LeValue` | src/dLibs/net/didion/loopy/LittleEndian.java:23-37 | the little-endian reading of `n` bytes lies below 256^n |
| `ByteOrder.LeValueOfLeBytes` | src/dLibs/net/didion/loopy/LittleEndian.java:23-37 | encoding any number below 256^w into `w` little-endian bytes and reading them gives the number back |
| `ByteOrder.LeBytesOfLeValue` | src/dLibs/net/didion/loopy/LittleEndian.java:23-37 | reading any run of bytes and encoding the number at the same width gives the bytes back |
| `Fields.Decode` | src/dLibs/net/didion/loopy/LittleEndian.java:13-37 | each reader's result lies in its field's range: 0..255, -128..127, 0..65535 or 0..4294967295 |
| `Fields.DecodeIsReference` | src/dLibs/net/didion/loopy/LittleEndian.java:13-37 | each reader returns exactly the little-endian value of the bytes `[offset, offset + width)` (their two's-complement reading for `getInt8`) |
| `Fields.DecodeLocal` | src/dLibs/net/didion/loopy/LittleEndian.java:13-37 | two reads of the same field give the same value when their windows hold the same bytes, whatever the rest of either array holds |
| `Fields.DecodeEncode` | src/dLibs/net/didion/loopy/LittleEndian.java:23-37 | for every value in a field's range, writing its little-endian bytes at offset `o` (any bytes before and after) and reading the field at `o` gives the value back |
| `Fields.EncodeDecode` | src/dLibs/net/didion/loopy/LittleEndian.java:23-37 | reading a field and writing the value back produces exactly the bytes it was read from |
| `Fields.Read` | src/dLibs/net/didion/loopy/LittleEndian.java:13-37 | the JVM's array bounds check on the readers' accesses made explicit (the source has no such method): the read fails with `OutOfBounds` exactly when `offset < 0` or `offset + width > length`; otherwise its value lies in the field's range and is the little-endian value of the bytes it covers |
| `Fields.ExamplesByte` | src/dLibs/net/didion/loopy/LittleEndian.java:13-21 | byte `0xFF` reads as 255 unsigned and -1 signed; `0x7F` reads as 127 both ways |
| `Fields.ExampleUInt16` | src/dLibs/net/didion/loopy/LittleEndian.java:25-27 | bytes `34 12` read as `0x1234` |
| `Fields.ExampleUInt32` | src/dLibs/net/didion/loopy/LittleEndian.java:30-37 | bytes `78 56 34 12` read as `0x12345678` |
| `Fields.ExampleUInt32Max` | src/dLibs/net/didion/loopy/LittleEndian.java:32-36 | bytes `FF FF FF FF` read as 4294967295, not -1 |
| `Fields.ExamplesBounds` | src/dLibs/net/didion/loopy/LittleEndian.java:15 | a 16-bit read of a one-byte array fails, as does an 8-bit read at offset -1; a 16-bit read ending at the last byte succeeds |

## Left out

- The empty public constructor `LittleEndian()` (lines 9-11) has no behaviour.
- `src/main_app/swing/FileDrop.java` is not part of this model. It is Swing
  drag-and-drop plumbing over library classes, URI parsing and console output.
- Out-of-range offsets. The Java methods do no checking of their own: an index
  past either end of the array makes the JVM throw
  `ArrayIndexOutOfBoundsException`. The four readers therefore require
  `0 <= offset && offset + width <= length`. `Fields.Read` models the
  exception as an `OutOfBounds` result. It is a strengthening of the source into
  a typed error and is not a method the source has.
- A `null` array. The JVM would throw `NullPointerException`. A Dafny sequence
  is never null.
- Mutation and aliasing of the array by other threads while a reader runs. The
  model reads an immutable snapshot.
- `offset + k` overflowing an `int` near 2^31. In Java this cannot be reached:
  the sum overflows only when the earlier index `offset + k - 1` is at least
  2^31 - 1, which is at least the array's length. The access at that earlier,
  non-overflowing index has already thrown. In the model the sum is exact. The
  array's length is at most 2^31 - 1 (`ByteArray`), so such an offset fails
  `InBounds` and `Read` reports `OutOfBounds`. Either way no read happens.
- The encoder (`ByteOrder.LeBytes`, `Fields.Encode`) is not part of the source.
  It exists to state the round-trip properties.
