# Serialization: a verified model

This project models two related codecs from one repository.

1. A compact binary serde format written in Rust (`src/ser.rs`, `src/de.rs`, `src/error.rs`):
   - a `Serializer` that appends bytes to a `Vec<u8>`;
   - a `Deserializer` that consumes a byte slice.
2. The older C++ `Serialization` library that the format descends from:
   - the scalar objects `SerializedBoolean`, `SerializedInteger`, `SerializedUnsignedInteger`, `SerializedString` and `SerializedIpAddress`;
   - the two integer vectors;
   - the type-tagged wrapper `SerializedObject`;
   - the containers `SerializedVector` and `SerializedCollection`.

Both sides share one variable-length integer layout: base-128 groups, most significant first, with bit 0x80 on every byte but the last. That layout is specified once in `Varint`:
- `UVarint` is the unsigned layout;
- `SVarint` is the signed layout, where the first byte keeps 6 magnitude bits and bit 0x40 is the sign.

Every writer and reader is proved against `Varint`.

Modules, in dependency order:

| module | what it holds |
|---|---|
| `Bytes` | `Byte`, the integer limits, big-endian byte strings |
| `Varint` | the shared unsigned and signed group layout and its decoding view |
| `Utf8` | RFC 3629 encoding and well-formedness (sections 3 and 4) |
| `RustError` | the error enum of `src/error.rs` |
| `RustSer` | the `Serializer` class: its buffer is a `seq<Byte>` field that each method extends |
| `RustDe` | the parse functions of `src/de.rs`; the `Deserializer` class, whose buffer is reassigned to the rest after each parse |
| `RustCodec`, `RustProps`, `RustVectors` | round trips, soundness of the parsers, and the crate's own test vectors |
| `CppText`, `CppNumbers` | `std::string` as bytes; `Trim`; the integer conversions of `sprintf` and `sscanf`; C integer casts |
| `CppFile` | the file the objects write to and read from: bytes, a position and an optional capacity |
| `CppIntegers`, `CppScalars`, `CppIntegerVectors` | one class per concrete object, each with `Serialize`, `Deserialize`, `Render`, `Parse` and `IsEqualTo` |
| `CppLayout` | the `Render` and `Parse` text layout shared by the vectors |
| `CppOrdered` | `std::map<std::string, ·>` as a strictly ascending list of entries |
| `CppObjects` | the `Value` behind a `SerializedObject`, its type table, `==`, `Render`, and the type choice of `Parse` |
| `CppObjectCodec` | the bytes an object serializes to, and what `Deserialize` reads back |
| `CppContainers` | the classes `SerializedObject`, `SerializedVector` and `SerializedCollection` |

The main results:

- **Rust.** Each `serialize_*` is read back by its `parse_*` and leaves the bytes after it (`RustCodec.DecodeU64OfEncoding`, `RustCodec.DecodeI64OfEncoding`, the `RustProps` lemmas). Conversely, what a parser consumes is a terminated run of 7-bit groups whose value is the result (`RustCodec.DecodeU64Sound`, `RustCodec.DecodeI64Sound`). The parsers do not insist on the shortest form: padded encodings such as `80 01` are accepted as well (`RustVectors.PaddedVector`).
- **C++, objects.** For every value that serializes without loss (`WellFormed`: each length and count below 2^32, each decimal 8 bytes, each collection in ascending key order), whatever `SerializedObject::Serialize` writes is read back by `Deserialize` from the same place, when all of it fits (`CppObjectCodec.ObjectRoundTrip`). This includes vectors and collections nested to any depth.
- **C++, scalars and integer vectors.** They have the same round trip: `CppIntegers.UnsignedRoundTrip`, `CppIntegerVectors.UnsignedVectorRoundTrip` and the like. Their text forms are read back too: `CppIntegers.UnsignedRenderParse`, `CppScalars.DottedRoundTrip`, `CppLayout.ParseLayout` and `CppIntegerVectors.UnsignedVectorRenderParse`.
- **C++, classes.** Every class method is proved against a specification function of its old state. Examples: `SetObject` against `CppOrdered.Assign`, `Remove` against `CppContainers.Without`, and the `Deserialize` loops against `CppObjectCodec.ObjectVectorAt` and `CppObjectCodec.CollectionAt`. Properties of those functions are proved as lemmas.

## Model

| member | source | states |
|---|---|---|
| Bytes.BigEndianRoundTrip | src/de.rs:128-159 | reading back the `n` big-endian bytes of a value that fits in them gives the value |
| Bytes.BigEndianOfValue | src/ser.rs:161-182 | the `n` bytes read as a number, split again into `n` bytes, are the same bytes: every byte pattern is some value |
| Varint.UVarintValue | src/ser.rs:18-44 | folding `acc * 128 + (b & 0x7F)` over the unsigned encoding of `v` gives back `v` |
| Varint.UVarintTerminated | src/ser.rs:31-43 | every byte of an unsigned encoding but the last has bit 0x80 set, and the last has it clear |
| Varint.UVarintMinimal | src/ser.rs:25-36 | zero is the single byte 00, and a longer encoding never starts with an empty 0x80 group |
| Varint.ChainLength | src/ser.rs:18-44 | an encoding has at most `k` bytes exactly when the value fits in `k` groups of 7 bits |
| Varint.SVarintValue | src/ser.rs:95-127 | a signed encoding is terminated, bit 0x40 of its first byte is set iff `v < 0`, and it decodes to `v` |
| Varint.SVarintSignFlip | src/ser.rs:98-119 | `v` and `-v` encode alike except for bit 0x40 of the first byte |
| Varint.SVarintFirstByte | src/ser.rs:113-118 | the first signed byte is the top 6-bit group, plus 0x40 for a negative value, plus 0x80 when more bytes follow |
| Varint.Vectors | src/ser.rs:507-632 | the crate's varint test vectors (255, 9001, 40000, ±42, ±4000, ±9001) |
| Utf8.EncodeChar | src/ser.rs:184-192 | a char takes one to four bytes |
| Utf8.EncodeCharWellFormed | src/ser.rs:184-192 | the UTF-8 bytes of a char are one well-formed sequence whose lead byte announces its length |
| Utf8.WellFormedLead | src/de.rs:164-170 | the lead byte of a well-formed sequence announces that sequence's length |
| Utf8.DecodeEncodeChar | src/de.rs:161-181 | decoding the encoding of a char gives the char back |
| Utf8.EncodeDecodeChar | src/de.rs:161-181 | every well-formed sequence is the encoding of the char it decodes to |
| Utf8.OneCharValid | src/de.rs:161-181 | for bytes whose lead announces their length, valid UTF-8 and one well-formed char are the same |
| Utf8.DecodeEncodeString | src/ser.rs:194-202 | the bytes of a string are valid UTF-8 and decode back to the string |
| Utf8.EncodeDecodeString | src/de.rs:183-194 | valid UTF-8 is exactly the bytes of the string it decodes to |
| Utf8.CharVectors | src/ser.rs:665-678 | the crate's char test vectors: X, £, € and a 4-byte char |
| RustSer.Serializer.constructor | src/ser.rs:11-13 | the serializer writes after what the buffer already holds |
| RustSer.Serializer.SerializeUsize | src/ser.rs:18-44 | the buffer grows by exactly the unsigned varint of `v` |
| RustSer.Serializer.PopGroups | src/ser.rs:37-43 | the pop loop appends the stacked groups top first, with 0x80 on all but the last |
| RustSer.Serializer.SignedGroups | src/ser.rs:106-112 | the push loop leaves a top group below 0x40, and the signed chain of the input is that group's chain followed by the stacked groups |
| RustSer.Serializer.SerializeBool | src/ser.rs:58-68 | the buffer grows by 1 for true and 0 for false |
| RustSer.Serializer.SerializeI8 | src/ser.rs:70-77 | the buffer grows by the two's-complement byte of `v` |
| RustSer.Serializer.SerializeI16 | src/ser.rs:79-84 | the buffer grows by the signed varint of `v` |
| RustSer.Serializer.SerializeI32 | src/ser.rs:86-91 | the buffer grows by the signed varint of `v` |
| RustSer.Serializer.SerializeI64 | src/ser.rs:95-127 | the buffer grows by the signed varint of `v`, `i64::MIN` included |
| RustSer.Serializer.SerializeU8 | src/ser.rs:129-135 | the buffer grows by the byte `v` |
| RustSer.Serializer.SerializeU16 | src/ser.rs:137-142 | the buffer grows by the unsigned varint of `v` |
| RustSer.Serializer.SerializeU32 | src/ser.rs:144-149 | the buffer grows by the unsigned varint of `v` |
| RustSer.Serializer.SerializeU64 | src/ser.rs:152-158 | the buffer grows by the unsigned varint of `v` |
| RustSer.Serializer.SerializeBits | src/ser.rs:161-182 | the byte loop appends the `n`-byte pattern most significant byte first |
| RustSer.Serializer.SerializeF32 | src/ser.rs:161-170 | the buffer grows by the 4 bytes of the `f32` bit pattern, big-endian |
| RustSer.Serializer.SerializeF64 | src/ser.rs:173-182 | the buffer grows by the 8 bytes of the `f64` bit pattern, big-endian |
| RustSer.Serializer.SerializeChar | src/ser.rs:184-192 | the buffer grows by the UTF-8 bytes of the char, with no length prefix |
| RustSer.Serializer.SerializeStr | src/ser.rs:194-202 | the buffer grows by the byte length as a varint, then the UTF-8 bytes |
| RustDe.Deserializer.constructor | src/de.rs:11-15 | the deserializer starts at the first byte of the input |
| RustDe.Deserializer.ParseBool | src/de.rs:17-22 | result and remaining buffer are those of `DecodeBool` on the old buffer |
| RustDe.Deserializer.ParseI8 | src/de.rs:25-30 | result and remaining buffer are those of `DecodeI8` |
| RustDe.Deserializer.ParseU8 | src/de.rs:84-89 | result and remaining buffer are those of `DecodeU8` |
| RustDe.Deserializer.ParseU64 | src/de.rs:102-125 | the loop over groups computes `DecodeU64`: overflow and bound checks, `ValueTruncated` at the end of input |
| RustDe.Deserializer.ParseU16 | src/de.rs:92-94 | result and remaining buffer are those of the u64 parse bounded by 65535, then cast |
| RustDe.Deserializer.ParseU32 | src/de.rs:97-99 | the same, bounded by 2^32 - 1 |
| RustDe.Deserializer.ParseI64 | src/de.rs:43-82 | the signed loop computes `DecodeI64`, including the special case for `i64::MIN` |
| RustDe.Deserializer.ParseI16 | src/de.rs:33-35 | result and remaining buffer are those of the bounded i64 parse, then cast |
| RustDe.Deserializer.ParseI32 | src/de.rs:38-40 | the same, bounded by the i32 range |
| RustDe.Deserializer.ParseBits | src/de.rs:128-159 | the shift-accumulate loop computes `DecodeBits`: `n` bytes most significant first, or `ValueTruncated` |
| RustDe.Deserializer.ParseF32 | src/de.rs:128-142 | result and remaining buffer are those of `DecodeBits` over 4 bytes |
| RustDe.Deserializer.ParseF64 | src/de.rs:145-159 | result and remaining buffer are those of `DecodeBits` over 8 bytes |
| RustDe.Deserializer.ParseChar | src/de.rs:161-181 | result and remaining buffer are those of `DecodeChar` |
| RustDe.Deserializer.ParseStr | src/de.rs:184-194 | result and remaining buffer are those of `DecodeStr` |
| RustDe.Deserializer.ParseBytes | src/de.rs:197-206 | result and remaining buffer are those of `DecodeBytes` |
| RustDe.Deserializer.DeserializeAny | src/de.rs:214-222 | always fails with `TypeUnknown`, since the format carries no type tags |
| RustCodec.DecodeU64OfEncoding | src/de.rs:102-125 | `parse_u64` on the bytes of `serialize_usize(v)` returns `v` and leaves exactly the bytes after them, for every `v` within the bound |
| RustCodec.U64LoopTerminated | src/de.rs:110-124 | the u64 loop accepts a terminated run of groups whose value fits, with its value |
| RustCodec.U64LoopSound | src/de.rs:110-124 | what the u64 loop accepts is a terminated run of groups whose value is in range |
| RustCodec.DecodeU64Sound | src/de.rs:102-125 | when `parse_u64` succeeds, the bytes it consumed are a prefix of the input, they form a terminated run of 7-bit groups, and the unsigned value of those groups is the result, which is within u64 and the bound; the run need not be the shortest one (see `RustVectors.PaddedVector`) |
| RustCodec.DecodeI64OfGroups | src/de.rs:43-82 | `parse_i64` accepts every terminated run of groups whose signed value is in range, whatever follows it |
| RustCodec.SoundI64Min | src/de.rs:58-67 | the `i64::MIN` step accepts its one final group |
| RustCodec.DecodeI64OfEncoding | src/de.rs:43-82 | `parse_i64` on the bytes of `serialize_i64(v)` returns `v` and leaves the bytes after them, `i64::MIN` included |
| RustCodec.I64LoopSound | src/de.rs:53-76 | what the i64 loop accepts is a terminated run of groups whose signed value is in range |
| RustCodec.DecodeI64Sound | src/de.rs:43-82 | when `parse_i64` succeeds, the bytes it consumed are a prefix of the input, they form a terminated run of 7-bit groups, and the signed value of those groups (sign bit of the first byte) is the result, which is within i64 and the bound; a negative result has the sign bit set; the run need not be the shortest one |
| RustProps.DecodeBoolOfEncoding | src/de.rs:17-22 | `parse_bool` reads back what `serialize_bool` wrote, consuming one byte |
| RustProps.I8Inverse | src/ser.rs:497-504 | `as u8` and `as i8` are inverse, and -42 is the byte D6 |
| RustProps.DecodeI8OfEncoding | src/de.rs:25-30 | `parse_i8` reads back what `serialize_i8` wrote |
| RustProps.DecodeU8OfEncoding | src/de.rs:84-89 | `parse_u8` reads back what `serialize_u8` wrote |
| RustProps.OneByteSound | src/de.rs:17-30 | on empty input `parse_bool`, `parse_i8` and `parse_u8` fail with `ValueTruncated`; otherwise each consumes exactly the first byte, and `parse_bool` is true iff it is nonzero |
| RustProps.WrapUnsignedInRange | src/de.rs:92-99 | the final `as u16` or `as u32` is lossless below the checked bound |
| RustProps.WrapSignedInRange | src/de.rs:33-40 | the final `as i16` or `as i32` is lossless within the checked range |
| RustProps.DecodeNarrowUnsignedOfEncoding | src/de.rs:92-99 | `parse_u16` and `parse_u32` read back what `serialize_u16` and `serialize_u32` wrote |
| RustProps.DecodeNarrowUnsignedSound | src/de.rs:92-99 | when `parse_u16` or `parse_u32` succeeds, the consumed bytes are a terminated run of 7-bit groups whose unsigned value is the result, and the result fits the width; padded runs are accepted too |
| RustProps.DecodeNarrowSignedOfEncoding | src/de.rs:33-40 | `parse_i16` and `parse_i32` read back what `serialize_i16` and `serialize_i32` wrote, -32768 included |
| RustProps.DecodeNarrowSignedSound | src/de.rs:33-40 | when `parse_i16` or `parse_i32` succeeds, the consumed bytes are a terminated run of 7-bit groups whose signed value is the result, and the result fits the width; padded runs are accepted too |
| RustProps.DecodeBitsOfEncoding | src/de.rs:128-159 | `parse_f32` and `parse_f64` read back the bit pattern the serializer wrote |
| RustProps.DecodeBitsSound | src/de.rs:128-159 | with fewer than `n` bytes the parse fails with `ValueTruncated` and consumes nothing; otherwise it consumes `n` |
| RustProps.DecodeCharOfEncoding | src/de.rs:161-181 | `parse_char` reads back the UTF-8 bytes `serialize_char` wrote and nothing more |
| RustProps.DecodeCharSound | src/de.rs:161-181 | on success `parse_char` consumes the length its lead byte announces, and those bytes encode the char |
| RustProps.DecodeBytesOfEncoding | src/de.rs:197-206 | `parse_bytes` reads back a varint length followed by that many bytes |
| RustProps.DecodeStrOfEncoding | src/de.rs:184-194 | `parse_str` reads back what `serialize_str` wrote |
| RustProps.DecodeLengthTruncated | src/de.rs:186-188 | a length beyond the remaining bytes makes `parse_str` and `parse_bytes` fail with `ValueTruncated` |
| RustProps.DecodeStrInvalid | src/de.rs:189-191 | `parse_str` rejects a body that is not valid UTF-8 with `InvalidUtf8` |
| RustProps.DecodeStrSound | src/de.rs:184-194 | what `parse_str` accepts is a varint length, then exactly that many bytes, which encode the string |
| RustProps.DecodeBytesSound | src/de.rs:197-206 | what `parse_bytes` accepts is a varint length, then exactly that many bytes, which it returns |
| RustVectors.U64OverflowVector | src/de.rs:691-694 | `82 80 80 80 80 80 80 80 80 00`, worth 2^64, fails with `IntegerOverflow` |
| RustVectors.U16OverflowVector | src/de.rs:651-652 | `A0 C6 C9` overflows the u16 parse |
| RustVectors.I16OverflowVector | src/de.rs:564-565 | `A0 C6 C9` does not fit an i16 |
| RustVectors.I64MinVector | src/de.rs:612-615 | the `i64::MIN` pattern is accepted as `i64::MIN` |
| RustVectors.I64MinPlusOneVector | src/de.rs:620-624 | the same pattern with a final group of 1 overflows |
| RustVectors.PaddedVector | src/de.rs:102-125 | the padded run `80 01` is accepted by `parse_u64` and by `parse_i64` as 1 with nothing left over, although the serializer writes 1 as `01`: the parsers do not require the shortest encoding |
| CppText.BytesRoundTrip | src/SerializedString.cpp:25-47 | `data()` of a string and `assign(bytes, length)` are inverse |
| CppText.TrimShape | src/SerializedObject.cpp:302 | `Trim` returns a contiguous piece of its input with no whitespace at either end |
| CppText.TrimIdempotent | src/SerializedObject.cpp:302 | trimming twice is trimming once |
| CppText.Decimal | src/SerializedUnsignedInteger.cpp:61-63 | the text printed for a number is one or more decimal digits |
| CppText.ToBytes | src/SerializedString.cpp:29 | a string's bytes are its characters, one byte each, in order |
| CppText.OfBytes | src/SerializedString.cpp:45 | the string built from bytes has one character per byte, in order |
| CppText.DecimalValue | src/SerializedUnsignedInteger.cpp:61-63 | the decimal digits printed for `n` denote `n` |
| CppNumbers.ToU64Shift | src/SerializedUnsignedInteger.cpp:55-56 | shifting left by 7 and adding a group, cut to 64 bits at each step, equals the exact value cut once |
| CppNumbers.ToI32Shift | src/SerializedInteger.cpp:65-66 | the same for the wrapping 32-bit signed accumulator |
| CppNumbers.ToI32Negate | src/SerializedInteger.cpp:68-70 | negating a wrapped value and wrapping again is wrapping the negation |
| CppNumbers.SignedDecimal | src/SerializedInteger.cpp:74-76 | `%+d` always prints a sign followed by digits |
| CppNumbers.ScanInteger | src/SerializedUnsignedInteger.cpp:70 | a conversion that succeeds consumes at least one character |
| CppNumbers.StrToUL | src/SerializedUnsignedInteger.cpp:70 | a nonnegative magnitude within the u64 range converts to itself |
| CppNumbers.StrToL | src/SerializedInteger.cpp:83 | the result is always within the `long` range, and equals the signed magnitude when that is in range |
| CppNumbers.ScanFields | src/SerializedIpAddress.cpp:50-57 | when all conversions succeed there are exactly `count` of them |
| CppNumbers.ScanOctets | src/SerializedIpAddress.cpp:50-57 | when all conversions succeed there are exactly `count` octets |
| CppNumbers.ScanDigitsDecimal | src/SerializedUnsignedInteger.cpp:61-71 | the digits printed for `n`, followed by a non-digit, are converted back to `n` and stop before that character |
| CppNumbers.ScanSignedDecimal | src/SerializedInteger.cpp:74-84 | `%+d` printing of `v`, followed by a non-digit, is converted back to the sign and magnitude of `v` |
| CppNumbers.ScanU64Decimal | src/SerializedUnsignedInteger.cpp:65-71 | `sscanf("%" SCNu64)` reads back what `sprintf("%" PRIu64)` printed |
| CppNumbers.ScanU32Decimal | src/SerializedUnsignedIntegerVector.cpp:117-124 | `sscanf("%u")` reads back what `%u` printed |
| CppNumbers.ScanI32SignedDecimal | src/SerializedInteger.cpp:78-84 | `sscanf("%d")` reads back what `%+d` printed |
| CppIntegers.GroupCount | src/SerializedUnsignedInteger.cpp:50-57 | the reader takes bytes with bit 0x80 set up to and including the first without it, within the data; it ends on a set bit only at the end of the file |
| CppIntegers.GroupBytesShape | src/SerializedUnsignedInteger.cpp:46-59 | a reader stops early only at the end of the file: it takes a terminated integer, or all the unterminated bytes that are left |
| CppIntegers.GroupCountOf | src/SerializedUnsignedInteger.cpp:46-59 | a complete encoding stored at `pos` is exactly what the reader takes |
| CppIntegers.UnsignedAt | src/SerializedUnsignedInteger.cpp:46-59 | a read never moves back, and a successful read ends after its start, within the data |
| CppIntegers.SignedAt | src/SerializedInteger.cpp:51-72 | the same for the signed reader |
| CppIntegers.UnsignedAtStored | src/SerializedUnsignedInteger.cpp:46-59 | a stored unsigned encoding is read back whole, whatever follows it |
| CppIntegers.SignedAtStored | src/SerializedInteger.cpp:51-72 | a stored signed encoding is read back whole, whatever follows it |
| CppIntegers.UnsignedRoundTrip | src/SerializedUnsignedInteger.cpp:26-59 | what `Serialize` writes, when it fits, the reader takes back whole from the same position and folds to the same value |
| CppIntegers.SignedRoundTrip | src/SerializedInteger.cpp:26-72 | the same for `SerializedInteger`, `INT_MIN` included |
| CppIntegers.UnsignedRenderParse | src/SerializedUnsignedInteger.cpp:61-71 | what `Render` prints, `Parse` accepts and turns back into the same value |
| CppIntegers.SignedRenderParse | src/SerializedInteger.cpp:74-84 | the same for `SerializedInteger`, printed with its sign |
| CppIntegers.PopStack | src/SerializedUnsignedInteger.cpp:34-42 | the pop loop appends the stack top first, with 0x80 on all but the last byte |
| CppIntegers.UnsignedGroups | src/SerializedUnsignedInteger.cpp:27-42 | the buffer built is the unsigned varint of the value |
| CppIntegers.SignedGroups | src/SerializedInteger.cpp:27-47 | the buffer built is the signed varint of the value, with the magnitude of `INT_MIN` taken as 2^31 |
| CppIntegers.ShiftGroup64 | src/SerializedUnsignedInteger.cpp:55-56 | one reader step keeps the value equal to the 64-bit cut of the fold so far |
| CppIntegers.ShiftGroup32 | src/SerializedInteger.cpp:65-66 | one reader step keeps the value equal to the 32-bit wrap of the magnitude so far |
| CppIntegers.Negate32 | src/SerializedInteger.cpp:68-70 | the negation wraps, so `INT_MIN` stays `INT_MIN` |
| CppIntegers.ReadNext | src/SerializedUnsignedInteger.cpp:50-57 | a reader that has not met the final byte and finds one more byte takes it |
| CppIntegers.SerializedUnsignedInteger.constructor | src/SerializedUnsignedInteger.cpp:17-20 | the object holds the initial value |
| CppIntegers.SerializedUnsignedInteger.Serialize | src/SerializedUnsignedInteger.cpp:26-44 | succeeds iff the varint fits, and the file is as one write of the varint leaves it |
| CppIntegers.SerializedUnsignedInteger.Deserialize | src/SerializedUnsignedInteger.cpp:46-59 | succeeds iff the bytes the reader takes are terminated; the value is their fold cut to 64 bits, and the position moves past them |
| CppIntegers.SerializedUnsignedInteger.Render | src/SerializedUnsignedInteger.cpp:61-63 | `sscanf` of the rendering gives the value back |
| CppIntegers.SerializedUnsignedInteger.Parse | src/SerializedUnsignedInteger.cpp:65-71 | after trimming, text with a blank is refused; otherwise the scanned value is stored on success |
| CppIntegers.SerializedUnsignedInteger.IsEqualTo | src/SerializedUnsignedInteger.cpp:73-76 | equal iff the values are equal |
| CppIntegers.SerializedInteger.constructor | src/SerializedInteger.cpp:17-20 | the object holds the initial value |
| CppIntegers.SerializedInteger.Serialize | src/SerializedInteger.cpp:26-49 | succeeds iff the signed varint fits, and the file is as one write of it leaves it |
| CppIntegers.SerializedInteger.Deserialize | src/SerializedInteger.cpp:51-72 | succeeds iff the bytes the reader takes are terminated; the magnitude is wrapped to 32 bits and negated, with wrap-around, when bit 0x40 is set; the position moves past them |
| CppIntegers.SerializedInteger.ReadGroups | src/SerializedInteger.cpp:60-67 | the `while (more)` loop takes the reader's bytes, succeeds iff they are terminated, and wraps the magnitude to 32 bits |
| CppIntegers.SerializedInteger.Render | src/SerializedInteger.cpp:74-76 | `sscanf("%d")` of the rendering gives the value back |
| CppIntegers.SerializedInteger.Parse | src/SerializedInteger.cpp:78-84 | after trimming, text with a blank is refused; otherwise the scanned value is stored on success |
| CppIntegers.SerializedInteger.IsEqualTo | src/SerializedInteger.cpp:86-89 | equal iff the values are equal |
| CppScalars.BooleanBytes | src/SerializedBoolean.cpp:24-27 | true is written as 1 and false as 0 |
| CppScalars.Spelled | src/SerializedBoolean.cpp:38-65 | the two words `Render` prints are among the spellings `Parse` accepts, each for its own value |
| CppScalars.BooleanRoundTrip | src/SerializedBoolean.cpp:24-36 | a stored byte is read back as the value it was written for |
| CppScalars.SerializedBoolean.constructor | src/SerializedBoolean.cpp:15-18 | the object holds the initial value |
| CppScalars.SerializedBoolean.Serialize | src/SerializedBoolean.cpp:24-27 | succeeds iff the byte fits, and the file is as that write leaves it |
| CppScalars.SerializedBoolean.Deserialize | src/SerializedBoolean.cpp:29-36 | any nonzero byte is true; with no byte left it fails and the value is unchanged |
| CppScalars.SerializedBoolean.Render | src/SerializedBoolean.cpp:38-44 | `Parse` takes the rendering back to the value |
| CppScalars.SerializedBoolean.Parse | src/SerializedBoolean.cpp:46-65 | succeeds iff the trimmed text is `true`, `True`, `TRUE`, `false`, `False` or `FALSE`, and otherwise keeps the value |
| CppScalars.SerializedBoolean.IsEqualTo | src/SerializedBoolean.cpp:67-70 | equal iff the values are equal |
| CppScalars.StringAt | src/SerializedString.cpp:32-47 | a read never moves back, and a successful read ends after its start, within the data |
| CppScalars.StringAtStored | src/SerializedString.cpp:32-47 | a stored string shorter than 2^32 bytes is read back whole, whatever follows it |
| CppScalars.StringAtShort | src/SerializedString.cpp:32-47 | reading succeeds exactly when the length is read and at least as many bytes as it announces follow it |
| CppScalars.Unquoted | src/SerializedString.cpp:56-67 | what `Parse` accepts is the quoted form of the value it stores |
| CppScalars.QuotedRoundTrip | src/SerializedString.cpp:49-67 | what `Render` prints, `Parse` takes back, whatever the string holds |
| CppScalars.SerializedString.constructor | src/SerializedString.cpp:16-19 | the object holds the initial value |
| CppScalars.SerializedString.Serialize | src/SerializedString.cpp:25-30 | succeeds iff the length and bytes fit, and the file is as one write of them leaves it |
| CppScalars.SerializedString.Deserialize | src/SerializedString.cpp:32-47 | success, value and new position are those of `StringAt`; a failed read keeps the old value |
| CppScalars.SerializedString.Render | src/SerializedString.cpp:49-54 | the rendering is two characters longer than the value and unquotes to it |
| CppScalars.SerializedString.Parse | src/SerializedString.cpp:56-67 | succeeds iff the trimmed text is quoted, storing what lies between the quotes |
| CppScalars.SerializedString.IsEqualTo | src/SerializedString.cpp:69-72 | equal iff the values are equal |
| CppScalars.HostRoundTrip | src/SerializedIpAddress.cpp:25-31 | the memory bytes of a `uint32_t` and the value they hold determine each other, in either byte order |
| CppScalars.Octets | src/SerializedIpAddress.cpp:33-41 | the octets printed are the big-endian bytes of the address |
| CppScalars.ScanDottedQuad | src/SerializedIpAddress.cpp:43-69 | four `%hhu` conversions separated by dots read back the printed octets |
| CppScalars.DottedQuadPlain | src/SerializedIpAddress.cpp:43-69 | a dotted quad has no whitespace to trim and no blank inside |
| CppScalars.Pack | src/SerializedIpAddress.cpp:43-69 | or-ing the shifted octets gives the big-endian value of the octets |
| CppScalars.DottedRoundTrip | src/SerializedIpAddress.cpp:33-69 | what `Render` prints, `Parse` turns back into the same address |
| CppScalars.IpAddressRoundTrip | src/SerializedIpAddress.cpp:25-31 | four bytes written are read back as the same address, on a host of either byte order |
| CppScalars.SerializedIpAddress.constructor | src/SerializedIpAddress.cpp:16-19 | the object holds the initial value |
| CppScalars.SerializedIpAddress.Serialize | src/SerializedIpAddress.cpp:25-27 | succeeds iff the four memory bytes fit, and the file is as that write leaves it |
| CppScalars.SerializedIpAddress.Deserialize | src/SerializedIpAddress.cpp:29-31 | succeeds iff four bytes are read; a short read overwrites only the bytes it got |
| CppScalars.SerializedIpAddress.Render | src/SerializedIpAddress.cpp:33-41 | `Parse` takes the rendering back to the address |
| CppScalars.SerializedIpAddress.Parse | src/SerializedIpAddress.cpp:43-69 | succeeds iff the trimmed text is four dotted conversions with no blank, and otherwise keeps the value |
| CppScalars.SerializedIpAddress.IsEqualTo | src/SerializedIpAddress.cpp:71-74 | equal iff the values are equal |
| CppIntegerVectors.Resized | src/SerializedUnsignedIntegerVector.cpp:49 | `resize(n)` has `n` elements: the old ones up to `n`, then zeros |
| CppIntegerVectors.ReadFrom | src/SerializedUnsignedIntegerVector.cpp:50-56 | the element loop reads at most `n` more elements, and exactly `n` when it succeeds |
| CppIntegerVectors.VectorAt | src/SerializedUnsignedIntegerVector.cpp:44-58 | a failed count keeps the old vector; otherwise the vector has the count's length |
| CppIntegerVectors.Filled | src/SerializedUnsignedIntegerVector.cpp:50-56 | filling the resized vector in place keeps its length |
| CppIntegerVectors.ReadAllStored | src/SerializedUnsignedIntegerVector.cpp:50-56 | elements stored one after another are all read back by the loop |
| CppIntegerVectors.VectorStored | src/SerializedUnsignedIntegerVector.cpp:44-58 | a stored count and elements are read back whole, whatever the vector held before |
| CppIntegerVectors.UnsignedVectorRoundTrip | src/SerializedUnsignedIntegerVector.cpp:30-58 | what `Serialize` writes, when it fits, `Deserialize` reads back |
| CppIntegerVectors.SignedVectorRoundTrip | src/SerializedIntegerVector.cpp:30-58 | the same for `SerializedIntegerVector` |
| CppIntegerVectors.UnsignedVectorRenderParse | src/SerializedUnsignedIntegerVector.cpp:60-134 | the text form of an unsigned vector, in either layout, is parsed back to the same vector |
| CppIntegerVectors.SignedVectorRenderParse | src/SerializedIntegerVector.cpp:60-134 | the same for a signed vector |
| CppIntegerVectors.SignedTextPlain | src/SerializedIntegerVector.cpp:113-124 | one signed rendering has no blank, and `sscanf("%d")` reads it back |
| CppIntegerVectors.ReadCount | src/SerializedUnsignedIntegerVector.cpp:45-48 | the count is what `UnsignedAt` reads |
| CppIntegerVectors.ReadUnsignedElement | src/SerializedUnsignedIntegerVector.cpp:51-55 | one element is what `UnsignedAt` reads, cast to `unsigned int` |
| CppIntegerVectors.ReadSignedElement | src/SerializedIntegerVector.cpp:51-55 | one element is what `SignedAt` reads |
| CppIntegerVectors.ReadUnsignedElements | src/SerializedUnsignedIntegerVector.cpp:50-56 | the in-place element loop computes `Filled` |
| CppIntegerVectors.ReadSignedElements | src/SerializedIntegerVector.cpp:50-56 | the in-place element loop computes `Filled` |
| CppIntegerVectors.SerializedUnsignedIntegerVector.constructor | src/SerializedUnsignedIntegerVector.cpp:17-20 | the object holds the initial elements |
| CppIntegerVectors.SerializedUnsignedIntegerVector.Serialize | src/SerializedUnsignedIntegerVector.cpp:30-42 | succeeds iff the count and all elements fit, and the file is as one write of them leaves it |
| CppIntegerVectors.SerializedUnsignedIntegerVector.Deserialize | src/SerializedUnsignedIntegerVector.cpp:44-58 | success, elements and position are those of `VectorAt` on the old file and the old elements |
| CppIntegerVectors.SerializedUnsignedIntegerVector.Render | src/SerializedUnsignedIntegerVector.cpp:60-97 | the rendering is the `<...>` layout of the element renderings that their total width chooses |
| CppIntegerVectors.SerializedUnsignedIntegerVector.Parse | src/SerializedUnsignedIntegerVector.cpp:99-134 | the result is that of `ParseList` with `%u`: refused and unchanged, or elements pushed up to the first failure |
| CppIntegerVectors.SerializedUnsignedIntegerVector.IsEqualTo | src/SerializedUnsignedIntegerVector.cpp:136-139 | equal iff the element sequences are equal |
| CppIntegerVectors.SerializedIntegerVector.constructor | src/SerializedIntegerVector.cpp:17-20 | the object holds the initial elements |
| CppIntegerVectors.SerializedIntegerVector.Serialize | src/SerializedIntegerVector.cpp:30-42 | succeeds iff the count and all elements fit, and the file is as one write of them leaves it |
| CppIntegerVectors.SerializedIntegerVector.Deserialize | src/SerializedIntegerVector.cpp:44-58 | success, elements and position are those of `VectorAt` with the signed reader |
| CppIntegerVectors.SerializedIntegerVector.Render | src/SerializedIntegerVector.cpp:60-97 | the rendering is the `(...)` layout of the `%+d` renderings |
| CppIntegerVectors.SerializedIntegerVector.Parse | src/SerializedIntegerVector.cpp:99-134 | the result is that of `ParseList` with `%d` |
| CppIntegerVectors.SerializedIntegerVector.IsEqualTo | src/SerializedIntegerVector.cpp:136-139 | equal iff the element sequences are equal |
| CppLayout.WidthSnoc | src/SerializedUnsignedIntegerVector.cpp:64-73 | one more rendering adds its length, plus 2 unless the total was zero |
| CppLayout.WidthIsInlineLength | src/SerializedUnsignedIntegerVector.cpp:64-73 | for nonempty renderings, the running total is the length of the one-line form without brackets |
| CppLayout.LayoutChoice | src/SerializedUnsignedIntegerVector.cpp:74 | the multi-line form is chosen exactly when the one-line form would be 70 characters or longer |
| CppLayout.Arrange | src/SerializedUnsignedIntegerVector.cpp:74-96 | the second loop of `Render` builds the layout the total width chooses |
| CppLayout.FindStop | src/SerializedUnsignedIntegerVector.cpp:111 | the position found lies at or after the start and holds a comma or the closing bracket |
| CppLayout.FindStopFirst | src/SerializedUnsignedIntegerVector.cpp:111 | `find_first_of(",>")` finds the first comma or closing bracket, with none before it |
| CppLayout.Turn | src/SerializedUnsignedIntegerVector.cpp:110-131 | one turn of the parse loop moves forward, up to the closing bracket |
| CppLayout.ParseList | src/SerializedUnsignedIntegerVector.cpp:99-134 | the text is refused exactly when, once trimmed, it is not enclosed by the two brackets |
| CppLayout.ParseRows | src/SerializedUnsignedIntegerVector.cpp:108-133 | the parse loop computes `ParseFrom` on the bracketed text |
| CppLayout.ParseReads | src/SerializedUnsignedIntegerVector.cpp:110-131 | where the loop reads all the remaining elements, it pushes all of them and succeeds |
| CppLayout.ParseLayout | src/SerializedUnsignedIntegerVector.cpp:60-134 | what `Render` prints, `Parse` reads back whole, in either layout |
| CppLayout.LayoutParts | src/SerializedUnsignedIntegerVector.cpp:60-97 | the rendering is the brackets around the elements of the chosen layout |
| CppOrdered.BelowTransitive | src/SerializedCollection.cpp:41 | `std::string` `<` is transitive |
| CppOrdered.BelowTotal | src/SerializedCollection.cpp:41 | two different keys are ordered one way or the other |
| CppOrdered.BelowAsymmetric | src/SerializedCollection.cpp:41 | no two keys are each below the other |
| CppOrdered.Find | src/SerializedCollection.cpp:27-29 | a key is found iff some entry has it |
| CppOrdered.FindAt | src/SerializedCollection.cpp:31-38 | in an ascending map, `find` gives the value of the one entry with that key |
| CppOrdered.Assign | src/SerializedCollection.cpp:40-42 | `collection_[name] = value` keeps the map ascending, stores `value` under `name` and leaves every other key's value unchanged |
| CppOrdered.AssignLast | src/SerializedCollection.cpp:117 | a key above every key in the map is stored at the end |
| CppOrdered.Erase | src/SerializedCollection.cpp:44-50 | `erase` keeps the map ascending, removes `name` and leaves every other key's value unchanged |
| CppOrdered.First | src/SerializedCollection.cpp:52-61 | `begin()` gives an entry iff the map is nonempty |
| CppOrdered.FirstIsSmallest | src/SerializedCollection.cpp:52-61 | the first entry's key lies below every other key |
| CppOrdered.Next | src/SerializedCollection.cpp:63-76 | `++it` after `find(name)` gives an entry iff `name` is the key of an entry other than the last |
| CppOrdered.NextAt | src/SerializedCollection.cpp:63-76 | in an ascending map, the next entry is the one just after `name` |
| CppOrdered.EntryAppended | src/SerializedCollection.cpp:117 | storing the next entry of an ascending row appends it, and the map stays ascending |
| CppOrdered.NextIsSuccessor | src/SerializedCollection.cpp:63-76 | `GetNextObject` steps to the next larger key, and no key lies between |
| CppOrdered.NextNone | src/SerializedCollection.cpp:63-76 | there is no next entry exactly when `name` is missing or is the largest key |
| CppObjects.TypeIdRoundTrip | src/SerializedObject.cpp:32-42 | every type's id is recognised as that type, and only its own id is: the ids are distinct |
| CppObjects.EqualIsSame | src/SerializedObject.cpp:60-78 | `==` holds exactly between identical values |
| CppObjects.VectorLayout | src/SerializedVector.cpp:126-161 | the rendering of a vector is bracketed by `[` and `]` |
| CppObjects.Indented | src/SerializedVector.cpp:145 | there is one indented rendering per element |
| CppObjects.CollectionLayout | src/SerializedCollection.cpp:122-139 | the rendering of a collection is bracketed by `{` and `}` |
| CppObjects.Classify | src/SerializedObject.cpp:301-361 | `Parse` refuses exactly the blank text, and picks a type for any other |
| CppObjects.ClassifyMarked | src/SerializedObject.cpp:313-339 | a text that starts with one of `Parse`'s marks is classified by that mark |
| CppObjects.RenderClassified | src/SerializedObject.cpp:293-361 | `Parse` classifies every rendering other than a decimal's as the type it came from |
| CppObjects.ClassifyAddress | src/SerializedObject.cpp:340-351 | a dotted address is classified as an address |
| CppObjects.RenderMarked | src/SerializedObject.cpp:313-339 | the renderings of integers, strings, vectors, collections and integer vectors start with their type's mark and are classified as that type |
| CppObjectCodec.ObjectBytesFramed | src/SerializedObject.cpp:143-164 | when the body's length fits 32 bits, an object is that length as a varint, then its id as a string, then its payload |
| CppObjectCodec.Framed | src/SerializedObject.cpp:155-165 | the data are those one write of the bytes leaves; the position moves past them if all fit, and otherwise goes back to where it was |
| CppObjectCodec.ObjectAt | src/SerializedObject.cpp:168-291 | a read object ends after its start, within the data |
| CppObjectCodec.HeadedAt | src/SerializedObject.cpp:168-181 | once the length is read, a read object ends after its start, within the data |
| CppObjectCodec.TypedAt | src/SerializedObject.cpp:183-290 | once the id is read, a successful read never moves back and ends within the data (a failed one may end anywhere, at the skip target) |
| CppObjectCodec.PayloadAt | src/SerializedObject.cpp:183-270 | a successful read by a fresh concrete object never moves back and ends within the data |
| CppObjectCodec.PayloadEndingAt | src/SerializedObject.cpp:272-278 | a successful read, which has passed the check of the payload's end against the length, never moves back and ends within the data |
| CppObjectCodec.ObjectAtHeaderFails | src/SerializedObject.cpp:169-181 | a length or id that fails to read fails the object where the read stopped |
| CppObjectCodec.ObjectAtEmpty | src/SerializedObject.cpp:186-189 | the id `e` is an empty object as soon as it is read, wherever the length says the object ends |
| CppObjectCodec.ObjectAtSkips | src/SerializedObject.cpp:272-285 | any other outcome moves to where the length says: an unknown id fails there, and a payload succeeds iff it ends there |
| CppObjectCodec.ObjectVectorAt | src/SerializedVector.cpp:112-124 | a failed count fails and keeps the old vector; otherwise the vector is resized to the count; a count beyond 2^32 - 1 never succeeds |
| CppObjectCodec.Step32 | src/SerializedVector.cpp:118 | `++i` on an `unsigned int` wraps to 0 after 2^32 - 1 |
| CppObjectCodec.ObjectsWrapping | src/SerializedVector.cpp:118-122 | when the count is beyond the counter's range, the loop can only end in failure |
| CppObjectCodec.ObjectsAt | src/SerializedVector.cpp:118-122 | the loop reads at most `n` more objects, and exactly `n` when it succeeds |
| CppObjectCodec.CollectionAt | src/SerializedCollection.cpp:102-120 | the map read is ascending; a count beyond 2^32 - 1 never succeeds |
| CppObjectCodec.EntriesWrapping | src/SerializedCollection.cpp:108-118 | beyond the counter's range, the entry loop keeps the map ascending and ends in failure |
| CppObjectCodec.EntriesAt | src/SerializedCollection.cpp:108-118 | the map stays ascending as entries are stored under their keys, and a successful read never moves back and ends within the data |
| CppObjectCodec.EntryAt | src/SerializedCollection.cpp:109-116 | a read key and object end after their start, within the data |
| CppObjectCodec.CountStored32 | src/SerializedVector.cpp:100 | a count cast to `unsigned int` that fits the cast is read back as the count |
| CppObjectCodec.ObjectVectorRead | src/SerializedVector.cpp:112-124 | a count read, followed by that many objects read, is the whole vector read |
| CppObjectCodec.CollectionRead | src/SerializedCollection.cpp:102-120 | a count read, followed by that many entries read, is the whole collection read |
| CppObjectCodec.ObjectStored | src/SerializedObject.cpp:168-291 | a value that serializes without loss is read back from wherever it is stored |
| CppObjectCodec.ObjectVectorStored | src/SerializedVector.cpp:112-124 | a stored vector whose objects are read back is read back whole |
| CppObjectCodec.CollectionStored | src/SerializedCollection.cpp:102-120 | a stored collection whose objects are read back is read back whole |
| CppObjectCodec.ObjectRoundTrip | src/SerializedObject.cpp:84-291 | what `Serialize` writes, when it fits, `Deserialize` reads back from the same place, for every value that serializes without loss |
| CppContainers.Cast | include/Serialization/SerializedObject.hpp:131-178 | the typed cast gives the concrete value exactly when the object has the type asked for |
| CppContainers.ObjectsWrittenPut | src/SerializedVector.cpp:104-108 | writing objects one at a time stores the same bytes as one write of all of them, and leaves the same cursor when that write fits |
| CppContainers.VectorWrittenPut | src/SerializedVector.cpp:96-110 | the same for a whole vector, count included |
| CppContainers.EntriesWrittenPut | src/SerializedCollection.cpp:90-98 | writing keys and objects one at a time stores the same bytes as one write of all of them, and leaves the same cursor when that write fits |
| CppContainers.CollectionWrittenPut | src/SerializedCollection.cpp:82-100 | the same for a whole collection, count included |
| CppContainers.VectorLoop | src/SerializedVector.cpp:118-122 | the loop as written keeps the vector's length |
| CppContainers.VectorLoopIsVectorAt | src/SerializedVector.cpp:112-124 | the loop as written, with its 32-bit counter, is what `ObjectVectorAt` says `Deserialize` does |
| CppContainers.VectorLoopWrapping | src/SerializedVector.cpp:118-122 | beyond the counter's range, the loop is `ObjectsWrapping` |
| CppContainers.CollectionLoop | src/SerializedCollection.cpp:108-118 | the entry loop as written keeps the map ascending |
| CppContainers.CollectionLoopIsCollectionAt | src/SerializedCollection.cpp:102-120 | the entry loop as written is what `CollectionAt` says `Deserialize` does |
| CppContainers.CollectionLoopWrapping | src/SerializedCollection.cpp:108-118 | beyond the counter's range, the entry loop is `EntriesWrapping` |
| CppContainers.FreshPut | src/SerializedVector.cpp:52-56 | a fresh `StringFile` holds exactly the bytes written to it, and its position is their number |
| CppContainers.ObjectBytesParts | src/SerializedObject.cpp:155-156 | the length written is that of the body, and the body follows it whole |
| CppContainers.PayloadWrittenUnbounded | src/SerializedObject.cpp:144-152 | a payload written to a `StringFile` is the payload appended |
| CppContainers.SerializedObject.constructor | src/SerializedObject.cpp:54 | a default object is empty |
| CppContainers.SerializedObject.Of | src/SerializedObject.cpp:49 | a copy holds the same value |
| CppContainers.SerializedObject.Holding | include/Serialization/SerializedObject.hpp:80-120 | from a concrete object of type `t` the type is `t`; from no object at all the object is empty |
| CppContainers.SerializedObject.GetType | src/SerializedObject.cpp:56-58 | the type of the value, which is `Empty` only for the empty value |
| CppContainers.SerializedObject.Serialize | src/SerializedObject.cpp:84-166 | succeeds iff the framed bytes fit; a failure restores the position |
| CppContainers.SerializedObject.Deserialize | src/SerializedObject.cpp:168-291 | success, value and new position are those of `ObjectAt`, and a failure keeps the old value |
| CppContainers.ObjectBody | src/SerializedObject.cpp:92-153 | the `StringFile` collects the type id as a string, then the payload |
| CppContainers.FramedParts | src/SerializedObject.cpp:155-165 | the length and the body, each abandoned when it does not fit, leave the file as `Framed` says |
| CppContainers.WritePayload | src/SerializedObject.cpp:148-152 | the concrete object's `Serialize` succeeds iff its payload fits |
| CppContainers.WriteLeafPayload | src/SerializedObject.cpp:148-152 | a scalar's `Serialize` is one write of its payload |
| CppContainers.ReadPayload | src/SerializedObject.cpp:183-270 | a fresh concrete object reads what `PayloadAt` says |
| CppContainers.ObjectString | src/SerializedVector.cpp:52-56 | serializing to a fresh `StringFile` gives the object's bytes |
| CppContainers.AddedHolds | src/SerializedVector.cpp:50-70 | after `Add` the vector holds an object that serializes like `v`, and adding it again changes nothing |
| CppContainers.WithoutGone | src/SerializedVector.cpp:72-90 | after `Remove` no object serializes like the removed one |
| CppContainers.WithoutNothing | src/SerializedVector.cpp:72-90 | with nothing to remove, `Remove` changes nothing |
| CppContainers.RemoveUndoesAdd | src/SerializedVector.cpp:50-90 | `Remove` undoes an `Add` that added |
| CppContainers.ObjectBytesInjective | src/SerializedVector.cpp:62 | values that serialize without loss serialize differently, so comparing bytes compares values |
| CppContainers.HoldsMember | src/SerializedVector.cpp:57-66 | among values that serialize without loss, `Add` finds `v` iff it is an element |
| CppContainers.RemoveMatching | src/SerializedVector.cpp:79-89 | the erase loop computes `Without`: matching objects go, the others keep their order |
| CppContainers.RemoveTurn | src/SerializedVector.cpp:80-88 | one turn of the erase loop keeps the loop's invariant for one more original object |
| CppContainers.SerializedVector.constructor | src/SerializedVector.cpp:17-20 | the vector holds the initial objects |
| CppContainers.SerializedVector.GetLength | src/SerializedVector.cpp:26-28 | the number of objects |
| CppContainers.SerializedVector.Get | src/SerializedVector.cpp:30-36 | the object at `index` |
| CppContainers.SerializedVector.Insert | src/SerializedVector.cpp:38-40 | `v` goes in at `index`, and the objects before and after it are unchanged |
| CppContainers.SerializedVector.Append | src/SerializedVector.cpp:42-44 | `v` goes at the end |
| CppContainers.SerializedVector.Delete | src/SerializedVector.cpp:46-48 | the object at `index` goes, and the others close up |
| CppContainers.SerializedVector.Replace | src/SerializedVector.cpp:92-94 | only the object at `index` changes |
| CppContainers.SerializedVector.Add | src/SerializedVector.cpp:50-70 | the new vector is `Added`: `v` appended unless an object already serializes like it |
| CppContainers.SerializedVector.Remove | src/SerializedVector.cpp:72-90 | the new vector is `Without` the objects that serialize like `v` |
| CppContainers.SerializedVector.Serialize | src/SerializedVector.cpp:96-110 | succeeds iff the whole vector fits, and leaves the file as `VectorWritten` says |
| CppContainers.SerializedVector.Deserialize | src/SerializedVector.cpp:112-124 | success, objects and position are those of `ObjectVectorAt` on the old file and vector |
| CppContainers.SerializedVector.Parse | src/SerializedVector.cpp:163-191 | the result is that of `VectorParse`: refused and unchanged, or objects pushed up to the first failure |
| CppContainers.SerializedVector.IsEqualTo | src/SerializedVector.cpp:193-196 | equal iff the object sequences are equal |
| CppContainers.VectorParse | src/SerializedVector.cpp:163-171 | the text is refused exactly when it is not bracketed by `[` and `]` once trimmed |
| CppContainers.PushElement | src/SerializedVector.cpp:176-188 | one turn of the parse loop moves forward and continues `VectorParseFrom` |
| CppContainers.VectorParseTurn | src/SerializedVector.cpp:176-188 | an element fails, or it is pushed and the loop goes on past its comma |
| CppContainers.KeyEnd | src/SerializedCollection.cpp:154-160 | a key ends at a `:` or at the closing brace |
| CppContainers.ScanKey | src/SerializedCollection.cpp:154-160 | the inner loop stops where `KeyEnd` says |
| CppContainers.KeyEndFirst | src/SerializedCollection.cpp:154-160 | no `:` comes before the end of the key |
| CppContainers.ReadKey | src/SerializedCollection.cpp:154-172 | a key without a `:` fails, an empty key is skipped, and otherwise the element after it is parsed |
| CppContainers.CollectionParse | src/SerializedCollection.cpp:141-188 | the text is refused exactly when not bracketed by `{` and `}` once trimmed, and the map parsed is ascending |
| CppContainers.CollectionParseFrom | src/SerializedCollection.cpp:153-186 | the parse loop keeps the map ascending |
| CppContainers.KeyParsed | src/SerializedCollection.cpp:161-172 | what a parsed key leads to keeps the map ascending |
| CppContainers.ElementParsed | src/SerializedCollection.cpp:173-185 | storing a parsed element under its key keeps the map ascending |
| CppContainers.EraseAbsent | src/SerializedCollection.cpp:44-50 | erasing a missing key changes nothing |
| CppContainers.WriteObjects | src/SerializedVector.cpp:104-108 | the object loop succeeds iff all the objects fit after the count, and leaves the file as `ObjectsWritten` says |
| CppContainers.SerializeElementAt | src/SerializedVector.cpp:104-108 | one more object written on success extends the write of all objects so far; on failure the file is as `ObjectsWritten` leaves it |
| CppContainers.SerializeElement | src/SerializedVector.cpp:105 | one object is written framed, as `Framed` says |
| CppContainers.WriteEntries | src/SerializedCollection.cpp:90-98 | the entry loop succeeds iff all keys and objects fit, and leaves the file as `EntriesWritten` says |
| CppContainers.SerializeEntryAt | src/SerializedCollection.cpp:90-98 | one more entry written on success extends the write of all entries so far; on failure the file is as `EntriesWritten` leaves it |
| CppContainers.SerializeEntry | src/SerializedCollection.cpp:91-96 | a key then its object; it fails as soon as a part does not fit |
| CppContainers.ReadEntry | src/SerializedCollection.cpp:109-116 | a key then an object, as `EntryAt` says |
| CppContainers.SerializedCollection.constructor | src/SerializedCollection.cpp:18-21 | built from a `std::map`, whose entries are in ascending key order, the collection holds those entries and its invariant (`Valid`: ascending keys) holds from the start |
| CppContainers.SerializedCollection.HasObject | src/SerializedCollection.cpp:27-29 | true iff some entry has the key |
| CppContainers.SerializedCollection.GetObjectWrapper | src/SerializedCollection.cpp:31-38 | the object under the key, or an empty object when there is none |
| CppContainers.SerializedCollection.SetObject | src/SerializedCollection.cpp:40-42 | the new map is `Assign` of the old one, and stays ascending |
| CppContainers.SerializedCollection.RemoveObject | src/SerializedCollection.cpp:44-50 | the new map is `Erase` of the old one, and stays ascending |
| CppContainers.SerializedCollection.GetFirstObject | src/SerializedCollection.cpp:52-61 | succeeds iff the map is nonempty and gives the first entry; otherwise the out-parameters are unchanged |
| CppContainers.SerializedCollection.GetNextObject | src/SerializedCollection.cpp:63-76 | succeeds iff `name` is a key other than the last, and gives the entry after it |
| CppContainers.SerializedCollection.GetSize | src/SerializedCollection.cpp:78-80 | the number of entries |
| CppContainers.SerializedCollection.GetObject | include/Serialization/SerializedCollection.hpp:110-114 | the object under `name` iff it is there and of type `t` |
| CppContainers.SerializedCollection.GetObjectOrDefault | include/Serialization/SerializedCollection.hpp:132-144 | as `GetObject`, but a missing or mistyped object is replaced by the default, which is stored and returned |
| CppContainers.SerializedCollection.GetObjectValue | include/Serialization/SerializedCollection.hpp:162-175 | the value under `name` when it is there and of type `t`, otherwise the default |
| CppContainers.SerializedCollection.SetObjectValue | include/Serialization/SerializedCollection.hpp:199-201 | a new object of type `t` holding `value` is stored under `name` |
| CppContainers.SerializedCollection.Serialize | src/SerializedCollection.cpp:82-100 | succeeds iff the whole collection fits, and leaves the file as `CollectionWritten` says |
| CppContainers.WriteCollection | src/SerializedCollection.cpp:82-100 | writing any entry sequence, in whatever order, succeeds iff its count and entries fit, and leaves the file as `CollectionWritten` says; `WritePayload` writes a collection object's payload through it |
| CppContainers.SerializedCollection.Deserialize | src/SerializedCollection.cpp:102-120 | entries and position are those of `CollectionAt`, and the map stays ascending |
| CppContainers.SerializedCollection.Parse | src/SerializedCollection.cpp:141-188 | the result is that of `CollectionParse`: refused and unchanged, or entries stored up to the first failure |
| CppContainers.SerializedCollection.StoreElement | src/SerializedCollection.cpp:173-185 | the rest of a parse turn stores the element as `ElementParsed` says |
| CppContainers.SerializedCollection.IsEqualTo | src/SerializedCollection.cpp:190-193 | equal iff the entry sequences are equal |

## Left out

- RustSer.Serializer.SerializeI64: the serializer models a release build. There `(-v) as u64` wraps, so `i64::MIN` is written with magnitude 2^63. A debug build would panic on the negation instead, and that panic is not modelled.
- CppIntegers.SerializedInteger.Serialize: `-value_` on `INT_MIN` (src/SerializedInteger.cpp:27) is undefined behaviour in C++. The model takes it as two's-complement wrap, so the magnitude is 2^31.
- CppIntegers.SerializedInteger.Deserialize: the signed overflow of `value_ <<= 7; value_ += ...` (src/SerializedInteger.cpp:65-66) is also undefined behaviour. The model wraps each step to 32 bits, as `ToI32` says.
- CppNumbers.ToI32: conversions to `int` wrap as two's-complement hardware does. C++ before C++20 leaves that conversion implementation-defined.
- Allocation failure is not modelled. This covers `bad_alloc` and `length_error` from a huge length or count: `Buffer buffer(length)` in `SerializedString::Deserialize`, and `resize` in the vectors. In the model such a read simply fails at the end of the data.
- CppScalars.SerializedIpAddress.Serialize: the host's byte order is a parameter (`HostOrder`), not a property of the machine. The same holds for `Deserialize` and for every object that holds an address.
- RustSer.Serializer.SerializeF32: floating point is represented only by its bit pattern. The same goes for `SerializeF64`, `ParseF32` and `ParseF64`. The `to_bits` and `from_bits` conversions are outside the model.
- `SerializedDecimal` is not modelled as a class. A decimal is its 8 raw bytes in memory. Its `Render` (`%lf`) is a host parameter, and its `Parse` (`sscanf("%lf")`) is not modelled.
- CppObjects.Equal: decimals are compared by their raw bytes, not as doubles. So `+0.0` and `-0.0` differ in the model, and a NaN equals itself. `SerializedDecimal::IsEqualTo` compares with `==` on `double`.
- CppObjects.EqualIsSame: this identity follows from the raw-byte decimal comparison above. It does not hold in the program for NaN or signed zeros.
- CppObjects.RenderClassified: decimals are excluded. Their `%lf` text is a host parameter, so the type `Parse` picks for it is not known.
- `SystemAbstractions::IFile` and `StringFile` are not part of this model. `CppFile.File` stands in for them: a byte sequence, a position and an optional capacity, where `None` is an unbounded `StringFile`. A bounded capacity is how the model lets a write come up short.
- CppContainers.SerializedVector.Add: serializing into a fresh `StringFile` never fails in the model. The `return` and `continue` branches taken on a failed `Serialize` (src/SerializedVector.cpp:53-61, 75-83) are therefore unreachable. As written, the `continue` would never advance the iterator and would loop forever. The same holds for `CppContainers.SerializedVector.Remove`.
- Library functions are given fixed meanings; these are assumptions about the libraries:
  - `SystemAbstractions::Trim` and `isspace` follow the C locale: space, `\t`, `\n`, `\v`, `\f` and `\r`;
  - `sprintf("%u")`, `"%+d"` and `"%" PRIu64` print plain decimal digits;
  - `sscanf` follows glibc's integer conversions: leading whitespace, an optional sign, then digits, saturating like `strtoul` and `strtol` and then cut to the target width.
  The round trips `CppIntegers.UnsignedRenderParse`, `CppScalars.DottedRoundTrip` and `CppIntegerVectors.UnsignedVectorRenderParse` rest on these definitions.
- CppContainers.SerializedVector.Parse: two things are parameters:
  - `SystemAbstractions::ParseElement`, which says where an element ends; `ScansElements` requires only that it moves forward within the text;
  - `SerializedObject::Parse` of one element.
  The same holds for `CppContainers.SerializedCollection.Parse`.
- `SystemAbstractions::Indent` is a host parameter, and so is `%lf` for decimals. `CppObjects.Render` uses both.
- Sharing of the concrete object between copies of a `SerializedObject` (its `shared_ptr`) is not modelled. A `Value` is immutable, so the raw pointer `GetObject<T>` returns (into the object that the stored wrapper shares) cannot be used to change the object inside a collection. `CppContainers.SerializedCollection.GetObjectOrDefault` returns the stored value instead of a shared handle to it.
- `std::vector<SerializedObject>` and `std::map` are `seq` fields that each method reassigns. Element-level aliasing through `operator[]` returning a reference is not modelled: `CppContainers.SerializedVector.Get` returns a copy.
- Three loops are factored out of their methods for the proofs:
  - the object and entry loops of `Serialize` and `Deserialize` are separate methods (`CppContainers.WriteObjects`, `CppContainers.ReadEntry`, `CppIntegerVectors.ReadUnsignedElements`);
  - `SerializedVector::Remove`'s loop works on a local copy of the vector, which is then stored back (`CppContainers.RemoveMatching`);
  - `SerializedVector::Parse` pushes onto a local copy that it stores into the vector on every exit.
  The observable results are the same.
- The serde plumbing of the Rust crate is not modelled:
  - `Serialize` and `Deserialize` impls, visitors, and the `from_bytes` and `serialize` entry points;
  - the `deserialize_*` methods, which only hand a `parse_*` result to a visitor;
  - the compound serializers, which are `todo!()` stubs, as are `serialize_bytes`, `serialize_none` and the like.
- The `Display` messages of `Error` (src/error.rs), and the `custom` constructors that build `Error::Message`, are not modelled. No modelled operation produces `Message`, `LengthRequired` or `IdentifierUnknown`.
- The `serializationVersion` argument of every C++ `Serialize` affects no byte written, and is left out.
