# asnom-sgx BER encoder, modelled in Dafny

This project models the encoder of the `asnom-sgx` ASN.1 crate and the value tree it consumes.
The encoder implements the Basic Encoding Rules of ITU-T X.690:

- identifier octets: section 8.1.2, with the high-tag-number form of section 8.1.2.4;
- definite length octets: section 8.1.3, with the short form of section 8.1.3.4 and the long form of section 8.1.3.5.

The modules are:

- `Common`: octets, `u64`/`usize` ranges, the tag class, the primitive/constructed flag, and the universal tag numbers the wrappers use.
- `Structure`: the tree `StructureTag { class, id, payload }`. A payload `PL` is either primitive octets `P` or constructed children `C`. The module also holds the four accessors `match_class`, `match_id`, `expect_constructed` and `expect_primitive`.
- `Wire`: the encoding as pure functions.
  - `HeaderBytes` gives the identifier octets and `LengthBytes` the length octets.
  - `Encode` and `EncodeSeq` give the whole encoding of a tree and of a list of children.
  - The module proves that the base-128 tag groups and the base-256 length octets re-assemble to the tag number and the length.
  - It also proves that the encoding is uniquely decodable: an encoding followed by any octets determines both the tree and the octets after it.
- `Write`: the encoder as the crate runs it. A growable buffer class `ByteBuf` receives the octets step by step.
  - `write_type` is two loops: one collects the 7-bit groups, the other pops them back off.
  - `write_length` is a do-while loop that counts length octets.
  - `encode_into` recurses over the children through a scratch buffer.
  - Each routine is proved to append exactly the octets the `Wire` functions describe.
- `OctetStringType` and `NullType`: the two typed wrappers and their `into_structure` and `default`.
- `Vectors`: the crate's own expected byte vectors and structure tests, plus the boundary cases of both forms.

## Model

| member | source | states |
|---|---|---|
| Common.ClassNumber | src/write.rs:45 | each of the four classes has its own 2-bit number below 4 |
| Common.StructureNumber | src/write.rs:47 | the flag bit is 1 exactly for a constructed value |
| Structure.StructureTag.MatchClass | src/structure.rs:18-21 | `Some` iff the class is the one asked for, and then the tag itself, unchanged |
| Structure.StructureTag.MatchId | src/structure.rs:23-26 | `Some` iff the tag number is the one asked for, and then the tag itself, unchanged |
| Structure.StructureTag.ExpectConstructed | src/structure.rs:28-37 | `Some` iff the payload is constructed, and then every child in its stored position |
| Structure.StructureTag.ExpectPrimitive | src/structure.rs:39-48 | `Some` iff the payload is primitive, and then every octet in its stored position |
| Structure.ExactlyOneVariant | src/structure.rs:28-48 | exactly one of the two unwrapping accessors succeeds on any tag |
| Structure.MatchClassThenId | src/structure.rs:70-73 | filtering by class and then by tag number returns the tag exactly when both match |
| Wire.Septets | src/write.rs:53-62 | the 7-bit groups of a tag number are each below 0x80; there are none only for zero; the leading group is nonzero |
| Wire.SeptetsLength | src/write.rs:53-62 | a 64-bit tag number has at most ten 7-bit groups, so the loop runs at most ten times |
| Wire.SeptetsRoundTrip | src/write.rs:53-62 | the groups re-assemble in base 128 to the tag number |
| Wire.ExtensionBytesCorrect | src/write.rs:78-92 | the continuation octets: at least one; 0x80 set on all but the last, clear on the last; the first has nonzero low bits (minimal); their low bits re-assemble to the tag number |
| Wire.HeaderBytes | src/write.rs:40-93 | one identifier octet, plus one octet per 7-bit group exactly when the tag number exceeds 30 |
| Wire.IdentifierOctet | src/write.rs:43-74 | bits 8-7 are the class, bit 6 the constructed flag, bits 5-1 the tag number up to 30 and 0x1F above |
| Wire.ExtensionBytes | src/write.rs:78-92 | one continuation octet per 7-bit group of the tag number, at least one, the last being the low seven bits of the tag number |
| Wire.IdentifierOctetUnique | src/write.rs:43-73 | the leading octet determines class and flag, whether the tag number exceeds 30, and a tag number up to 30 |
| Wire.ExtensionUnique | src/write.rs:78-92 | different tag numbers have different continuation octets |
| Wire.TerminatedPrefix | src/write.rs:78-92 | a run of continuation octets ends at its first octet with 0x80 clear, so it can be cut from a stream |
| Wire.HeaderUnique | src/write.rs:40-93 | identifier octets at the front of a stream determine class, flag, tag number and the rest of the stream |
| Wire.LengthBytes | src/write.rs:96-113 | one octet below 128, otherwise one plus the octet count of the length; the first octet has its top bit clear exactly for a length below 128 |
| Wire.ByteCountFitsU64 | src/write.rs:105-107 | a length below 2^64 takes at most 8 octets, so the count octet 0x80 + count never overflows |
| Wire.ByteCountBound | src/write.rs:105-107 | a number below 256^k takes at most k octets |
| Wire.ByteCount | src/write.rs:105-107 | the do-while count is at least one, that many octets hold the length, and one octet fewer would not |
| Wire.UintBytes | src/write.rs:111 | exactly `count` big-endian octets, which re-assemble to the number whenever it fits in them |
| Wire.UintLeadingNonzero | src/write.rs:111 | the minimal big-endian form of a nonzero number starts with a nonzero octet |
| Wire.LengthBytesCorrect | src/write.rs:96-113 | short form is the length itself; long form is 0x80 plus a count of 1 to 8, then that many octets, the first nonzero, whose value is the length |
| Wire.LengthUnique | src/write.rs:96-113 | length octets at the front of a stream determine the length and the rest of the stream |
| Wire.StructureOf | src/write.rs:12-15 | the flag is constructed exactly for a `C` payload |
| Wire.Contents | src/write.rs:18-35 | the contents octets are as long as the size computed without encoding |
| Wire.Encode | src/write.rs:11-38 | the encoding is as long as header, length field and contents computed without encoding |
| Wire.EncodeSeq | src/write.rs:27-29 | the children's encodings together are as long as the sum of their sizes |
| Wire.EncodedSizeSeqAppend | src/write.rs:27-29 | the sizes of a split list of children add up |
| Wire.EncodeSeqAppend | src/write.rs:27-29 | each child is encoded independently: a split list encodes as the two halves one after the other |
| Wire.EncodeSeqFrom | src/write.rs:27-29 | from child `i` on, the encoding is child `i`'s encoding then the rest's |
| Wire.EncodeFields | src/write.rs:17-34 | an encoding is the identifier octets, then the length of the contents, then the contents |
| Wire.EncodePrimitive | src/write.rs:19-24 | primitive octets follow their length field verbatim and in order |
| Wire.EncodeConstructed | src/write.rs:25-34 | a constructed value's length field is the total length of its children's encodings, which follow in child order |
| Wire.EncodeFirstOctet | src/write.rs:12-76 | the first octet of any encoding carries the class, a flag set iff the payload is `C`, and the tag number up to 30 or 0x1F |
| Wire.EncodeUnique | src/write.rs:11-38 | an encoding followed by any octets determines the tree and the octets after it |
| Wire.EncodeSeqUnique | src/write.rs:25-34 | concatenated child encodings determine the list of children |
| Write.ByteBuf.constructor | src/write.rs:26 | a new buffer is empty |
| Write.ByteBuf.Push | src/write.rs:22 | appends one octet and changes nothing else |
| Write.ByteBuf.PushAll | src/write.rs:21-23 | appends every octet of the sequence, in order |
| Write.ByteBuf.WriteUint | src/write.rs:111 | appends `count` big-endian octets of the value, under the library's own precondition |
| Write.TagBytes | src/write.rs:51-64 | the `while tag > 0` loop collects the 7-bit groups least significant first, the reverse of `Septets` |
| Write.WriteExtension | src/write.rs:78-92 | popping the groups appends the continuation octets with 0x80 on all but the last; the loop bound never underflows |
| Write.WriteType | src/write.rs:40-93 | appends exactly `HeaderBytes` of the class, flag and tag number |
| Write.WriteLength | src/write.rs:96-113 | appends exactly `LengthBytes` of the length; the do-while count is the minimal octet count |
| Write.EncodeInto | src/write.rs:11-38 | returns `Ok`, leaves the octets already in the buffer untouched and appends exactly `Encode` of the tree |
| Write.WritePayload | src/write.rs:18-35 | appends the length field of the contents, then the contents |
| Write.EncodeChildren | src/write.rs:26-29 | encoding the children one by one into the scratch buffer appends `EncodeSeq` of them and always returns `Ok` |
| OctetStringType.OctetString.IntoStructure | src/structures/octetstring.rs:17-23 | keeps class and tag number; the payload is primitive and is exactly `inner` |
| OctetStringType.OctetString.Default | src/structures/octetstring.rs:26-34 | universal class, tag number 4, no octets |
| OctetStringType.IntoStructureInjective | src/structures/octetstring.rs:17-23 | distinct octet strings become distinct trees |
| OctetStringType.EncodeOctetString | src/structures/octetstring.rs:21 | an octet string encodes as header, length and its octets unchanged |
| OctetStringType.EncodeDefault | src/structures/octetstring.rs:26-34 | the default octet string encodes as `04 00` |
| NullType.Null.IntoStructure | src/structures/null.rs:17-23 | keeps class and tag number; the payload is primitive and empty |
| NullType.Null.Default | src/structures/null.rs:26-34 | universal class, tag number 5 |
| NullType.EncodeNull | src/structures/null.rs:21 | every null value fits and encodes as its identifier octets followed by the single length octet `00` |
| NullType.EncodeDefault | src/structures/null.rs:26-34 | the default null encodes as `05 00` |
| Vectors.EncodeShortPrimitive | src/write.rs:19-24 | a primitive value with a tag number up to 30 and fewer than 128 octets encodes as identifier octet, length octet, octets |
| Vectors.EncodeShortConstructed | src/write.rs:25-34 | a constructed value with a tag number up to 30 and short children encodes as identifier octet, length octet, children |
| Vectors.SimpleTag | src/write.rs:128-139 | `{Universal, 2, P[06 50]}` encodes as `02 02 06 50` |
| Vectors.ConstructedTag | src/write.rs:141-158 | a SEQUENCE holding the OCTET STRING "Hello World!" encodes as `30 0E 04 0C 48 … 21` |
| Vectors.ComplexInnerEncoding | src/write.rs:169-187 | the application-class SEQUENCE encodes as `60 1B` then its three children |
| Vectors.ComplexTag | src/write.rs:160-205 | the nested application/context example encodes as the test's expected octets, line by line |
| Vectors.LengthBoundary | src/write.rs:98-111 | lengths 127, 128 and 256 encode as `7F`, `81 80` and `82 01 00` |
| Vectors.TagThirty | src/write.rs:49-73 | tag number 30 fits the identifier octet: `1E` |
| Vectors.TagThirtyOne | src/write.rs:49-92 | tag number 31 takes one continuation octet: `1F 1F` |
| Vectors.TagSixtyFive | src/write.rs:49-92 | application class, tag number 65: `5F 41` |
| Vectors.TagTwoHundred | src/write.rs:49-92 | tag number 200 takes two groups, the first marked: `BF 81 48` |
| Vectors.ExpectExact | src/structure.rs:56-74 | filtering the test tree by its own class and tag number gives it back |
| Vectors.ExpectInner | src/structure.rs:76-102 | unwrapping keeps child order, so popping yields application 3 first and universal 2 second |

## Left out

- The decoder (`parse.rs`) is not part of this model. The uniqueness lemmas `Wire.HeaderUnique`, `Wire.LengthUnique`, `Wire.EncodeUnique` and `Wire.EncodeSeqUnique` state instead that the encoder's output can be read back.
- The `io::Write` trait object that `write_type` and `write_length` accept is modelled by the one writer the encoder passes to them, the `Vec<u8>` buffer (`Write.ByteBuf`). Writes to a vector cannot fail, and the source discards their results with `let _ =`. So `Write.IoResult.Err` is never produced.
- `byteorder`'s `write_uint` is external code. It is modelled by its documented behaviour in `Write.ByteBuf.WriteUint`.
- Shifts, masks and `|` on disjoint bit fields are written as multiplication, division, remainder and addition by powers of two.
- Wire.Encode, Write.EncodeInto: both require the whole encoding to be shorter than 2^64 octets. The source does not check this. Its comment at `src/write.rs:95` notes that a length beyond `usize` cannot occur in memory. Wider lengths are not modelled.
- The typed wrappers `Integer`, `Sequence` and `Tag` are not part of this model. Nor are `common.rs` and `universal.rs`, which define the class and universal tag numbers.
  - The class numbers Universal 0, Application 1 and Context 2 are read off the test vectors (`30`, `60` and `80` at `src/write.rs:193-198`). No test encodes a Private tag, so Private 3 is assumed as the remaining value of the 2-bit class field.
  - The universal tag numbers (INTEGER 2, OCTET STRING 4, NULL 5, SEQUENCE 16) are those of ITU-T X.680, table 1.
  - The test trees are built directly: INTEGER 1616 is a primitive universal 2 with contents `06 50`, and a SEQUENCE is a constructed universal 16.
- Rust ownership, `Clone`, `Debug` and `PartialEq` derivations are not modelled; trees are values.
- The `inner: ()` field of `Null` carries nothing and is not represented.
- `src/lib.rs` (crate attributes and module declarations) is not modelled.
