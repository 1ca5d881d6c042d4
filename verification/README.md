# Proofs about the ASN.1 compiler repository

This project models the parts of the repository with the most state and the most arithmetic, and proves what they
promise. `dafny verify dfyconfig.toml` checks all of it.

- **The C99 BER/DER codec** (`Languages/C99/Parser`). The specification of the parser is a recursive function over the
  octets, once with offsets that are natural numbers (`Reader`) and once with the `size_t` sums of the C code (`Machine`),
  with the exact condition for the two to agree. The parser itself is a set of methods on a buffer, a node array and an
  iterator (`Parser`), proved to compute the second. A tree of
  tag-length-value nodes has a recursive encoding and a pre-order flattening (`Tree`). The main results: DER mode accepts
  exactly the encodings of trees (with minimal tags), the node array is the flattening, walking it and writing it out
  gives the input back, every accepted input has a laminar index whose children tile their parents, and the writer with
  its five-octet placeholder and `memmove` refines the recursive encoding within an exact bound on the capacity. `Copy`
  puts them together: parse, walk, write, and the octets are those of the input. `Wire` says in numbers which octets all of
  this is about: classes, forms, tag numbers and lengths as X.690 prints them, each refusal, and two whole inputs.
- **The typed layer** (`Types`, `Oid`, `Bits`): INTEGER, OBJECT IDENTIFIER and BIT STRING contents, each with the exact set of
  contents it accepts; `WireTypes` has their tags and contents, and those of the generated codec, in numbers.
- **The codec that the compiler generates** (`Schema`, `SchemaExact`, `Generated`). A schema is data, the emitted C code an
  interpreter over it. Decoding what was encoded gives the value back, and the condition on OPTIONAL fields is exact: every
  schema that breaks it has a value its codec does not give back. `Generated` has the emitted code in its own form, calls
  to the serializer and a moving iterator with a one-child lookahead.
- **AES-128-CBC with PKCS#7 padding** (`Galois`, `Sbox`, `Aes`, `AesStandard`, `Cbc`), after FIPS 197, NIST SP 800-38A and RFC 5652. Both
  multiplication loops compute one commutative, associative product; the column mixings are inverse because their
  polynomials are; both directions of the block cipher and of the chaining are inverse. The key schedule and the rounds are
  stated by the places of the bytes, and the example of FIPS 197 is carried through.
- **SHA-256, HMAC and the PBM key derivation** (`Sha256`, `Sha256Standard`, `Mac`), written twice in the repository. The
  streaming context and the one-shot hash compute one function of the message, however it is split; that it is the one of
  FIPS 180-4 is stated by shifts, by roots of primes, by the recurrences and by the digest of "abc".
- **The dependency analysis** of `x-series.ex` (`Kahn`, `Boxing`, `BoxingOrder`): the import order, and the search for the
  fields that must be boxed because types are recursive, with the orders in which both list things.
- **The base64 decoder** of the Rust example (`Base64`), over the alphabet of RFC 4648 written out.

## Conventions

`Machine`, `Tree`, `Schema`, `Absorbed`, `Rounds` and so on are functions; each method that corresponds to imperative code is
proved equal to its function, and the theorems are about the functions. Octets of the codec are integers below 256 and C
shifts on them are division and remainder; the ciphers and hashes work on `bv8` and `bv32`. Lengths and positions are
natural numbers. Where the C code keeps 32 or 64 bits (tag numbers, the parsed lengths, the parser's sum of an offset and a
parsed length, the bit count of a hash) the truncation, the wrap-around or the range is explicit; inputs and buffers are
below 2^64 octets, as `size_t` says.

An Elixir map or set has no order of its own, so a function that lists one takes the listing as a parameter, and the
theorems hold for every listing.

## What the code decides

These points are results: the contracts follow the code, not its comments.

- The parser adds the offset and the declared length of a primitive in `size_t`. Where the contents would end at 2^64 or
  later the sum wraps around, the field is not reported as truncated, and parsing goes on at a smaller offset
  (`Parser.Buffer.ReadBytes`). `Machine.Overflows` says of an input whether the parser comes to such a header. Without one
  the wrap-around changes nothing, and an accepted input has one exactly when some stored slice lies outside the input
  (`Machine.ParseAgrees`). So the theorems on positions and contents hold exactly when nothing overflows
  (`Tree.DerCodec`, `Structure.ParseStructure`, `Rewrite.DerReserializes`), those on indices, depths and the node array
  always (`Structure.IteratorYieldsChildren`, `Limits.CapacityCuts`).
  - `30 0C 04 88 FF FF FF FF FF FF FF FF 1F 00` is accepted in DER mode with three nodes (`Machine.WrapIsAccepted`).
  - `30 0A 04 88 FF FF FF FF FF FF FF F6` is the capacity error whatever the capacity (`Machine.NoRoomIsEnough`).
  - `04 88 FF FF FF FF FF FF FF FF` is rejected, but for another reason (`Machine.LoneWrapIsRejected`), so that an input
    that overflows need not have either effect.
- Long-form tags are accepted when they are not minimal and are cut to 32 bits, so re-encoding an accepted input gives it
  back exactly when its tags are minimal (`Header.IdentifierCodec`, `Rewrite.DerReserializes`, `Copy.CopyInput`). The
  tag 1F 80 1F comes back as 1F 1F (`Rewrite.PaddedTagShrinks`).
- An object identifier under root 2 whose second arc is 40 or more is written but comes back as another one: 2.100.3 as
  4.20.3 (`Oid.OidRoundTrip`, `Oid.SecondArcLost`). The same holds for values of generated types that contain one.
- `asn1_parse_uint64` accepts padded contents, `asn1_parse_int64` does not (`Types.Uint64Codec`, `Types.Uint64AcceptsPadding`).
- `asn1_serialize_bit_string` does not look at the unused bits; its output is read back exactly when the caller respects
  them (`Bits.WrittenBitsRead`).
- The documentation of `topological_sort` says that dependencies come first. The in-degree counts importers, so importers
  come first; the promise is kept only if no file imports anything (`Kahn.PromiseKeptWithoutImports`).
- Boxing can remove a reference if every field that holds it is a component that shows it when read without its module
  (`Boxing.BoxableFields`). Whatever the definitions are, a cycle that remains passes through a reference that is not
  like that (`Boxing.RemainingCycleIsStuck`); so boxing the reported fields breaks every cycle when the references on
  cycles all are (`Boxing.BoxingBreaksCycles`), whatever stands off the cycles. A cycle of references outside
  components stays (`Boxing.OutsideCycleStays`), as does one through components that are never reported
  (`Boxing.KeptCycleStays`): `A ::= SEQUENCE OF A` and fields whose references are unqualified are missed
  (`Boxing.ListOfItselfStays`, `Boxing.UnqualifiedFieldStays`). Where no simple cycle has references of both
  kinds the condition is exact (`Boxing.BoxingExact`). On a cycle of both kinds the outcome depends on which type the
  map lists first (`Boxing.MixedDependsOnOrder`); PKIMessage, PKIBody, NestedMessageContent and PKIMessages form one in
  `Specifications/x-series/PKIXCMP-2009.asn1`, lines 66, 73, 116, 137 and 394.
- Every reported field refers to a recursive type, but its own type need not lie on a cycle
  (`Boxing.ReportedRefersToRecursive`, `Boxing.BoxedWithoutNeed`).
- The C key derivation hashes the password up to its first zero byte, the Swift one all of it. From one round on the keys
  agree when there is none, and otherwise exactly when the two runs meet in a collision of the hash. Asked for no rounds
  at all, the C function still hashes once and the Swift one returns its seed (`Mac.SeedsAgree`, `Mac.DerivationsAgree`,
  `Mac.PasswordCutShort`).
- The base64 decoder accepts a last group with filling bits that are not zero, and a dangling single letter
  (`Base64.Base64Codec`): "QR" decodes like "QQ" (`Base64.FillingBitsDropped`).

## Model

| member | source | states |
|---|---|---|
| Header.IdentifierCodec | Languages/C99/Parser/src/asn1_parser.c:81-116 | Reading an identifier gives class, form and tag with a minimal tag number exactly when the octets are what `asn1_encode_identifier` writes for them; every class, form and 32-bit tag |
| Header.LengthCodec | Languages/C99/Parser/src/asn1_parser.c:126-205 | DER mode accepts exactly the octets `asn1_encode_length` writes for some value below 2^64, and returns that value |
| Header.ReadWholeGroups | Languages/C99/Parser/src/asn1_parser.c:54-76 | Up to five base-128 groups whose number fits 32 bits are read whole, minimal or not |
| Wire.IdentifierOctet | Languages/C99/Parser/src/asn1_parser.c:81-116 | For every identifier read: universal below 40, application from 40, context-specific from 80, private from C0 (X.690 section 8.1.2.2), constructed by bit 6, and the low five bits are the tag number unless they are all ones |
| Wire.WrittenIdentifierOctet | Languages/C99/Parser/src/asn1_internal.h:158-165 | The first octet written, by the same ranges, for every identifier |
| Wire.LongTag | Languages/C99/Parser/src/asn1_parser.c:54-76 | A run of octets with the high bit set and one without it is a number of seven-bit groups, the most significant first, of which 32 bits are kept; more than five are refused |
| Wire.BadTags | Languages/C99/Parser/src/asn1_parser.c:54-116 | What is refused, and where: a number that is cut off, and one below 31 in the long form |
| Wire.LengthOctets | Languages/C99/Parser/src/asn1_parser.c:126-205 | In BER mode, minimal or not, 81 to 88 are followed by the octets of the length, the most significant first; up to 7F is the length itself, 80 the indefinite form, above 88 is refused |
| Wire.DerLengthOctets | Languages/C99/Parser/src/asn1_parser.c:186-203 | DER mode refuses exactly the lengths with a leading zero and those below 128 behind 81 |
| Internal.ReversedGroups | Languages/C99/Parser/src/asn1_internal.h:166-180 | The inner loop leaves the base-128 groups of a 32-bit number in reverse, continuation bits on all but the last octet of the tag |
| Internal.EncodeIdentifierInto | Languages/C99/Parser/src/asn1_internal.h:158-189 | The octets put into the buffer are the identifier octets of X.690 section 8.1.2 and their number is returned |
| Internal.IdentifierBytesNeeded | Languages/C99/Parser/src/asn1_internal.h:139-152 | The announced number is the number of octets the encoder writes |
| Internal.EncodeLengthInto | Languages/C99/Parser/src/asn1_internal.h:113-134 | The octets stored from the last one down are the shortest length octets of X.690 section 10.1 |
| Internal.LengthBytesNeeded | Languages/C99/Parser/src/asn1_internal.h:95-107 | The announced number is the number of octets the encoder writes |
| Internal.CountOctets | Languages/C99/Parser/src/asn1_internal.h:100-106 | The shift loop counts the base-256 digits of its argument |
| Parser.Buffer.ReadByte | Languages/C99/Parser/src/asn1_internal.h:43-48 | One octet and one step forward, or nothing at the end |
| Parser.Buffer.ReadBytes | Languages/C99/Parser/src/asn1_internal.h:65-72 | The position of the octets stepped over and the move by the sum taken modulo 2^64, or nothing and no movement when that sum is beyond the end |
| Parser.ParseResult.AddNode | Languages/C99/Parser/src/asn1_parser.c:215-223 | The node is appended, or the capacity error leaves the array as it was |
| Parser.ParseBase128Uint | Languages/C99/Parser/src/asn1_parser.c:54-76 | The loop computes the 32-bit truncated number of at most five groups, with its errors and offsets |
| Parser.ParseIdentifier | Languages/C99/Parser/src/asn1_parser.c:81-116 | The method agrees with the specification of identifiers in result, error and offset |
| Parser.ParseLength | Languages/C99/Parser/src/asn1_parser.c:126-205 | The accumulation loop and the DER checks agree with the specification in result, error and offset |
| Parser.ParseNode | Languages/C99/Parser/src/asn1_parser.c:289-383 | One node with everything below it is appended as specified, wrapped sums included; on an error what was stored before is still there |
| Parser.ParseDefiniteChildren | Languages/C99/Parser/src/asn1_parser.c:234-253 | The loop stores the children up to the declared end, or reports the specified error |
| Parser.ParseIndefiniteChildren | Languages/C99/Parser/src/asn1_parser.c:258-287 | The loop stores the children up to the end-of-contents octets, or reports the specified error |
| Parser.ParseInput | Languages/C99/Parser/src/asn1_parser.c:390-417 | `asn1_parse` returns the specified status, and on success the array is the specified one, wrapped sums included |
| Parser.NodeIterator.constructor | Languages/C99/Parser/src/asn1_parser.c:424-442 | The iterator starts behind its node, at its depth, and ends with its subtree; out of range it is empty |
| Parser.NodeIterator.NextChild | Languages/C99/Parser/src/asn1_parser.c:444-461 | One call moves the index as the specification of the iterator says |
| Wire.NodeOutcome | Languages/C99/Parser/src/asn1_parser.c:289-383 | What becomes of a node once its header is read, by the numbers: deeper than 50 refused, no room, indefinite primitives, contents that do not fit, and the node that is stored |
| Wire.OpenRowOutcome | Languages/C99/Parser/src/asn1_parser.c:258-287 | The children of an indefinite node end with two zero octets and with nothing else |
| Wire.InputOutcome | Languages/C99/Parser/src/asn1_parser.c:390-417 | Empty inputs and trailing octets; the root of an accepted input has the class and form of the first octet |
| Wire.DerExample | Languages/C99/Parser/src/asn1_parser.c:390-417 | A SEQUENCE of [0] EXPLICIT INTEGER 2, INTEGER 5 and NULL: twelve octets and their five nodes |
| Wire.BerExample | Languages/C99/Parser/src/asn1_parser.c:258-417 | An indefinite SEQUENCE over an INTEGER with an oversized length: eight octets, their two nodes in BER mode, the error in DER mode |
| Machine.Parse64 | Languages/C99/Parser/src/asn1_parser.c:390-417 | An accepted array is not empty and at most as long as the capacity, no node is deeper than 50, and exactly the primitive nodes have data |
| Machine.ParseAgrees | Languages/C99/Parser/src/asn1_internal.h:65-72 | At every capacity: where the parser comes to no primitive whose contents would end at 2^64 or later, the wrap-around changes nothing; where it does, reading without it reports that field as truncated, or the capacity; of the accepted inputs those are exactly the ones with a stored slice outside the input |
| Machine.WrapIsAccepted | Languages/C99/Parser/src/asn1_internal.h:65-72 | A truncated input of fourteen octets that DER mode accepts, with its three nodes |
| Machine.NoRoomIsEnough | Languages/C99/Parser/src/asn1_internal.h:65-72 | A truncated input of twelve octets for which every capacity is too small |
| Machine.LoneWrapIsRejected | Languages/C99/Parser/src/asn1_parser.c:409-413 | A truncated input of ten octets whose wrapped sum leads to the trailing-data error |
| Tree.RoundTrip | Languages/C99/Parser/src/asn1_parser.c:228-417 | Parsing the encoding of a tree gives its pre-order flattening with depth, subtree size, data and encoded slice of every node, exactly within the limits of depth and capacity; outside them the error names a limit that is exceeded. No encoding overflows |
| Tree.DerNodeCodec | Languages/C99/Parser/src/asn1_parser.c:289-383 | At any offset, depth and room: accepted with minimal tags and without overflow exactly when the octets are the encoding of a tree within the limits |
| Tree.DerCodec | Languages/C99/Parser/src/asn1_parser.c:390-417 | A whole input is accepted in DER mode with minimal tags and without overflow exactly when it is the encoding of one tree, and the array is its flattening |
| Tree.EncodePrefixFree | Languages/C99/Parser/src/asn1_serializer.c:69-149 | At one place only one tree can be encoded, whatever its height |
| Tree.EncodeInjective | Languages/C99/Parser/src/asn1_serializer.c:69-149 | Different trees have different encodings, whatever their height |
| Structure.ParseStructure | Languages/C99/Parser/src/asn1_parser.c:234-383 | Every accepted input, BER or DER: subtree intervals nested or disjoint, pre-order depths, and a root that covers the input; at every node the children tile the contents in the input exactly when nothing overflows |
| Structure.NextChildIsFirst | Languages/C99/Parser/src/asn1_parser.c:444-461 | On any array, accepted or not, the child returned is the first node one level down, if there is one, and the index moves behind its subtree |
| Structure.IteratorYieldsChildren | Languages/C99/Parser/src/asn1_parser.c:424-461 | On every accepted array the iterator yields exactly the nodes one level down, in order and once, and never skips a deeper node; their encodings tile the contents when nothing overflows |
| Limits.ParseCapacity | Languages/C99/Parser/src/asn1_parser.c:215-383 | Where nothing overflows, room for half the input rules out the capacity error. An accepted input has the same array for every capacity that holds it, and only the capacity error below that; a rejected one has the error it has with full room, or the capacity error |
| Limits.CapacityCuts | Languages/C99/Parser/src/asn1_parser.c:215-383 | On every input, overflow or not: a smaller capacity leaves an accepted array as it is if it holds it and gives the capacity error otherwise; of a rejected input it can only replace the error by that one |
| Limits.ParseDerIsBer | Languages/C99/Parser/src/asn1_parser.c:126-205 | What DER mode accepts BER mode accepts with the same array |
| Rewrite.DerReserializes | Languages/C99/Parser/src/asn1_parser.c:390-461 | The array of an accepted DER input can be walked exactly when nothing overflows, and then writing it out gives the input octet for octet exactly when its tags are minimal |
| Rewrite.PaddedTagShrinks | Languages/C99/Parser/src/asn1_parser.c:54-76 | 1F 80 1F 00 is accepted in DER mode and written back as 1F 1F 00 |
| Rewrite.BerToDer | Languages/C99/Parser/src/asn1_parser.c:258-461 | Where nothing overflows, writing out any accepted input, BER or DER, gives one that DER mode accepts with the same nodes up to position and length form, unless it reaches 2^64 octets; from an input below 2^61 octets it does not |
| Serializer.PutJoins | Languages/C99/Parser/src/asn1_serializer.c:19-41 | Writing in pieces succeeds exactly when the whole fits, and then leaves the whole; when it does not, the error is the one of the buffer, at the length reached |
| Serializer.Writer.WriteBytes | Languages/C99/Parser/src/asn1_serializer.c:19-41 | The octets follow what was there, or nothing changes when they do not fit |
| Serializer.Writer.SerializePrimitive | Languages/C99/Parser/src/asn1_serializer.c:69-89 | Identifier, length and data are written in turn as far as they fit |
| Serializer.Writer.SerializeConstructedBegin | Languages/C99/Parser/src/asn1_serializer.c:91-117 | Identifier and the placeholder 84 00 00 00 00 are written and the marker points at the placeholder |
| Serializer.Writer.MoveDown | Languages/C99/Parser/src/asn1_serializer.c:133-138 | The overlapping move towards the front leaves an exact copy and changes nothing else |
| Serializer.Writer.SerializeConstructedEnd | Languages/C99/Parser/src/asn1_serializer.c:119-149 | The placeholder is replaced by the shortest length octets and the content moved up to them; too long a content changes nothing |
| Calls.PeakBound | Languages/C99/Parser/src/asn1_serializer.c:91-149 | No run of calls needs more than its final size plus four octets for each level of nesting |
| Calls.Run | Languages/C99/Parser/src/asn1_serializer.c:64-149 | A well-bracketed run keeps what was there and is done exactly when its peak fits the capacity and every content fits the placeholder; then the recursive encoding follows |
| Calls.CallImage | Languages/C99/Parser/src/asn1_serializer.c:69-149 | The image of the calls that write a tree is the recursive encoding of the tree |
| Calls.WriteThenParse | Languages/C99/Parser/src/asn1_serializer.c:69-149 | Writing a tree and parsing the result is done exactly within the limits of writer and parser, and leaves encoding and flattening |
| Copy.DerCopies | Languages/C99/Parser/src/asn1_serializer.c:64-149 | Where nothing overflows, the calls that write the walked tree of an accepted DER input stand for the input exactly when its tags are minimal, and then 200 octets beyond its size are room enough below 2^32 octets |
| Copy.CopyInput | Languages/C99/Parser/src/asn1_parser.c:390-461 | Parsing, walking and writing any input is done exactly when the parser accepts it, nothing overflows, the buffer has room for the peak and every content fits the placeholder; of a DER input the octets written are the input exactly when its tags are minimal |
| Types.TwosValue | Languages/C99/Parser/src/asn1_types.c:145-186 | The shortest two's-complement octets of a number have its value and are minimal (X.690 section 8.3.2) |
| Types.ValueTwos | Languages/C99/Parser/src/asn1_types.c:82-114 | Minimal octets are the shortest octets of the number they stand for, so the form is unique |
| Types.ParseInt64 | Languages/C99/Parser/src/asn1_types.c:82-114 | The shift loop returns the specified number or error |
| Types.ParseUint64 | Languages/C99/Parser/src/asn1_types.c:116-143 | The shift loop returns the specified number or error, without leaving 64 bits |
| Types.SerializeInt64 | Languages/C99/Parser/src/asn1_types.c:145-186 | Both branches write 02, the length and the shortest two's-complement octets |
| Types.SerializeUint64 | Languages/C99/Parser/src/asn1_types.c:188-213 | 02, the length and the octets that the signed serializer writes for the same number |
| Types.Int64Codec | Languages/C99/Parser/src/asn1_types.c:82-114 | A node is read as v exactly when it is a primitive with universal tag 2 and its contents are the octets written for the 64-bit number v |
| Types.Uint64Codec | Languages/C99/Parser/src/asn1_types.c:116-143 | Contents are those written for v exactly when they are minimal and read as v |
| Types.Uint64AcceptsPadding | Languages/C99/Parser/src/asn1_types.c:116-143 | A padded content that the unsigned reader accepts and the signed one rejects |
| WireTypes.ReadersLookAtTags | Languages/C99/Parser/src/asn1_types.c:18-28 | Nodes with another tag than universal 1, 2, 3, 4 or 6 are refused by the readers of BOOLEAN, INTEGER, BIT STRING, OCTET STRING and OBJECT IDENTIFIER, and so are constructed ones |
| WireTypes.IntegerContents | Languages/C99/Parser/src/asn1_types.c:82-143 | The refused contents by their octets: empty, more than eight, and a first nine bits that are alike; unsigned, a set sign bit and a ninth octet that is not zero |
| WireTypes.BooleanContents | Languages/C99/Parser/src/asn1_types.c:29-45 | Contents 00 are false, FF true, and all others are refused |
| Bits.BitStringCodec | Languages/C99/Parser/src/asn1_types.c:251-296 | The accepted contents correspond one to one to sequences of bits: a node is read as the canonical form of some bits exactly when it holds its octets, and whatever is read is the canonical form of its bits |
| Bits.WrittenBitsRead | Languages/C99/Parser/src/asn1_types.c:251-330 | Written contents are read back exactly when the unused bits are at most seven, none of an empty string, and zero |
| Bits.SerializeBitString | Languages/C99/Parser/src/asn1_types.c:298-330 | The four writes leave header, count and octets exactly when all of them fit, and never touch what was there |
| Bits.CanonicalForms | Languages/C99/Parser/src/asn1_types.c:251-296 | Every sequence of bits has a well-formed bit string that stands for it |
| Bits.WellFormedIsCanonical | Languages/C99/Parser/src/asn1_types.c:270-289 | A bit string is the canonical form of its bits exactly when the reader's checks hold |
| WireTypes.BitStringContents | Languages/C99/Parser/src/asn1_types.c:251-296 | The first octet is the number of unused bits, at most seven, zero when alone, and that many low bits of the last octet must be zero |
| WireTypes.BitsFromTheLeft | Languages/C99/Parser/src/asn1_types.c:291-296 | Bit 8 of the first octet is the first bit (X.690 section 8.6.2.2) |
| Oid.ParseOid | Languages/C99/Parser/src/asn1_types.c:366-422 | The nested loops return the specified arcs or error |
| Oid.OidOctets | Languages/C99/Parser/src/asn1_types.c:424-462 | The local buffer ends up with the specified contents, or the specified error is returned |
| Oid.OidRoundTrip | Languages/C99/Parser/src/asn1_types.c:366-465 | Written arcs are read back exactly when the second arc is at most 39 |
| Oid.OidCodec | Languages/C99/Parser/src/asn1_types.c:366-465 | Accepted contents are those written for the arcs read, exactly when the first octet is below 120, every arc takes its least number of groups and the contents are at most 128 octets |
| Oid.SecondArcLost | Languages/C99/Parser/src/asn1_types.c:387-391 | 2.100.3 is written and comes back as 4.20.3 |
| WireTypes.OidRefusals | Languages/C99/Parser/src/asn1_types.c:424-465 | Exactly which arcs are not written, by the numbers, and how the first two are put together |
| WireTypes.OidContents | Languages/C99/Parser/src/asn1_types.c:366-422 | The first octet gives two arcs, by forty; all that is refused is refused with one error |
| WireTypes.OidExample | Languages/C99/Parser/src/asn1_types.c:366-465 | 1.2.840.113549 is 2A 86 48 86 F7 0D, written and read |
| Schema.ValueDecodes | Compiler/ASN1/C99Emitter.ex:1433-1576 | Wherever an encoded value stands in a node array, its decoder gives it back exactly when its object identifiers survive |
| Schema.FieldsDecode | Compiler/ASN1/C99Emitter.ex:950-971 | The emitted blocks of a SEQUENCE with their lookahead variable give back present and absent fields alike |
| Schema.ElementsDecode | Compiler/ASN1/C99Emitter.ex:1309-1334 | The emitted loop gives back up to 32 elements |
| Schema.CodecRoundTrip | Compiler/ASN1/C99Emitter.ex:929-971 | For every unambiguous schema and value: encode, parse in DER mode, decode gives the value back exactly when its object identifiers survive |
| WireTypes.BooleanOctets | Languages/C99/Parser/src/asn1_types.c:48-51 | true is written 01 01 FF, false 01 01 00 |
| WireTypes.IntegerOctets | Languages/C99/Parser/src/asn1_types.c:145-186 | Every 64-bit INTEGER is written as 02, the number of its octets and its shortest octets |
| WireTypes.StringOctets | Compiler/ASN1/C99Emitter.ex:1337-1429 | Every OCTET STRING of at most 2048 octets is written as 04, its length and its octets |
| WireTypes.BitStringOctets | Languages/C99/Parser/src/asn1_types.c:298-330 | 03, the length, the number of unused bits, the octets |
| WireTypes.OidOctetsWritten | Languages/C99/Parser/src/asn1_types.c:424-465 | 06, the length, the contents |
| WireTypes.StructOctets | Compiler/ASN1/C99Emitter.ex:929-947 | Every SEQUENCE and SEQUENCE OF is 30, its length and the encodings of its parts |
| WireTypes.FieldsInOrder | Compiler/ASN1/C99Emitter.ex:929-947 | The fields follow one another in the order of the schema, absent ones leaving nothing |
| WireTypes.ExplicitOctets | Compiler/ASN1/C99Emitter.ex:1363-1381 | A field tagged [n] EXPLICIT, n below 31, is A0 + n, a length and the field as it would stand without the tag |
| WireTypes.FieldFits | Compiler/ASN1/C99Emitter.ex:1460-1549 | Which identifiers a field accepts, by number: its context tag, or 1, 2, 4, 6 and 16 |
| WireTypes.ExplicitField | Compiler/ASN1/C99Emitter.ex:1479-1485 | The value of an EXPLICIT field is the first node inside it, and there must be one |
| SchemaExact.CodecExact | Compiler/ASN1/C99Emitter.ex:1433-1576 | A schema gives back all its values, object identifiers apart, exactly when no OPTIONAL field can be mistaken for one that may follow in its absence |
| Generated.EncodeNode | Compiler/ASN1/C99Emitter.ex:1337-1429 | The emitted calls write the specified encoding exactly when the value has one and everything fits, and touch nothing before it |
| Generated.EncodeStruct | Compiler/ASN1/C99Emitter.ex:929-948 | Marker, fields and end write the SEQUENCE, absent OPTIONAL fields left out |
| Generated.EncodeLoop | Compiler/ASN1/C99Emitter.ex:1314-1316 | The element loop writes the elements in order |
| Generated.DecodeNode | Compiler/ASN1/C99Emitter.ex:1433-1576 | The emitted decoder on the node array computes the specified value or error |
| Generated.DecodeArray | Compiler/ASN1/C99Emitter.ex:1319-1333 | The emitted loop over the iterator computes the specified elements or error |
| Generated.DecodeFieldList | Compiler/ASN1/C99Emitter.ex:1551-1576 | The emitted blocks, passing the lookahead variable on, compute the specified fields or error |
| Generated.Transmit | Compiler/ASN1/C99Emitter.ex:929-971 | Emitted encoder, parser and emitted decoder in turn are done exactly within the limits of writer and parser, and then the value comes back exactly when its object identifiers survive |
| Galois.Gmul | Languages/AppleSwift/CMSCLI.swift:418-430 | The loop computes the product in GF(2^8) |
| Galois.GmulEnc | Languages/AppleSwift/CMSCLI.swift:432-444 | The loop over the other operand computes the same product |
| Galois.Commutes | Languages/AppleSwift/CMSCLI.swift:418-444 | The product is commutative, so the two loops agree on all arguments |
| Galois.Associates | Languages/AppleSwift/CMSCLI.swift:418-430 | The product is associative |
| Galois.MulAdds | Languages/AppleSwift/CMSCLI.swift:418-430 | The product distributes over exclusive or |
| Galois.MixingInverts | Languages/AppleSwift/CMSCLI.swift:360-416 | The two column mixings undo each other in both orders |
| Sbox.SubInverse | Languages/AppleSwift/CMSCLI.swift:450-486 | Looking a byte up in the table and then in the inverse table gives it back |
| Sbox.InvSubInverse | Languages/AppleSwift/CMSCLI.swift:450-486 | The other order gives it back too |
| Sbox.SubIsAffineInverse | Languages/AppleSwift/CMSCLI.swift:450-467 | The table holds the affine image of the inverse in the field, as FIPS 197 section 5.1.1 defines it |
| Aes.BlockInversion | Languages/AppleSwift/CMSCLI.swift:246-278 | Under every key schedule decryption undoes encryption and encryption undoes decryption |
| Aes.EncryptBlock | Languages/AppleSwift/CMSCLI.swift:263-278 | The rounds on the state array compute the cipher of FIPS 197 section 5.1 |
| Aes.DecryptBlock | Languages/AppleSwift/CMSCLI.swift:246-261 | The rounds on the state array compute the inverse cipher of section 5.3 |
| Aes.RotateRows | Languages/AppleSwift/CMSCLI.swift:336-358 | The listed moves shift row r by r columns |
| Aes.InvRotateRows | Languages/AppleSwift/CMSCLI.swift:380-402 | The listed moves shift row r back by r columns |
| Aes.MixColumns | Languages/AppleSwift/CMSCLI.swift:360-372 | Every column is multiplied by the polynomial 3, 1, 1, 2 modulo x^4 + 1 |
| Aes.InvMixColumns | Languages/AppleSwift/CMSCLI.swift:404-416 | Every column is multiplied by the inverse polynomial |
| Aes.RconTable | Languages/AppleSwift/CMSCLI.swift:446-448 | The table holds the powers of x in the field |
| Aes.ExpandKey | Languages/AppleSwift/CMSCLI.swift:280-314 | The loop yields the eleven round keys of FIPS 197 section 5.2, and never indexes the table of constants out of range |
| AesStandard.KeyByColumn | Languages/AppleSwift/CMSCLI.swift:280-322 | For every key and round: the first word is the last word before it, bytes 1, 2, 3, 0 substituted and 01, 02, 04, 08, 10, 20, 40, 80, 1B or 36 added, plus the word four before; the others are plain sums |
| AesStandard.RoundByColumn | Languages/AppleSwift/CMSCLI.swift:263-372 | For every state: column c of a round comes from the bytes of the diagonal that starts there, substituted, times 2, 3, 1, 1, plus the key |
| AesStandard.ExampleCipher | Languages/AppleSwift/CMSCLI.swift:246-486 | The example of FIPS 197 appendices A.1 and B: key 2B7E1516..., block 3243F6A8..., ciphertext 3925841D..., both ways |
| Cbc.Pkcs7Pad | Languages/AppleSwift/CMSCLI.swift:512-518 | The padding of RFC 5652 section 6.3 is appended |
| Cbc.Pkcs7Unpad | Languages/AppleSwift/CMSCLI.swift:489-510 | The checks accept a proper padding and no other, with their errors |
| Cbc.PaddingCodec | Languages/AppleSwift/CMSCLI.swift:489-518 | Data of whole blocks unpads to p exactly when it is p padded |
| Cbc.ChainEquation | Languages/AppleSwift/CMSCLI.swift:187-199 | Every ciphertext block is the encryption of the plaintext block plus the ciphertext block before it (SP 800-38A section 6.2) |
| Cbc.ChainInverts | Languages/AppleSwift/CMSCLI.swift:216-232 | Unchaining undoes chaining for any number of blocks |
| Cbc.Encrypt | Languages/AppleSwift/CMSCLI.swift:172-200 | The loop over the blocks returns the specified ciphertext or error |
| Cbc.Decrypt | Languages/AppleSwift/CMSCLI.swift:202-233 | The loop over the blocks returns the specified plaintext or error |
| Cbc.CbcCodec | Languages/AppleSwift/CMSCLI.swift:171-234 | Decryption answers p for c exactly when encryption answers c for p; every text, key and initialization vector, of any length |
| Cbc.EncryptionLength | Languages/AppleSwift/CMSCLI.swift:172-200 | The ciphertext is as long as the next multiple of 16 strictly above the plaintext |
| Cbc.PaddedByBytes | Languages/AppleSwift/CMSCLI.swift:512-518 | The padded text byte by byte, for every text |
| Cbc.EncryptionByBlocks | Languages/AppleSwift/CMSCLI.swift:172-200 | Every ciphertext block of every text, through the padded text and the expanded key |
| Cbc.Refusals | Languages/AppleSwift/CMSCLI.swift:172-211 | Exactly when each of the errors is raised |
| Sha256.Context.Transform | Languages/C99/c99_client.c:65-104 | The loops compute the compression function of FIPS 180-4 section 6.2.2 |
| Sha256Standard.Sigmas | Languages/C99/c99_client.c:57-63 | The four functions of FIPS 180-4 section 4.1.2 by their shifts, on every word |
| Sha256Standard.Choice | Languages/C99/c99_client.c:58-58 | Ch picks bits by its first argument |
| Sha256Standard.Majority | Languages/C99/c99_client.c:59-59 | Maj is the majority of three bits |
| Sha256Standard.CubeRoots | Languages/C99/c99_client.c:44-55 | Each constant is the first 32 bits of the fractional part of the cube root of its prime |
| Sha256Standard.InitialState | Languages/C99/c99_client.c:106-117 | The initial words are those of the square roots of the first eight primes |
| Sha256Standard.ScheduleWords | Languages/C99/c99_client.c:65-76 | Every word of the message schedule, by bytes and by the recurrence |
| Sha256Standard.WorkingVariables | Languages/C99/c99_client.c:78-95 | The eight variables before and after every step, with T1 and T2 |
| Sha256Standard.ChunksInOrder | Languages/C99/c99_client.c:119-130 | The state goes from chunk to chunk, the variables added word by word |
| Sha256Standard.AbcDigest | Languages/C99/c99_client.c:106-166 | The digest of "abc" is BA7816BF ... F20015AD |
| Sha256.Context.Update | Languages/C99/c99_client.c:119-130 | After the call the context holds the message so far followed by the new bytes |
| Sha256.Context.Final | Languages/C99/c99_client.c:132-166 | Both padding branches produce the digest of everything that went in |
| Sha256.SumsAgree | Languages/AppleSwift/main.swift:182-186 | The two programs add the terms of the message schedule in opposite orders and get the same word |
| Sha256.DigestOfShort | Languages/C99/c99_client.c:135-138 | A message that ends before byte 56 of a chunk needs one more chunk |
| Sha256.DigestOfLong | Languages/C99/c99_client.c:139-145 | A message that ends at or after byte 56 needs two |
| Sha256.Pad | Languages/AppleSwift/main.swift:154-166 | The loops append the padding of FIPS 180-4 section 5.1.1 |
| Sha256Standard.PaddedByBytes | Languages/AppleSwift/main.swift:154-166 | The padded message byte by byte, for every message: 80, zeros and the length, up to the next whole chunk |
| Sha256Standard.LengthOctets | Languages/AppleSwift/main.swift:160-166 | The eight octets of the length, the most significant first |
| Sha256.OneShot | Languages/AppleSwift/main.swift:136-219 | The one-shot hash is the digest of its argument |
| Sha256.Stream | Languages/C99/c99_client.c:106-166 | However a message is split into updates, the streaming digest and the one-shot digest are the same |
| Mac.StreamedHmac | Languages/C99/c99_client.c:168-198 | The streamed computation is the HMAC of RFC 2104 |
| Mac.OneShotHmac | Languages/AppleSwift/main.swift:222-253 | The one-shot computation is the same function |
| Mac.HmacByBytes | Languages/C99/c99_client.c:168-198 | With the key padded to 64 bytes, 36 is added for the inner hash and 5C for the outer one, byte by byte |
| Mac.HmacOfLongKey | Languages/C99/c99_client.c:172-178 | A key of more than 64 bytes is hashed first |
| Mac.DeriveKey | Languages/C99/c99_client.c:200-212 | Password up to its terminator and salt are hashed as often as asked, but at least once |
| Mac.Pbkdf | Languages/AppleSwift/main.swift:258-269 | Password and salt are hashed exactly as often as asked |
| Mac.RoundsHash | Languages/AppleSwift/main.swift:258-269 | No round leaves password and salt, each round hashes once more, in both programs for a password without a zero byte; below one round the C function hashes once |
| Mac.SeedsAgree | Languages/AppleSwift/main.swift:258-262 | The two programs hash the same seed exactly when the password has no zero byte |
| Mac.DerivationsAgree | Languages/C99/c99_client.c:200-212 | From one round on the two derivations give one key for every password without a zero byte, and for one with a zero byte exactly when the runs meet in a collision; for no rounds exactly when the Swift seed is the digest of the C seed, so only if it has 32 bytes |
| Mac.PasswordCutShort | Languages/C99/c99_client.c:203-206 | The password 70 00 71 has the C key of the password 70, while the Swift function hashes different seeds |
| Mac.DeriveBoth | Languages/AppleSwift/main.swift:258-269 | Both methods run on one password: what each returns, and when they are the same |
| Kahn.EmitKeeps | x-series.ex:191-213 | Every step keeps: in-degrees count the edges from files not yet emitted, the queue holds the unemitted files without such edges, importers of emitted files were emitted before them |
| Kahn.QueueIsFirstInFirstOut | x-series.ex:181-215 | Whatever waits at some moment is emitted next, in the order in which it waits |
| Kahn.FreedInReverse | x-series.ex:198-212 | Files that become free together join the queue in the opposite order of the import list |
| Kahn.EmittedThenLeft | x-series.ex:168-191 | Files free from the start come first, in the order of the files; leftover files last, in the order of the set |
| Kahn.SortedIsPermutation | x-series.ex:146-216 | The result lists every file once, for every import graph |
| Kahn.ImporterBeforeImport | x-series.ex:181-215 | Among the emitted files each importer stands before what it imports |
| Kahn.LeftoverIsBehindCycle | x-series.ex:168-179 | The files in the warning are exactly those behind a cycle of imports |
| Kahn.LeftoverIffCyclic | x-series.ex:168-179 | Files are left over exactly when the imports form a cycle |
| Kahn.PromiseKeptWithoutImports | x-series.ex:34-34 | For every import graph, with cycles or without: imports come first exactly when no file imports anything |
| Kahn.TopologicalSortIsPermutation | x-series.ex:105-144 | The graph built from the parsed files is closed, so the whole sort is a permutation of its files |
| Kahn.ImportsInOrder | x-series.ex:120-134 | Imported modules become files in the order of the import list, unknown ones leaving nothing |
| Kahn.LaterFileStands | x-series.ex:105-144 | Of two files with one module name the later one stands for it |
| Boxing.BackEdgeGone | x-series.ex:404-445 | When the fields reported for a back edge are boxed the edge is gone, if boxing can remove it at all |
| Boxing.BoxableFields | x-series.ex:416-447 | Boxing can remove a reference exactly when every field that holds it is a component and a component of its name shows the reference read without a module |
| Boxing.QualifiedIsBoxable | x-series.ex:416-447 | Components whose references name their modules are enough |
| Boxing.OutsideStays | x-series.ex:416-447 | A reference outside the components stays whatever is boxed |
| Boxing.VisitKeeps | x-series.ex:380-402 | A visit keeps the path gray and the finished types closed and, but for references that cannot be boxed, free of cycles, and finishes its type; for every set of definitions |
| Boxing.RemainingCycleIsStuck | x-series.ex:360-447 | For every set of definitions and every listing of it: a cycle that is left once the reported fields are boxed passes through a reference that boxing cannot remove |
| Boxing.BoxingBreaksCycles | x-series.ex:360-447 | If boxing can remove the references that lie on cycles, no definition is recursive once the reported fields are boxed, whatever stands off the cycles |
| Boxing.OutsideCycleStays | x-series.ex:416-447 | A cycle of references outside the components stays whatever is boxed |
| Boxing.KeptCycleStays | x-series.ex:360-447 | A cycle stays if every reference on it is held outside the components or by a component that cannot be reported, because it shows no recursive type when read without its module |
| Boxing.BoxingExact | x-series.ex:360-447 | Where no simple cycle mixes references that boxing can remove with others: no definition stays recursive exactly when all references on cycles can be removed |
| Boxing.MixedDependsOnOrder | x-series.ex:369-378 | `A ::= SEQUENCE { b B }` and `B ::= SEQUENCE OF A`: listed from A nothing is reported, listed from B the field is |
| Boxing.ReportedRefersToRecursive | x-series.ex:404-445 | Every reported field is a component that refers to a type which refers to itself through a chain of references, whatever the definitions are made of |
| Boxing.NothingReportedWithoutCycle | x-series.ex:360-402 | Definitions that are not recursive have nothing reported, whatever they are made of |
| Boxing.ReportedIffRecursive | x-series.ex:360-447 | If boxing can remove the references that lie on cycles, something is reported exactly when some definition is recursive |
| BoxingOrder.VisitGrows | x-series.ex:380-402 | What is found later stands before what was found earlier, for every set of definitions |
| BoxingOrder.LaterFieldsFirst | x-series.ex:404-445 | The references of a later field stand before those of an earlier one |
| BoxingOrder.PathInOrder | x-series.ex:404-415 | The fields of a back edge are listed along the search path, from its start |
| Boxing.UnseenStaysRecursive | x-series.ex:431-447 | Where no component refers, read without its module, to a type of the search, nothing is reported and every cycle stays |
| Boxing.ListOfItselfStays | x-series.ex:429-429 | `A ::= SEQUENCE OF A` is recursive and not reported |
| Boxing.UnqualifiedFieldStays | x-series.ex:434-434 | A recursive field whose reference is unqualified is not reported |
| Boxing.BoxedWithoutNeed | x-series.ex:406-414 | A field of a type that lies on no cycle is reported because every type on the search path is looked at |
| Base64.Base64Decode | Languages/Rust/examples/cert_parser.rs:152-181 | The loop computes the specified bytes or error and keeps the buffer below two to the number of bits it holds, which is 0, 2, 4 or 6 |
| Base64.ValueInAlphabet | Languages/Rust/examples/cert_parser.rs:153-153 | A letter stands for its position in the alphabet of RFC 4648 table 1, written out, and no other octet has a value |
| Base64.FirstOctet | Languages/Rust/examples/cert_parser.rs:159-177 | What the first octet does, for every rest and buffer: 9, 10, 12, 13 and 32 are skipped, = ends, a letter shifts its position in, anything else is the error |
| Base64.FeedConserves | Languages/Rust/examples/cert_parser.rs:168-176 | At every moment the bytes and the buffer together are the number the letters spell, so no bit is lost |
| Base64.DecodeFeeds | Languages/Rust/examples/cert_parser.rs:159-167 | Decoding succeeds exactly when every letter before the padding is in the alphabet, and depends on nothing else |
| Base64.EncodingDecodes | Languages/Rust/examples/cert_parser.rs:152-181 | The RFC 4648 encoding of any bytes decodes to them, padded or not, with whitespace anywhere |
| Base64.LettersInAlphabet | Languages/Rust/examples/cert_parser.rs:152-181 | The letters of the encoding are those of the alphabet written out, place by place |
| Base64.PaddingCompletes | Languages/Rust/examples/cert_parser.rs:159-162 | The padding is = signs, at most two, that complete a group of four |
| Base64.FourPluses | Languages/Rust/examples/cert_parser.rs:152-181 | ++++ decodes to FB EF BE |
| Base64.FillingBitsDropped | Languages/Rust/examples/cert_parser.rs:168-176 | The text QR decodes to the byte whose encoding is QQ |
| Base64.Base64Codec | Languages/Rust/examples/cert_parser.rs:152-181 | A text spells the encoding of some bytes exactly when it decodes to them and its last group is whole and filled with zero bits |

## Left out

- Boxing.BoxingExact: leaves out cycles that mix the two kinds of references, where the outcome depends on the order of the map; of them only `Boxing.RemainingCycleIsStuck` speaks.
- Mac.DeriveKey: the password is the buffer of a C string; its terminator is the first zero byte in it.
- Sha256.Context.Update: chunks of 2^32 bytes and more, where the 32-bit loop counter wraps, and messages of 2^61 bytes and more.
- Copy.CopyInput: an accepted array with a slice outside the input is not copied; reading beyond the input is undefined in C.
- Machine.Overflows: of inputs that overflow and are rejected nothing is said beyond the error being the specified one.
- Sha256.Context.Final: the digest goes to an array of 32 bytes that is not the context's own buffer.
- Base64.Base64Decode: the error message, of which only the offending letter is kept.
- Cbc.Pkcs7Unpad: error texts become one constructor each.
- Error message strings and the C checks for null arguments.
- Generated codecs for CHOICE, SET and SET OF, IMPLICIT tags, string types, ANY and NULL; untagged references are modelled as references to SEQUENCE types.
- BOOLEAN and NULL outside the generated codec, the raw INTEGER accessors, the string types and `asn1_oid_to_string`: easy members.
- Reading, splitting and normalising the ASN.1 sources: the sort starts from the parsed names and imports, the search from the parsed types with their names already normalised.
- Naming, escaping, import paths and output of the emitters; the other target languages.
- Network, files, PEM framing, console output, key generation and signing: I/O and libraries whose code is not part of this model.
- `dumpasn1.c`: a stream printer whose core is the parser modelled here.
