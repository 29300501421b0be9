# Typed JSON entries: a Dafny model

This project models the typed-value layer of the MSFX Rust library,
`src/msfx/util/json.rs`. A JSON document is read into a `JSON` container
that maps string keys to typed `Entry` values. An entry is a boolean, a
decimal, a date, a time, a UTC timestamp, a string, binary data or a nested
object. JSON has no type for most of these, so the library writes them as
JSON strings and guesses the type back when it reads a string. The model covers:

- **the entry model**, `Values.Entry`;
- **classification**, `Codec.Classify`. This is the `Deserialize` impl for
  `Entry`. A wire boolean is a `Boolean`. A wire number is a `Decimal` via
  `f64`, and a failed conversion is an error. A wire string is tried, in
  order, as base64, then a `%Y-%m-%d` date, then a `%H:%M:%S` time, then an
  RFC 3339 timestamp converted to UTC, and otherwise stays a `String`. A
  wire object is classified member by member, and one failing member fails
  it with the error of the first failing member in key order (module
  `KeyOrder`). `null` and arrays are errors.
- **encoding**, `Codec.Encode`. This is the `Serialize` impl. Booleans stay
  booleans and objects stay objects. Every other variant, decimals
  included, becomes a wire string.
- **the container**, `Container`: `new`, `deserialize`, `serialize`, `get`,
  `set` and `remove`. The top level of a document is read straight into a
  `HashMap`, so its members are read in text order: the first member, in
  the text, that fails to classify decides the error, and a later member
  with the same key replaces an earlier one (`Container.ReadMembers`).

The untyped JSON tree (serde_json's `Value`) is the datatype
`WireFormat.Wire`; a whole document, as the top-level map reader sees it,
is `WireFormat.TopLevel`. Base64 is modelled concretely in module `Base64`. It
follows the standard alphabet of section 4 of RFC 4648, with the base64
crate's `STANDARD` engine rules:

- padding is required and must be canonical;
- the unused low bits of the last digit must be zero.

So the decoder accepts exactly the encoder's outputs, which
`Base64.DecodeIffEncoding` proves in both directions.

Every other library the code calls is a function-typed field of
`External.Library`, a record that every operation takes as a parameter:

- serde_json's text parser and printer, and `Number::as_f64`;
- rust_decimal's conversion from `f64` and its `to_string`;
- chrono's parsers and formatters.

The properties therefore hold whatever those libraries do. Where a
property needs something from them, it says so in a `requires` clause.

The central result is `RoundTrip.ClassifyEncode`. Encoding an entry and
classifying the result gives the entry back exactly when it is `Stable`:

- booleans and binary data always come back;
- decimals never come back (they return as whatever their text classifies as);
- a date, time, timestamp or string comes back exactly when its text is not
  base64, is not taken by an earlier rule, and is read back to the same value;
- an object comes back exactly when all of its members do.

Two consequences of the code as written follow from these rules:

- A decimal whose text happens to be valid base64, such as `1234`, comes back
  as binary data (`Fixtures.WholeDecimalBecomesBinary`).
- The empty string is the base64 text of no bytes, so a wire `""` reads as
  empty binary data, never as an empty `String` (`Fixtures.EmptyStringIsBinary`).

So a decimal does not always stay text after one round trip. The code
keeps it as whatever its text classifies as, and that is binary data in the
first case above. In both cases one round trip is
enough: under an assumption about chrono stated as
`RoundTrip.ParsedValuesReformat`, every later round trip is the identity
(`RoundTrip.SecondRoundTripIsIdentity`).

Files:

- `wrappers.dfy`: `Option` and `Result`.
- `base64.dfy`: the codec and its round-trip proofs.
- `wire.dfy`: the JSON tree and the top level of a document.
- `values.dfy`: `Entry` and its payloads.
- `external.dfy`: the library record.
- `keyorder.dfy`: the order of keys in serde_json's `Map`, and the first key of a set.
- `codec.dfy`: classification and encoding.
- `roundtrip.dfy`: what survives encoding followed by classification.
- `container.dfy`: the `JSON` container.
- `fixtures.dfy`: concrete inputs from the repository's demo
  `src/test/test_json.rs`, and small documents of the same shape.

## Model

| member | source | states |
|---|---|---|
| Base64.DecodeEncode | src/msfx/util/json.rs:89-91 | decoding the base64 text of any byte sequence gives back exactly those bytes |
| Base64.EncodeDecode | src/msfx/util/json.rs:48-49 | the decoder is canonical: any text it accepts is exactly the encoding of the bytes it returns, so a wrong padding or non-zero trailing bits are rejected |
| Base64.DecodeIffEncoding | src/msfx/util/json.rs:48-49 | a text decodes to some bytes if and only if it is the encoding of those bytes |
| Base64.Encode | src/msfx/util/json.rs:90 | the encoding has four characters for every three bytes, the last group rounded up |
| Base64.Decode | src/msfx/util/json.rs:48 | a text the decoder accepts has four characters for every three bytes it yields, the last group rounded up |
| Base64.RejectsRaggedLength | src/msfx/util/json.rs:48 | a text whose length is not a multiple of four is never read as base64 |
| Base64.RejectsForeignChar | src/msfx/util/json.rs:48 | a text with a character that is neither a digit of the standard alphabet nor `=` is never read as base64 |
| Base64.EncodeChars | src/msfx/util/json.rs:90 | the encoder writes only digits of the standard alphabet and the pad `=` |
| Base64.EncodeLengthIsMultiple | src/msfx/util/json.rs:90 | every encoding has a length that is a multiple of four |
| Codec.ClassifyNumber | src/msfx/util/json.rs:37-46 | a wire number is a `Decimal` exactly when `as_f64` and then `Decimal::try_from` succeed, and that decimal is the one they give; otherwise it is the matching error, never a string |
| Codec.ClassifyString | src/msfx/util/json.rs:47-58 | a wire string is always textual; it is `Binary` exactly when it is base64, and then its bytes re-encode to the string; it is `String` with the same text exactly when no earlier rule reads it |
| Values.ToUtc | src/msfx/util/json.rs:55 | the UTC reading plus the written offset gives back the local reading, with the nanoseconds untouched |
| Values.ToUtcKeepsInstant | src/msfx/util/json.rs:55 | two offset readings convert to the same UTC value if and only if they name the same instant |
| Values.ToUtcAtZeroOffset | src/msfx/util/json.rs:55 | a reading written at offset zero keeps its clock values |
| KeyOrder.BelowTotal | src/msfx/util/json.rs:60-62 | any two different keys are ordered one way or the other in serde_json's map order |
| KeyOrder.Least | src/msfx/util/json.rs:60-67 | the key a sorted map visits first among a non-empty set: it is in the set and comes before every other key of it |
| KeyOrder.LeastIsFirst | src/msfx/util/json.rs:60-67 | a key that comes before every other key of the set is the one `Least` picks |
| Codec.Classify | src/msfx/util/json.rs:33-73 | classification succeeds exactly when every leaf is a boolean, a string or a number that converts, under objects only; a result has the wire value's shape, objects keeping exactly their keys; a failure is an error that some leaf raises |
| Codec.ObjectReportsFirstFailure | src/msfx/util/json.rs:60-67 | an object that fails reports the error of its first failing member in key order: that member fails with that error and every member before it classifies |
| Codec.Encode | src/msfx/util/json.rs:82-94 | encoding is total, writes no number, null or array anywhere, and keeps the entry's shape: booleans stay booleans, objects keep their keys, every other variant becomes a string |
| Codec.ClassifyObject | src/msfx/util/json.rs:60-69 | an object whose members classify to given entries classifies to the object of those entries, under the same keys |
| Codec.ObjectMemberClassifies | src/msfx/util/json.rs:60-69 | conversely, when an object classifies, each of its members classifies to the entry under its key |
| Codec.ClassifyUpdate | src/msfx/util/json.rs:60-69 | adding a member that classifies to an object that classifies adds its entry under the same key |
| Codec.ObjectFailsWithMember | src/msfx/util/json.rs:64-67 | one member that fails makes the whole object fail |
| RoundTrip.StringRuleOrder | src/msfx/util/json.rs:47-58 | the readings of a wire string in priority order: base64 wins over everything, then date, time and timestamp, and the plain string last |
| RoundTrip.ClassifyEncode | src/msfx/util/json.rs:33-94 | encoding and then classifying gives the entry back if and only if it is stable, leaf by leaf |
| RoundTrip.ClassifyEncodeObject | src/msfx/util/json.rs:60-69 | an encoded object comes back if and only if every member comes back |
| RoundTrip.BooleanRoundTrip | src/msfx/util/json.rs:83 | a boolean always comes back unchanged |
| RoundTrip.BinaryRoundTrip | src/msfx/util/json.rs:89-91 | binary data always comes back unchanged |
| RoundTrip.DecimalReturnsAsText | src/msfx/util/json.rs:84 | a decimal is written as the wire string of its text and never comes back as a decimal |
| RoundTrip.StringTreeClassifies | src/msfx/util/json.rs:47-69 | a tree of booleans, strings and objects always classifies |
| RoundTrip.EncodedClassifies | src/msfx/util/json.rs:82-94 | whatever the encoder writes classifies again without error |
| RoundTrip.ClassifiedStringIsStable | src/msfx/util/json.rs:47-58 | if parsed dates, times and timestamps format back to texts read the same way, every entry a string classifies to is stable |
| RoundTrip.ClassifiedIsStable | src/msfx/util/json.rs:33-73 | under the same assumption, every entry classified from a tree of booleans, strings and objects is stable |
| RoundTrip.SecondRoundTripIsIdentity | src/msfx/util/json.rs:33-94 | under the same assumption, whatever comes back from one round trip comes back unchanged from the next |
| Container.Get | src/msfx/util/json.rs:145-147 | `get` finds an entry exactly when the container holds the key, and then it is the entry held |
| Container.New | src/msfx/util/json.rs:107-111 | a new container has no entry under any key |
| Container.Set | src/msfx/util/json.rs:155-157 | after `set`, `get` of the key returns the new entry and every other key reads as before |
| Container.Remove | src/msfx/util/json.rs:168-170 | `remove` returns what `get` returned before, afterwards the key is absent, and every other key reads as before |
| Container.SetTwice | src/msfx/util/json.rs:155-157 | setting a key twice equals setting it once to the second entry: the last write wins |
| Container.RemoveAfterSet | src/msfx/util/json.rs:155-170 | removing a key just set returns the entry set and leaves the same container as removing it beforehand |
| Container.Latest | src/msfx/util/json.rs:123 | a key has a last member exactly when some top-level member names it |
| Container.LatestIsLast | src/msfx/util/json.rs:123 | the value found for a key is that of a member named by it after which no member has that name: a later duplicate replaces an earlier one |
| Container.ReadMembers | src/msfx/util/json.rs:122-125 | the top-level members read exactly when every one classifies; then each key listed holds the entry its last member classifies as, and no other key is present; otherwise the error is that of the first failing member in text order |
| Container.Deserialize | src/msfx/util/json.rs:122-125 | text that does not parse is `Malformed`, JSON that is not an object is `ExpectedMap`; an object reads exactly when every member classifies, each key then holding its last member's entry, and otherwise fails with the first failing member's error in text order |
| Container.ToWire | src/msfx/util/json.rs:132-133 | the document is written as a wire object with the same keys, each member the encoding of its entry, and no number, null or array anywhere |
| Container.Serialize | src/msfx/util/json.rs:132-134 | serialization fails only when the printer fails, and otherwise returns exactly the printer's text for the encoded document |
| Container.LatestOfListing | src/msfx/util/json.rs:123 | in a listing of an object's members, each key's last member holds the key's value, and keys not in the object have none |
| Container.ReadListing | src/msfx/util/json.rs:122-125 | reading a listing of an object whose members all classify gives one entry per key, classified from that key's value |
| Container.ReadBackMembers | src/msfx/util/json.rs:122-134 | reading a listing of the encoded document gives the document back if and only if every entry is stable |
| Container.SerializeDeserialize | src/msfx/util/json.rs:122-134 | when the parser lists the members the printer wrote, `deserialize(serialize(j))` is `j` if and only if every entry is stable |
| Fixtures.HelloWorldEncoding | src/test/test_json.rs:15 | the base64 text of the bytes of "Hello world" is `SGVsbG8gd29ybGQ=` |
| Fixtures.HelloWorldIsBinary | src/test/test_json.rs:15 | the demo's `file_data` string reads as the bytes of "Hello world" |
| Fixtures.ForeignCharNotBinary | src/msfx/util/json.rs:48-49 | a string with `-`, `:`, a space or `.` is never binary |
| Fixtures.DemoProfile | src/test/test_json.rs:8-13 | the demo's profile reads as a date, a time, a UTC timestamp and a string, given what chrono answers for those texts |
| Fixtures.ProfileTextsRead | src/test/test_json.rs:9-12 | each of the profile's four texts on its own: three contain `-` or `:` and go to chrono, and `user123` has seven characters and stays a string |
| Fixtures.ProfileReads | src/msfx/util/json.rs:60-69 | the four-member profile object reads member by member |
| Fixtures.DemoNoteStaysText | src/test/test_json.rs:14 | the demo's note, which contains spaces, stays a string when no parser reads it |
| Fixtures.DemoNoteUpdated | src/test/test_json.rs:29 | after the demo sets `notes`, `get` returns the new note and `file_data` is untouched |
| Fixtures.DemoMembersRead | src/test/test_json.rs:4-17 | the demo document's five members read, in text order, as a boolean, a decimal, the nested profile, a string and the bytes of "Hello world" |
| Fixtures.DemoDocumentReads | src/test/test_json.rs:19 | `deserialize` of any text that parses into the demo's members gives the demo's five entries |
| Fixtures.DemoLookups | src/test/test_json.rs:21-27 | in the demo's container `get("balance")` is the decimal, `get("file_data")` the bytes of "Hello world", and `remove` of `file_data` hands those bytes back |
| Fixtures.FiveKeyMembers | src/msfx/util/json.rs:122-125 | the five-key document reads member by member, whatever its values, as soon as each value reads |
| Fixtures.ReadOneMore | src/msfx/util/json.rs:123 | appending a member that classifies to members that read adds its entry, replacing any earlier one under that key |
| Fixtures.TextReads | src/msfx/util/json.rs:122-125 | a text whose members read as some entries deserializes to a container of exactly those entries |
| Fixtures.BalanceBecomesText | src/test/test_json.rs:7 | the demo's balance reads as a decimal, is written as the wire string `1234.5678`, and that string comes back as a string |
| Fixtures.WholeDecimalBecomesBinary | src/msfx/util/json.rs:84 | a decimal written as `1234` comes back as the binary data D7 6D F8 |
| Fixtures.EmptyStringIsBinary | src/msfx/util/json.rs:48-49 | the empty wire string reads as empty binary data |
| Fixtures.NullMemberFailsDocument | src/msfx/util/json.rs:70 | a null or an array as a top-level member fails the document as unsupported |
| Fixtures.DuplicateKeys | src/msfx/util/json.rs:123 | of two members with the same key the later one wins, but a first member that fails ends the read with its error |
| Fixtures.NestedAndTopLevelOrders | src/msfx/util/json.rs:60-67 | the same two failing members report the decimal error nested, where key order puts `a` first, and the null's error at the top level, where the text puts the null first |

## Left out

- serde's `Deserializer`/`Serializer` plumbing and serde_json's text grammar and printer are not modelled. The text parser and printer are the `parseJson` and `printJson` fields of `External.Library`.
- Container.SerializeDeserialize: it assumes the parser lists exactly the members the printer wrote (`Container.Lists`), because serde_json is not part of this model.
- Container.Deserialize: the parser is applied to the whole text before any member is classified. serde_json classifies each member as it reaches it, so for a text with a failing member followed by a syntax error the source reports the member's error and the model reports `Malformed`.
- `Number::as_f64` and `Decimal::try_from(f64)` are abstract partial functions (`asF64`, `decimalOfF64`). Floating point and rust_decimal's arithmetic are not modelled.
- chrono's parsing and formatting grammars are abstract fields. Whether a date, time or timestamp round-trips therefore appears as a condition (`RoundTrip.Stable`) or an assumption (`RoundTrip.ParsedValuesReformat`), never as a proved fact.
- Decimal, date, time and timestamp payloads are plain records, and none of their arithmetic or range checks are modelled.
- `with_timezone(&Utc)` is modelled as taking the written offset off the local reading (`Values.ToUtc`); chrono's range limits and leap seconds are not modelled.
- Codec.Classify: a nested object is a serde_json `Map`, which by default is a `BTreeMap` and is visited in key order; the model follows that order (`Codec.ObjectReportsFirstFailure`). With serde_json's `preserve_order` feature the `Map` keeps text order instead, and the crate's build configuration is not part of this model.
- The error messages' text is reduced to the three kinds `InvalidNumber`, `InvalidDecimal` and `Unsupported`. serde_json's own parse errors become `Malformed` and `ExpectedMap`.
- The container's `HashMap` iteration order, and with it the order of keys in serialized text, is not modelled. The container's entries are a Dafny map.
- `Debug` printing is not modelled. The `#[derive(...)]` texts at src/msfx/util/json.rs:16 and :101 sit inside doc comments, so nothing is derived; entries are compared with Dafny's structural equality.
- `src/msfx/db/types.rs` is not part of this model: it is an enum without behaviour.
- `src/msfx/lib.rs` is not part of this model: it is module wiring only.
- `src/test/test_chrono.rs` is not part of this model: it reads the clock and prints.
- `src/test/test_types.rs` is not part of this model: it only prints.
- In `src/test/test_json.rs`, the `println!` output and `unwrap` panics are not modelled. Its inputs are used as fixtures.
