# Map codec of jsoniter, modelled in Dafny

This project models the map codec of the jsoniter JSON library
(`feature_reflect_map.go`). The codec has four parts:

- **Key classification.** Both directions use the same order of cases: a
  string kind first, then a text interface (`TextUnmarshaler` when decoding,
  `TextMarshaler` when encoding), then the signed integer kinds, then the
  unsigned integer kinds. Anything else is unsupported.
- **Decoding** (`mapDecoder.decode`). A nil destination map is replaced by
  an empty one. The object's members are then folded into the map in input
  order, as follows:
  - Each member's element is decoded before its key is converted.
  - A key that converts is inserted, and a later equal key overwrites it.
  - A text-unmarshal or integer key that fails is reported and stops the
    reader. Entries inserted before it stay.
  - A key type with no conversion is reported, and the reader continues.
- **Encoding** (`mapEncoder.encode`, `encodeMapKey`). The output is `{`,
  then the entries in `MapKeys` order with commas between them, each as a
  quoted key, `:` and the element, then `}`.
  - A key that fails stores its error in the stream's error field,
    overwriting what was there. The loop goes on regardless.
- **`isEmpty`**: the map has no entries.

The modules follow that structure:

- `Widths`: integer widths and `reflect`'s overflow tests.
- `Decimal`: `strconv`'s base-10 parsing and the digit writers.
- `KeyKinds`: the classification.
- `MapModel`: keys and maps.
- `MapDecoder` and `DecoderProperties`: decoding and what it promises.
- `MapEncoder` and `EncoderProperties`: encoding and what it promises.
- `RoundTrip`: encoding followed by decoding.

Three modelling choices apply throughout:

- **Keys.** A key is a value of the datatype `Key`. A key produced by the
  text-unmarshal path is the pointer the decoder allocates, so it is
  identified by a fresh address as well as by its unmarshalled value. The
  decoder is given the first address not yet allocated, and every pointer
  key already in the map lies below it.
- **Decoder input.** The token reader is represented by the sequence of the
  object's members.
- **Encoder output.** The stream is represented by the sequence of write
  requests it receives.

Element codecs, `UnmarshalText` and `MarshalText` are function parameters.
The element encoder maps an element to the JSON text it writes, and the
element decoder maps that text back to an element. The round trip holds for
element codecs under which the decoder reads back what the encoder writes for
every element of the map (`RoundTrip.ElemRoundTrip`).

The decoder's string-key path follows a corrected reading of line 35 of
`feature_reflect_map.go`. The line as written is modelled separately, by
`MapDecoder.DecodeAsWritten`, and the difference is recorded under
"## Findings".

## Model

| member | source | states |
|---|---|---|
| Widths.OverflowInt | feature_reflect_map.go:50 | The overflow test on a parsed `int64` fires exactly when the value lies outside the signed range of the key's width. |
| Widths.OverflowUint | feature_reflect_map.go:58 | The overflow test on a parsed `uint64` fires exactly when the value lies outside the unsigned range of the key's width. |
| Decimal.ParseInt | feature_reflect_map.go:49 | Accepts exactly an optional sign followed by decimal digits whose value fits in `int64`, and yields that value; the empty text is a syntax error. |
| Decimal.ParseUint | feature_reflect_map.go:57 | Accepts exactly non-empty decimal digits whose value fits in `uint64`, and yields that value; too large a value is a range error; the empty text is a syntax error. |
| Decimal.FormatIntParses | feature_reflect_map.go:114-118 | The digits written for any `int64` key parse back, as a signed key text, to the same number. |
| Decimal.FormatNatParses | feature_reflect_map.go:119-123 | The digits written for any `uint64` key parse back, as an unsigned key text, to the same number. |
| KeyKinds.Classify | feature_reflect_map.go:33-66 | A key type is textual if and only if its kind is string; text-capable if and only if it is not a string and has the text interface; signed or unsigned only when neither applies, with the width of its kind. |
| KeyKinds.ClassifyIsFirstMatch | feature_reflect_map.go:98-125 | The classification equals the first rule, in the order string, text interface, signed, unsigned, that applies to the key type. |
| KeyKinds.DirectionsAgree | feature_reflect_map.go:34-37 | Decoding and encoding classify a key type alike if and only if it is a string kind or implements both text interfaces or neither. |
| MapDecoder.DecodeKey | feature_reflect_map.go:33-67 | Per class: a string key is the text; a text key is a new pointer to the unmarshalled value, or the unmarshal error and a stop; an integer key is accepted if and only if the text parses and fits the width, else the int64/uint64 error and a stop; an unsupported type reports its name and continues. |
| MapDecoder.DefinedStringKeyPanics | feature_reflect_map.go:35 | For every defined string key type (`type K string`) and every key text, the line as written fails, while the corrected conversion accepts the text as the key. |
| MapDecoder.DecodeAsWritten | feature_reflect_map.go:19-69 | As written, decoding a non-empty object with a defined string key type aborts, and the destination is left live and holding exactly the entries it had. For every other key type, and for an empty object, the result is the corrected decoder's. |
| MapDecoder.ScanWrittenAgrees | feature_reflect_map.go:28-68 | Except for a defined string key type, the scan as written never panics and ends in the corrected scan's state. |
| MapDecoder.Step | feature_reflect_map.go:28-68 | One member always decodes its element. An accepted key is inserted with that element, and all other entries keep their elements. A rejected key leaves the map alone and appends its error. The reader stops exactly on a rejection that asks to stop. |
| MapDecoder.Decode | feature_reflect_map.go:19-69 | The destination is live afterwards, even when it was nil. No key is removed. Every key fits the key type. New pointer keys lie at fresh addresses, so on the text-unmarshal path no existing entry changes. At most one element is decoded per member. An object with no members leaves the map as it was, with no error. |
| MapDecoder.ScanKeepsKeysFitting | feature_reflect_map.go:28-68 | Scanning members never removes a key and inserts only keys of the key type. Pointer keys are allocated only at fresh addresses, and on the text-unmarshal path no existing entry changes. At most one element is decoded per member. |
| DecoderProperties.ScanAppend | feature_reflect_map.go:28 | Reading two runs of members is reading the second from where the first left off; a stopped reader ignores the rest. |
| DecoderProperties.StopKeepsPrefix | feature_reflect_map.go:40-60 | When the scan stops at a member, the map is exactly the map of the members before it, and the one error appended is that member's. |
| DecoderProperties.StoppedIffStopsAt | feature_reflect_map.go:40-67 | The reader is stopped if and only if some member's key fails with a stop request after an unstopped prefix; otherwise every member's element was decoded. |
| DecoderProperties.AddressIrrelevant | feature_reflect_map.go:47-63 | String and integer key conversion does not depend on allocation. |
| DecoderProperties.LastOccurrenceWins | feature_reflect_map.go:33-63 | When every key converts, the keys afterwards are the old keys plus the members' keys. Each key maps to the element of the last member with that key, and untouched keys keep their old elements. |
| DecoderProperties.TextKeysNeverOverwrite | feature_reflect_map.go:37-45 | On the text-unmarshal path, when every key text unmarshals, every member adds a new entry, even for repeated key texts, and existing entries keep their elements. |
| DecoderProperties.PlainScanKeepsHeap | feature_reflect_map.go:33-63 | Only the text-unmarshal path allocates: with any other key type, the next free address is unchanged by a scan. |
| DecoderProperties.TextKeysAllocated | feature_reflect_map.go:37-45 | When every key text unmarshals, member `j` is stored under a new pointer at the `j`th fresh address to its unmarshalled value, holding its element, and no error is reported. |
| DecoderProperties.UnsupportedKeysSkipped | feature_reflect_map.go:66-67 | An unsupported key type inserts nothing and reports one error per member, naming the type. The reader never stops, and every element is still decoded. |
| DecoderProperties.UnsupportedKeyReports | feature_reflect_map.go:66 | Each of those reports is made under "read map key" with the message "unexpected map key type " followed by the type's name. |
| DecoderProperties.DuplicateKeyExample | feature_reflect_map.go:35 | `{"a":1,"a":2}` decodes into a nil `map[string]int` as `{"a":2}`. |
| DecoderProperties.NilBecomesEmptyExample | feature_reflect_map.go:25-27 | `{}` decodes into a nil map as a live, empty map. |
| DecoderProperties.IntKeyRangeExample | feature_reflect_map.go:49-53 | `"300"` is rejected as an `int8` key and accepted as an `int16` key. |
| MapModel.KeyOrderLength | feature_reflect_map.go:85 | A listing of a map's keys, each once, has as many entries as the map. |
| MapEncoder.EncodeKey | feature_reflect_map.go:97-126 | A key writes something exactly when it sets no error. The writes by class: a string key is one escaped string; a text key is its marshalled text between quotes, or the marshal error; an integer key is its decimal digits between quotes; an unsupported type sets the unsupported-type error. |
| MapEncoder.Encode | feature_reflect_map.go:84-94 | The output starts with `{` and ends with `}`. |
| MapEncoder.IsEmpty | feature_reflect_map.go:132-137 | True exactly when the map, nil or live, has no entries. |
| EncoderProperties.EncodeFraming | feature_reflect_map.go:84-94 | The output holds one `{`, one `}`, one colon and one element per entry, and one comma fewer than entries. An unsupported key type writes no key text at all. |
| EncoderProperties.EncodeErrorSlot | feature_reflect_map.go:102-125 | After encoding, the error field is unchanged when every key encodes; otherwise it holds the error of the last key that failed. |
| EncoderProperties.UnsupportedKeyEncoding | feature_reflect_map.go:84-125 | For an unsupported key type, a non-empty map sets the unsupported-type error and writes no key text. Colons and `}` are still written. An empty map leaves the error field as it was. |
| EncoderProperties.UnsupportedErrorSlot | feature_reflect_map.go:125 | For an unsupported key type, the error field ends holding that type's error when there is a key, and the incoming value otherwise. |
| EncoderProperties.EmptyIffBraces | feature_reflect_map.go:132-137 | `isEmpty` holds exactly for the maps the encoder writes as `{}`. |
| RoundTrip.KeyRoundTrip | feature_reflect_map.go:113-123 | A string or integer key is written without error, and its written text decodes back to the same key. |
| RoundTrip.EncodeKeepsSlot | feature_reflect_map.go:102-107 | When no key fails, encoding leaves the stream's error field as it was. |
| RoundTrip.EncodeReadsBack | feature_reflect_map.go:84-94 | When no key fails and no marshalled key text needs JSON escaping, the output is a well-formed object. Its members are the written key texts with their elements, in key order. |
| RoundTrip.FailedKeyUnreadable | feature_reflect_map.go:89-90 | The entries from the second one on are not a continuation of an object body that `RoundTrip.ReadObject` reads when they run up to and including a key that failed or whose marshalled text holds a character JSON escapes. |
| RoundTrip.EncodeErrorUnreadable | feature_reflect_map.go:102-110 | `RoundTrip.ReadObject` rejects the output when a key failed, since the failed key leaves `{:` or `,:`. It also rejects it when a key's marshalled text holds a character JSON escapes, since lines 108-110 write that text raw between quotes and `ReadObject` decodes no escapes. |
| RoundTrip.ScanRebuilds | feature_reflect_map.go:28-68 | When the element decoder reads back the element encoder's output, reading the members written for a string- or integer-keyed map into an empty map rebuilds that map, with no errors and no stop. |
| RoundTrip.DecodeEncodedMembers | feature_reflect_map.go:19-69 | Under the same element codec condition, decoding those members into a nil map yields the original map, no errors, and one decoded element per entry. |
| RoundTrip.TextKeyRoundTrip | feature_reflect_map.go:37-45 | For a pointer key type with both text interfaces, this assumes two things of the key codec: `MarshalText` writes text that needs no JSON escaping, and `UnmarshalText` reads it back. Encoding and decoding into a nil map gives one entry per original entry. The `j`th key written comes back as a new pointer at the `j`th fresh address to an equal value, holding the original element. No error is reported, and the error field is unchanged. |
| RoundTrip.EncodeDecodeRoundTrip | feature_reflect_map.go:19-126 | For any `MapKeys` order, and element codecs that read back their own output, encoding a string- or integer-keyed map and decoding the output into a nil map rebuilds the same map. Neither side reports an error, and the error field is unchanged. |

## Left out

- The `unsafe` cast from a pointer to an interface and back (lines 20-24, 79-82, 133-136). The map is handed to the model directly.
- The JSON token reader `ReadObjectCB` and the `Stream` writer. The decoder takes the object's members as a sequence. The encoder produces the sequence of write requests, and `RoundTrip.ReadObject` stands in for a reader of that output. `WriteString`'s escaping is not modelled: a string key is one write request, read back as its text. `MarshalText`'s output is written raw (lines 108-110). The stand-in reader decodes no escapes, so it accepts raw text only when the text holds none of the characters section 7 of RFC 8259 says a string must escape: quotation mark, reverse solidus and control characters. A JSON reader reads such text differently: it decodes `\` escapes and ends the string at a quotation mark.
- Whether the token reader stops at a reported error that the callback continued past. The model follows the callback's return value only.
- Whether the `Stream` drops writes after its error field is set. The model lists every write request.
- Element decoders and encoders (`elemDecoder`, `elemEncoder.encodeInterface`, `writeToStream`). These are function parameters. Their errors are not modelled, and the element decoder is given the element's JSON text rather than reading it from the stream.
- `UnmarshalText` and `MarshalText`. These are function parameters.
- MapDecoder.Decode: requires a text-unmarshal key type to be a pointer type `*T`. Line 38 allocates a `*T`, and line 44 inserts it. For a key type of another kind with the text interface, line 38 panics in `keyType.Elem()` unless the kind is array or channel. For those two kinds, line 38 panics in the type assertion when the element's pointer type lacks the interface. When it has it, a failing `UnmarshalText` is reported and stops the reader (lines 40-42) without a panic. A successful one reaches `SetMapIndex` on line 44 with a pointer that the key type cannot hold, which panics. None of these non-pointer paths is modelled.
- MapDecoder.DecodeKey: follows the corrected conversion of line 35 (see "## Findings"). So do `MapDecoder.Step`, `MapDecoder.Decode` and the round-trip lemmas for string keys. As written, a defined string key type panics, and `MapDecoder.DecodeAsWritten` models that.
- Interface-typed keys, nil pointer keys, and keys whose kind is neither string nor integer nor pointer. These reach the encoder's unsupported case or are outside the model.
- Concurrency, and `reflect`'s allocation of elements. Elements are values.
- RoundTrip.TextKeyRoundTrip: does not state that the decoded map equals the original. Line 38 allocates a new pointer for every member, and pointer keys compare by address, so the decoded keys are new pointers. For the same reason a repeated key text on the text-unmarshal path adds an entry rather than overwriting one (`DecoderProperties.TextKeysNeverOverwrite`): the last occurrence wins only for string and integer keys.
- RoundTrip.FailedKeyUnreadable: its raw-text case holds for `RoundTrip.ReadObject` only. A JSON reader decodes the escapes in raw text, so `MarshalText` returning `a\\b` makes the output `{"a\\b":1}`, a valid object with key `a\b`.
- RoundTrip.EncodeErrorUnreadable: its raw-text case holds for `RoundTrip.ReadObject` only. A JSON reader can accept such output as other members: `MarshalText` returning `a":1,"b` makes the output `{"a":1,"b":1}`. The failed-key case holds for a JSON reader when no other key's text holds a character JSON escapes and every element is valid JSON. Without that, a quotation mark in another key's text can put the `,:` inside a string. For example, texts `a":1,"b":` and `,"x` around a failed key give `{"a":1,"b":":1,:2,","x":3}`.
- The order of `MapKeys`. It is unspecified in Go, so every encoding lemma holds for any order.
- An unsupported key type when encoding. The object is still completed with `:`, the element and `}`. The model follows the code here, not a reading in which encoding stops at that key.

## Findings

| source | as written | input that shows it | evidently intended | confidence | as-written member | corrected member |
|---|---|---|---|---|---|---|
| feature_reflect_map.go:35 | `SetMapIndex(reflect.ValueOf(keyStr), …)` passes a value of type `string`. This is not assignable to a defined string key type, so `SetMapIndex` panics. | Decoding `{"a":1}` into `map[K]int` with `type K string` | Convert the key text to the key type, as the integer paths do with `Convert(keyType)`, and insert it | high; not executed | MapDecoder.DecodeAsWritten | MapDecoder.DecodeKey |
