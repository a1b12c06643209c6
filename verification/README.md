# The wire codec of the stablecoin module, verified

The stablecoin module stores and transmits its messages in the Protocol Buffers wire format. The
code in `chain/x/stablecoin/types/*.pb.go` writes messages backwards into a buffer whose size was
computed beforehand, and reads them with a loop over tagged records. This project models that codec
in Dafny and proves what its users rely on: printing and parsing are inverse, the parsers accept
exactly a grammar, and inputs can be concatenated, extended with unknown fields and read by other
versions of a message.

How it is organised:

- `Machine.dfy`: 64-bit words, wrapping addition, and the bit operators, defined digit by digit.
- `Varint.dfy`: the meaning of varints, the loops that write and read them, sizes and ZigZag.
- `Wire.dfy`: the grammar. A record is a tree (groups nest), and a message is a list of records.
  The grammar is proved unambiguous and prefix-free, which carries most of the later laws.
- `Skip.dfy`: the depth-counter skipper, proved against the trees.
- `Outcomes.dfy`: every outcome of the skipper, errors included, stated on the bytes.
- `Decoding.dfy`: schemas, and the meaning of an input for a schema.
- `Parsing.dfy`: the steps that every generated parser repeats inline.
- `Encoding.dfy`: the encodings, and the backward writes.
- `ParamsPb.dfy`, `ModulePb.dfy`, `TxPb.dfy`, `GenesisPb.dfy`, `QueryPb.dfy`: one class a message,
  after the Go file of the same name, with its loops and in-place writes.
- `Theorems.dfy`: the laws that relate all of this.

Modelling choices:

- `encodeVarint*`, `sov*`, `soz*` and `skip*` are the same algorithm in all five Go files and appear
  once. `MsgUpdateParamsResponse` and `QueryParamsRequest` have the code of `Params`, whose class
  stands for the three.
- A Go `int` is a number confined to 64 bits. Where an addition can overflow it is written `Add64`,
  which wraps; everywhere else the verifier proves that it cannot. Lengths that Go accumulates in an
  `int` are accumulated as the same 64 bits without sign and then reinterpreted.
- A slice has a length that is an `int`. The slices that marshalling passes on are all prefixes of
  one buffer, so they are an array with a length. Strings are bytes, since the code checks no UTF-8.
- `Slice` inputs are immutable sequences: no parser writes to its input or keeps a reference to it.
- Marshalling into a buffer that is too small panics in Go; here the room is a precondition, and
  `SizeIsExact` says when `Size` provides it.

The code is laxer than the Protocol Buffers encoding guide, and the grammar follows the code: the tag
that closes a group is not compared with the one that opened it, field numbers are cut to 32 bits,
and varints may carry redundant bytes. `XXX_Marshal` returns the front of its buffer although it wrote
at the back; `XXXMarshalAgrees` says exactly when that is the encoding.

## Model

| member | source | states |
|---|---|---|
| `Varint.EncodeVarint` | chain/x/stablecoin/types/tx.pb.go:310-320 | the loop writes exactly the shortest spelling of v, ending just before the old offset, returns its start, and changes no other byte |
| `Varint.DecodeVarint` | chain/x/stablecoin/types/tx.pb.go:357-371 | the loop accepts exactly the varints of the grammar (at most ten bytes, only the last without the continuation bit), yields their little-endian value modulo 2^64 and stops after them; it returns `UnexpectedEOF` exactly when fewer than ten bytes remain and all continue, and `IntOverflow` exactly when the next ten bytes all continue |
| `Varint.SkipVarint` | chain/x/stablecoin/types/tx.pb.go:539-550 | the value-less loop of the skipper passes over exactly one varint, with the same two errors in the same cases |
| `Varint.VarintEndIff` | chain/x/stablecoin/types/tx.pb.go:357-371 | reading from a position ends at e if and only if the bytes up to e are a varint, so the end is unique and no error hides a varint |
| `Varint.VarintEndErrors` | chain/x/stablecoin/types/tx.pb.go:358-363 | reading fails in exactly two ways: cut off by the end of the input, or ten bytes that all continue |
| `Varint.ValueUnfolds` | chain/x/stablecoin/types/tx.pb.go:366 | the value of a varint is the base 128 sum of its payloads, low bytes first, modulo 2^64 |
| `Varint.VarintPrefixFree` | chain/x/stablecoin/types/tx.pb.go:357-371 | no varint is a proper prefix of another |
| `Varint.Accumulate` | chain/x/stablecoin/types/tx.pb.go:366 | one turn of `wire \|= uint64(b&0x7F) << shift` appends seven bits to the value modulo 2^64, including the tenth byte, of which one bit survives |
| `Varint.EncodeIsVarint` | chain/x/stablecoin/types/tx.pb.go:310-320 | the encoder's output is a varint and stands for the word that was encoded |
| `Varint.DecodeEncoded` | chain/x/stablecoin/types/tx.pb.go:357-371 | wherever an encoded word stands, whatever follows it, reading yields the word and stops after exactly `sov` bytes |
| `Varint.EncodeIsShortest` | chain/x/stablecoin/types/tx.pb.go:310-320 | no accepted spelling of a word is shorter than the encoder's |
| `Varint.SovIsEncodedSize` | chain/x/stablecoin/types/tx.pb.go:345-347 | the closed form `(Len64(x\|1)+6)/7` is the number of bytes the loop writes |
| `Varint.SovIsLeast` | chain/x/stablecoin/types/tx.pb.go:345-347 | the closed form is the least k >= 1 with x < 2^(7k), and lies in 1..10 |
| `Varint.ZigZagMeaning` | chain/x/stablecoin/types/tx.pb.go:348-350 | `(x<<1) ^ (int64(x)>>63)` sends n >= 0 to 2n and n < 0 to -2n-1 |
| `Varint.ZigZagBijection` | chain/x/stablecoin/types/tx.pb.go:348-350 | that map is a bijection on 64-bit words |
| `Varint.SozIsLeast` | chain/x/stablecoin/types/tx.pb.go:348-350 | for k <= 9, `soz` is at most k exactly on the signed numbers of 7k bits; it always lies in 1..10 |
| `Wire.WireTypeIsLowBits` | chain/x/stablecoin/types/tx.pb.go:372 | the wire type of a tag is the low three bits of its first byte |
| `Wire.FieldNumberIsInt32` | chain/x/stablecoin/types/tx.pb.go:371 | the field number is the number in the `int32` range that is congruent to the tag shifted by three, modulo 2^32 |
| `Wire.TagReadsBack` | chain/x/stablecoin/types/tx.pb.go:371-372 | every field number below 2^31 and every wire type read back from the tag made of them |
| `Wire.RecordUnique` | chain/x/stablecoin/types/tx.pb.go:516-593 | the record grammar is prefix-free and unambiguous: bytes that begin with a record determine its whole tree |
| `Wire.BodyUnique` | chain/x/stablecoin/types/tx.pb.go:573-579 | a group's body and end tag are determined by the bytes, although end tags are not matched with start tags |
| `Wire.PrefixParse` | chain/x/stablecoin/types/tx.pb.go:354-464 | a split of a prefix into records is a prefix of every split of the whole |
| `Wire.ParseUnique` | chain/x/stablecoin/types/tx.pb.go:354-464 | a byte string splits into records in at most one way |
| `Skip.SkipRecord` | chain/x/stablecoin/types/tx.pb.go:516-593 | the depth-counter loop returns n inside the input if and only if the first n bytes are one record tree with arbitrarily nested balanced groups; a result is at least 2 and at most the largest `int`; every outcome, errors included, is the one of the token scan |
| `Skip.SkipLoop` | chain/x/stablecoin/types/tx.pb.go:516-593 | the loop with its wrapping index and depth counter has the outcome of the token scan, errors included |
| `Skip.SkipPayload` | chain/x/stablecoin/types/tx.pb.go:537-584 | the switch moves over one payload; its wrapped index is negative exactly when the true end is no `int` |
| `Skip.ScanIffRecord` | chain/x/stablecoin/types/tx.pb.go:516-593 | scanning tokens with a depth counter finds n exactly when the first n bytes are a record tree |
| `Skip.ScanRecord` | chain/x/stablecoin/types/tx.pb.go:516-593 | completeness: every record tree is passed over whole, at any depth and position |
| `Skip.ScanCloses` | chain/x/stablecoin/types/tx.pb.go:573-590 | soundness: with d groups open, success means that the bytes passed over close exactly those d groups |
| `Theorems.SkipIgnoresSuffix` | chain/x/stablecoin/types/tx.pb.go:516-593 | prefix stability: what follows a record has no influence on how it is skipped |
| `Outcomes.FixedOutcome` | chain/x/stablecoin/types/tx.pb.go:551-552 | a payload of 8 or 4 bytes is passed over unread: at depth 0 its end is returned even past the input, inside a group that is a premature end, and an end that is no `int` is an invalid length (wire type 5 is at lines 580-581) |
| `Outcomes.DelimitedOutcome` | chain/x/stablecoin/types/tx.pb.go:553-572 | the same for a length-delimited payload of any length |
| `Outcomes.VarintOutcome` | chain/x/stablecoin/types/tx.pb.go:538-550 | a varint payload is passed over to its last byte |
| `Outcomes.GroupTagOutcome` | chain/x/stablecoin/types/tx.pb.go:573-579 | group tags move the depth by one, the last end tag ends the record, and one end tag too many is its own error |
| `Outcomes.IllegalOutcome` | chain/x/stablecoin/types/tx.pb.go:582-583 | wire types 6 and 7 are illegal at any depth |
| `Outcomes.UnfinishedOutcome` | chain/x/stablecoin/types/tx.pb.go:521-550 | a tag, length or varint payload that does not end is a premature end or an overflow, according to how many bytes remain |
| `Outcomes.EncodedFieldIsSkipped` | chain/x/stablecoin/types/tx.pb.go:516-593 | an encoded length-delimited field of any number is skipped to its end, whatever follows |
| `Parsing.ReadTag` | chain/x/stablecoin/types/tx.pb.go:355-378 | a tag is read or refused exactly as the grammar says; a refusal means that no record with a positive field number stands there |
| `Parsing.ReadPayload` | chain/x/stablecoin/types/tx.pb.go:381-411 | success delivers the one length-delimited record that stands at the tag; every error means that none does |
| `Parsing.SkipUnknown` | chain/x/stablecoin/types/tx.pb.go:445-458 | the rewind steps over exactly one record inside the input; every error means that no record stands there |
| `Parsing.GuardsAreExact` | chain/x/stablecoin/types/genesis.pb.go:207-216 | the sign and bound checks on a wrapped sum accept exactly the lengths that are non-negative and fit |
| `Decoding.DecodeOfParse` | chain/x/stablecoin/types/tx.pb.go:351-465 | the meaning of an input is read off its one split into records |
| `Decoding.EmptySchema` | chain/x/stablecoin/types/params.pb.go:157-206 | a message without fields keeps its state and accepts by field number alone |
| `Decoding.EmptyAcceptsIff` | chain/x/stablecoin/types/params.pb.go:157-206 | `Params` accepts exactly the inputs that split into records with positive field numbers |
| `Decoding.LastOneWins` | chain/x/stablecoin/types/tx.pb.go:410 | among admitted records, the text that results is the payload of the last text field, empty or not, or the initial value if there is none |
| `Decoding.Advance` | chain/x/stablecoin/types/tx.pb.go:379-458 | one admitted record moves the decoder past it and updates the text |
| `Decoding.Stuck` | chain/x/stablecoin/types/tx.pb.go:354-464 | if no admissible record stands where the decoder is, the whole input is meaningless, so failing is right |
| `Theorems.MsgUpdateParamsAccepts` | chain/x/stablecoin/types/tx.pb.go:351-465 | the exact set of accepted inputs, and exactly the authority that results: the last field 1, or the old value if there is none |
| `Theorems.ModuleAccepts` | chain/x/stablecoin/types/module.pb.go:158-239 | the same for `Module`, which puts no demand on field 2 |
| `Theorems.ParamsFieldAccepts` | chain/x/stablecoin/types/genesis.pb.go:159-241 | the exact set of inputs that `GenesisState` and `QueryParamsResponse` accept: every field 1 length-delimited with a payload that `Params` accepts |
| `Theorems.LastFieldIsAuthority` | chain/x/stablecoin/types/tx.pb.go:380-411 | in an accepted input the last record with number 1 is length-delimited and its payload is the authority, even an empty one |
| `Theorems.NoFieldKeepsAuthority` | chain/x/stablecoin/types/tx.pb.go:379-458 | without a record of number 1 the authority is unchanged |
| `TxPb.MsgUpdateParams.Unmarshal` | chain/x/stablecoin/types/tx.pb.go:351-465 | the parsing loop succeeds exactly on the meaningful inputs and leaves the authority that they mean |
| `ModulePb.Module.Unmarshal` | chain/x/stablecoin/types/module.pb.go:158-239 | the same for `Module` |
| `GenesisPb.GenesisState.Unmarshal` | chain/x/stablecoin/types/genesis.pb.go:159-241 | the same for `GenesisState`, whose nested payloads must be accepted by `Params` |
| `QueryPb.QueryParamsResponse.Unmarshal` | chain/x/stablecoin/types/query.pb.go:376-458 | the same for `QueryParamsResponse` |
| `ParamsPb.Params.Unmarshal` | chain/x/stablecoin/types/params.pb.go:157-206 | the empty message accepts exactly the lists of records with positive field numbers |
| `TxPb.MsgUpdateParams.SizeIsExact` | chain/x/stablecoin/types/tx.pb.go:321-334 | `Size` is the length of the encoding if and only if that length is an `int`; otherwise it wraps |
| `ModulePb.Module.SizeIsExact` | chain/x/stablecoin/types/module.pb.go:139-150 | the same for `Module` |
| `GenesisPb.GenesisState.SizeIsExact` | chain/x/stablecoin/types/genesis.pb.go:142-151 | the same for `GenesisState` |
| `QueryPb.QueryParamsResponse.SizeIsExact` | chain/x/stablecoin/types/query.pb.go:309-318 | the same for `QueryParamsResponse` |
| `TxPb.MsgUpdateParams.MarshalToSizedBuffer` | chain/x/stablecoin/types/tx.pb.go:262-285 | backward marshalling stays in bounds, fills exactly the last bytes of the window with the encoding, changes nothing else and returns the length |
| `Encoding.PutHeader` | chain/x/stablecoin/types/tx.pb.go:280-282 | the length and the tag of a payload are written just before it, and nothing else changes |
| `Encoding.PutText` | chain/x/stablecoin/types/tx.pb.go:278-282 | a text is copied to end at i, with its header before it, as one well-formed record, and nothing else changes |
| `ModulePb.Module.MarshalToSizedBuffer` | chain/x/stablecoin/types/module.pb.go:113-126 | the same for `Module` |
| `GenesisPb.GenesisState.MarshalToSizedBuffer` | chain/x/stablecoin/types/genesis.pb.go:113-129 | the same for `GenesisState` |
| `QueryPb.QueryParamsResponse.MarshalToSizedBuffer` | chain/x/stablecoin/types/query.pb.go:271-287 | the same for `QueryParamsResponse` |
| `ParamsPb.PutParams` | chain/x/stablecoin/types/tx.pb.go:267-276 | the nested block writes the tag, the length and the payload of an empty message, and nothing else |
| `Encoding.EncodedBytes` | chain/x/stablecoin/types/tx.pb.go:262-285 | the encodings byte by byte: `0a`, length and text if the text is not empty; `12 00` or `0a 00` for the nested message |
| `ParamsPb.Params.MarshalToSizedBuffer` | chain/x/stablecoin/types/params.pb.go:123-129 | an empty message writes nothing and reports no bytes |
| `TxPb.MsgUpdateParams.MarshalTo` | chain/x/stablecoin/types/tx.pb.go:257-260 | the encoding goes to the front of the buffer, and the rest is kept |
| `ModulePb.Module.MarshalTo` | chain/x/stablecoin/types/module.pb.go:108-111 | the same for `Module` |
| `GenesisPb.GenesisState.MarshalTo` | chain/x/stablecoin/types/genesis.pb.go:108-111 | the same for `GenesisState` |
| `QueryPb.QueryParamsResponse.MarshalTo` | chain/x/stablecoin/types/query.pb.go:266-269 | the same for `QueryParamsResponse` |
| `TxPb.MsgUpdateParams.Marshal` | chain/x/stablecoin/types/tx.pb.go:247-255 | the encoding fills the whole allocation |
| `ModulePb.Module.Marshal` | chain/x/stablecoin/types/module.pb.go:98-106 | the same for `Module` |
| `GenesisPb.GenesisState.Marshal` | chain/x/stablecoin/types/genesis.pb.go:98-106 | the same for `GenesisState` |
| `QueryPb.QueryParamsResponse.Marshal` | chain/x/stablecoin/types/query.pb.go:256-264 | the same for `QueryParamsResponse` |
| `TxPb.MsgUpdateParams.XXXMarshal` | chain/x/stablecoin/types/tx.pb.go:54-65 | without the deterministic flag, the encoding fills the end of the capacity and the result is the front of it: old bytes first, then the start of the encoding, byte by byte |
| `TxPb.XXXMarshalAgrees` | chain/x/stablecoin/types/tx.pb.go:54-65 | that front is the encoding, whatever the buffer held, if and only if the capacity equals the size or the encoding is empty |
| `Theorems.MsgUpdateParamsRoundTrip` | chain/x/stablecoin/types/tx.pb.go:247-285 | decoding a marshalled message into any target succeeds and gives its authority, or keeps the target's when the authority is empty |
| `Theorems.ModuleRoundTrip` | chain/x/stablecoin/types/module.pb.go:98-126 | the same for `Module` |
| `Theorems.RoundTripRestores` | chain/x/stablecoin/types/tx.pb.go:351-465 | the round trip restores the message exactly when its authority is not empty or the target's is |
| `Theorems.MarshalIsInjective` | chain/x/stablecoin/types/tx.pb.go:247-285 | different messages have different encodings |
| `Theorems.DecodeFromBoundary` | chain/x/stablecoin/types/tx.pb.go:354-464 | from a record boundary on, decoding goes on as if it started there |
| `Theorems.ConcatenationMerges` | chain/x/stablecoin/types/tx.pb.go:354-464 | decoding a concatenation succeeds exactly when decoding the parts in turn does, with the same result |
| `Theorems.EncodingsMerge` | chain/x/stablecoin/types/tx.pb.go:262-285 | concatenated encodings decode to the merged message |
| `Theorems.UnknownFieldsAreTransparent` | chain/x/stablecoin/types/tx.pb.go:445-458 | a record of an unknown field at any record boundary changes neither acceptance nor result |
| `Theorems.GroupEndIsNotMatched` | chain/x/stablecoin/types/tx.pb.go:573-579 | any end tag closes a group, whatever its field number |
| `Theorems.NarrowingIsExact` | chain/x/stablecoin/types/tx.pb.go:379-459 | a decoder with more fields accepts what one with fewer accepts, if and only if the records of the extra fields are in order |
| `Theorems.MsgUpdateParamsReadsAsModule` | chain/x/stablecoin/types/module.pb.go:186-232 | every input that `MsgUpdateParams` accepts is accepted by `Module` with the same authority, and by the empty messages |
| `Theorems.ModuleAcceptsMore` | chain/x/stablecoin/types/module.pb.go:219-233 | the converse fails: an input with a varint in field 2 |
| `Theorems.GenesisAndQueryAreWireIdentical` | chain/x/stablecoin/types/query.pb.go:376-458 | `GenesisState` and `QueryParamsResponse` accept the same inputs and each decodes the other's encoding |
| `Theorems.CanonicalIsIdempotent` | chain/x/stablecoin/types/tx.pb.go:262-285 | decode-then-encode keeps the meaning of every accepted input, is idempotent, and is at most two bytes longer than the input |
| `Theorems.ModuleEncodingIsShortest` | chain/x/stablecoin/types/module.pb.go:113-126 | among all inputs that decode to the same `Module`, the marshalled form is the shortest |

## Left out

- Which error class `Unmarshal` returns, and the partly updated message after an error: the contracts state exactly when it fails. For varints and for the skipper the error class is part of the contract.
- Nil receivers, and the text of errors.
- Aliasing between an input slice and later writes to it: inputs are values, as the parsers copy what they keep.
- The deterministic branch of `XXX_Marshal`, `XXX_Merge`, `XXX_DiscardUnknown`, `Reset` and `String`: they call the gogoproto library, which is not part of this model.
- `MarshalTo` and `Marshal` of the empty messages, getters, and `Params.Equal`: they would only add easy members.
- Descriptors, type registration, gRPC clients and handlers, the gateway, JSON and Amino.
- Keeper, message server, query server, application wiring and command line: `Params` is empty, so their state properties are nearly vacuous.
- The mint, burn, compliance, swap and fee modules: only their design exists in the repository.
