/** The bytes that the messages are marshalled to, and the backward steps that write them. */
module Encoding {
  import opened Machine
  import opened Varint
  import opened Wire

  const TAG_FIELD_1: byte := 0x0a
  const TAG_FIELD_2: byte := 0x12

  /** A length-delimited record, spelled without redundant bytes. */
  function Field(tag: byte, payload: seq<byte>): Record {
    Delimited([tag], Encode(|payload|), payload)
  }

  /** A text field is left out when it is empty. */
  function TextRecords(text: seq<byte>): seq<Record> {
    if text == [] then [] else [Field(TAG_FIELD_1, text)]
  }

  /** `Module`: the authority. */
  function ModuleBytes(authority: seq<byte>): seq<byte> {
    Flatten(TextRecords(authority))
  }

  /** `MsgUpdateParams`: the authority, then the nested and empty `Params`, always present. */
  function MsgUpdateParamsBytes(authority: seq<byte>): seq<byte> {
    Flatten(TextRecords(authority) + [Field(TAG_FIELD_2, [])])
  }

  /** `GenesisState` and `QueryParamsResponse`: the nested `Params`, always present. */
  function ParamsFieldBytes(): seq<byte> {
    Flatten([Field(TAG_FIELD_1, [])])
  }

  lemma FieldBytes(tag: byte, payload: Slice)
    ensures Bytes(Field(tag, payload)) == [tag] + Encode(|payload|) + payload
    ensures |Bytes(Field(tag, payload))| == 1 + |payload| + Sov(|payload|)
  {
    SovIsEncodedSize(|payload|);
  }

  /** `1 + l + sov(uint64(l))`, in machine arithmetic. */
  function FieldSize(l: int64): int64
    requires l >= 0
  {
    SovIsLeast(l, 1);
    Add64(Add64(1, l), Sov(l))
  }

  lemma FieldSizeWraps(tag: byte, payload: Slice)
    ensures FieldSize(|payload|) == Wrap64(|Bytes(Field(tag, payload))|)
  {
    hide Wrap64, Bytes, Sov;
    FieldBytes(tag, payload);
    var l := |payload|;
    SovIsLeast(l, 1);
    WrapSmall(Sov(l));
    WrapAdd(1 + l, Sov(l));
  }

  lemma EncodedForms(authority: seq<byte>)
    ensures ModuleBytes(authority) == if authority == [] then [] else Bytes(Field(TAG_FIELD_1, authority))
    ensures MsgUpdateParamsBytes(authority) == ModuleBytes(authority) + Bytes(Field(TAG_FIELD_2, []))
    ensures ParamsFieldBytes() == Bytes(Field(TAG_FIELD_1, []))
  {
    FlattenAppend(TextRecords(authority), [Field(TAG_FIELD_2, [])]);
    FlattenOne(Field(TAG_FIELD_1, authority));
    FlattenOne(Field(TAG_FIELD_2, []));
    FlattenOne(Field(TAG_FIELD_1, []));
  }

  /** The encodings, byte by byte. */
  lemma EncodedBytes(authority: Slice)
    ensures ModuleBytes(authority)
         == if authority == [] then [] else [0x0a] + Encode(|authority|) + authority
    ensures MsgUpdateParamsBytes(authority)
         == (if authority == [] then [] else [0x0a] + Encode(|authority|) + authority) + [0x12, 0x00]
    ensures ParamsFieldBytes() == [0x0a, 0x00]
  {
    hide Bytes, Flatten, Encode, Sov, ModuleBytes, MsgUpdateParamsBytes, ParamsFieldBytes;
    EncodedForms(authority);
    FieldBytes(TAG_FIELD_1, authority);
    EmptyFieldBytes(TAG_FIELD_1);
    EmptyFieldBytes(TAG_FIELD_2);
  }

  lemma EmptyFieldBytes(tag: byte)
    ensures Bytes(Field(tag, [])) == [tag, 0x00]
  {
    hide Sov;
    FieldBytes(tag, []);
    assert Encode(0) == [0x00];
  }

  /** Writes the length and the tag of a payload of `size` bytes that starts at i. */
  method PutHeader(dAtA: array<byte>, i: int64, size: int64, tag: byte) returns (start: int64)
    requires 0 <= size && 1 + Sov(size) <= i <= dAtA.Length <= MAX_INT
    modifies dAtA
    ensures start == i - Sov(size) - 1
    ensures dAtA[..] == old(dAtA[..start]) + [tag] + Encode(size) + old(dAtA[i..])
  {
    SovIsEncodedSize(size);
    start := EncodeVarint(dAtA, i, size);
    start := start - 1;
    ghost var written := dAtA[..];
    dAtA[start] := tag;
    assert dAtA[..] == written[..start] + [tag] + written[start + 1..];
  }

  /** Go's `copy(dAtA[at:], text)` into a buffer with room for the text. */
  method Copy(dAtA: array<byte>, at: int64, text: Slice)
    requires 0 <= at && at + |text| <= dAtA.Length
    modifies dAtA
    ensures dAtA[..] == old(dAtA[..at]) + text + old(dAtA[at + |text|..])
  {
    forall k | 0 <= k < |text| {
      dAtA[at + k] := text[k];
    }
  }

  /** Copies a text so that it ends just before i, and puts its header before it. */
  method PutText(dAtA: array<byte>, i: int64, text: Slice, tag: byte) returns (start: int64)
    requires 1 + |text| + Sov(|text|) <= i <= dAtA.Length <= MAX_INT
    modifies dAtA
    ensures 0 <= start == i - |Bytes(Field(tag, text))|
    ensures dAtA[..] == old(dAtA[..start]) + Bytes(Field(tag, text)) + old(dAtA[i..])
  {
    hide Bytes, Sov, Encode;
    FieldBytes(tag, text);
    ghost var before := dAtA[..];
    var at := i - |text|;
    Copy(dAtA, at, text);
    ghost var after := dAtA[..];
    assert after == before[..at] + (text + before[i..]);
    start := PutHeader(dAtA, at, |text|, tag);
    assert after[..start] == before[..start] && after[at..] == text + before[i..];
  }

  /** Two writes, the second ending where the first began, are one write. */
  lemma AdjacentWrites(
    before: seq<byte>, between: seq<byte>, i: nat, j: nat, k: nat, x: seq<byte>, y: seq<byte>)
    requires i + |x| == j && j + |y| == k <= |before|
    requires between == before[..j] + y + before[k..]
    ensures between[..i] + x + between[j..] == before[..i] + (x + y) + before[k..]
  {
    assert between[..i] == before[..i];
    assert between[j..] == y + before[k..];
  }
}
