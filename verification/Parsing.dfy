/** The pieces that the generated parsers repeat inline: reading a tag, reading a length-delimited
    payload, and stepping over an unknown field.
 */
module Parsing {
  import opened Machine
  import opened Results
  import opened Varint
  import opened Wire
  import opened Decoding
  import Skip

  datatype Tag = Tag(field: int, wireType: nat)

  /** Reads a tag and refuses end-group markers and field numbers that are not positive. */
  method ReadTag(dAtA: Slice, preIndex: int64) returns (r: Result<Tag>, iNdEx: int64)
    requires 0 <= preIndex <= |dAtA|
    ensures r.Err? ==> forall q :: StandsAt(dAtA, preIndex, q) ==> FieldNumber(q.tag) <= 0
    ensures r.Ok? ==> preIndex < iNdEx <= |dAtA| && IsVarint(dAtA[preIndex..iNdEx])
    ensures r.Ok? ==> r.value.field == FieldNumber(dAtA[preIndex..iNdEx]) > 0
    ensures r.Ok? ==> r.value.wireType == WireType(dAtA[preIndex..iNdEx]) != 4
    ensures r.Ok? ==> forall q :: StandsAt(dAtA, preIndex, q) ==> q.tag == dAtA[preIndex..iNdEx]
  {
    hide Value, VarintEnd;
    var read: Result<uint64>;
    read, iNdEx := DecodeVarint(dAtA, preIndex);
    forall q | StandsAt(dAtA, preIndex, q)
      ensures read.Ok? && q.tag == dAtA[preIndex..iNdEx]
      ensures WireType(q.tag) != 4
    {
      TagStandsAt(dAtA, preIndex, q);
    }
    if read.Err? {
      return Err(read.error), iNdEx;
    }
    var wire := read.value;
    TagParts(wire);
    var fieldNum := ToInt32(Shr(wire, 3));
    var wireType := And(wire, 0x7);
    if wireType == 4 {
      return Err(EndGroupForNonGroup), iNdEx;
    }
    if fieldNum <= 0 {
      return Err(IllegalTag), iNdEx;
    }
    r := Ok(Tag(fieldNum, wireType));
  }

  lemma TagParts(wire: uint64)
    ensures Shr(wire, 3) == wire / 8 && And(wire, 0x7) == wire % 8
  {
    assert Pow2(3) == 8 by { Pow2Values(); }
    Mask3(wire);
  }

  /** The sign and bound checks on a length accept exactly the payloads that fit, although the sum
      they inspect may have wrapped. */
  lemma GuardsAreExact(index: int64, length: int64, l: int64)
    requires 0 <= index <= l
    ensures (length < 0 || Add64(index, length) < 0 || Add64(index, length) > l)
       <==> !(0 <= length && index + length <= l)
  {
  }

  /** Reads the length and finds the payload of a field that must be length-delimited. */
  method ReadPayload(dAtA: Slice, ghost preIndex: int64, tagEnd: int64, wireType: nat)
    returns (r: Result<int64>, iNdEx: int64)
    requires 0 <= preIndex < tagEnd <= |dAtA|
    requires IsVarint(dAtA[preIndex..tagEnd]) && wireType == WireType(dAtA[preIndex..tagEnd])
    ensures r.Err? ==> forall q :: StandsAt(dAtA, preIndex, q) ==> !q.Delimited?
    ensures r.Ok? ==> tagEnd < iNdEx <= r.value <= |dAtA|
    ensures r.Ok? ==> var q := Delimited(dAtA[preIndex..tagEnd], dAtA[tagEnd..iNdEx], dAtA[iNdEx..r.value]);
                      StandsAt(dAtA, preIndex, q) && preIndex + |Bytes(q)| == r.value
  {
    hide Value, VarintEnd;
    iNdEx := tagEnd;
    forall q | StandsAt(dAtA, preIndex, q) && q.Delimited?
      ensures wireType == 2 && LengthFits(dAtA, tagEnd)
    {
      DelimitedStandsAt(dAtA, preIndex, tagEnd, q);
    }
    if wireType != 2 {
      return Err(WrongWireType), iNdEx;
    }
    var read: Result<uint64>;
    read, iNdEx := DecodeVarint(dAtA, iNdEx);
    if read.Err? {
      return Err(read.error), iNdEx;
    }
    var length := ToInt64(read.value);
    GuardsAreExact(iNdEx, length, |dAtA|);
    if length < 0 {
      return Err(InvalidLength), iNdEx;
    }
    var postIndex := Add64(iNdEx, length);
    if postIndex < 0 {
      return Err(InvalidLength), iNdEx;
    }
    if postIndex > |dAtA| {
      return Err(UnexpectedEOF), iNdEx;
    }
    DelimitedFrom(dAtA, preIndex, tagEnd, iNdEx, postIndex);
    r := Ok(postIndex);
  }

  lemma DelimitedFrom(s: seq<byte>, i: nat, e: nat, v: nat, post: nat)
    requires i < e < v <= post <= |s|
    requires IsVarint(s[i..e]) && WireType(s[i..e]) == 2
    requires IsVarint(s[e..v]) && Value(s[e..v]) == post - v
    ensures var q := Delimited(s[i..e], s[e..v], s[v..post]);
            StandsAt(s, i, q) && i + |Bytes(q)| == post
  {
    hide Value;
    var q := Delimited(s[i..e], s[e..v], s[v..post]);
    assert s[i..post] == s[i..e] + (s[e..v] + s[v..post]);
    assert Bytes(q) == s[i..post];
  }

  ghost predicate LengthFits(s: seq<byte>, pos: nat)
    requires pos <= |s|
  {
    var e := VarintEnd(s, pos, pos);
    e.Ok? && e.value + Value(s[pos..e.value]) <= |s|
  }

  lemma DelimitedStandsAt(s: seq<byte>, i: nat, e: nat, q: Record)
    requires i < e <= |s| && StandsAt(s, i, q) && q.Delimited? && IsVarint(s[i..e])
    ensures q.tag == s[i..e] && WireType(s[i..e]) == 2 && LengthFits(s, e)
  {
    hide Value, VarintEnd;
    TagStandsAt(s, i, q);
    VarintEndIff(s, i, i, e);
    Skip.SplitAt(s, i, q.tag, AfterTag(q));
    Skip.SplitAt(s, e, q.length, q.payload);
    Skip.VarintAt(s, e, q.length);
  }

  /** Rewinds to the tag and steps over one whole record. */
  method SkipUnknown(dAtA: Slice, preIndex: int64) returns (r: Result<int64>)
    requires 0 <= preIndex <= |dAtA|
    ensures r.Ok? ==> preIndex < r.value <= |dAtA| && Skip.IsRecord(dAtA[preIndex..r.value])
    ensures r.Err? ==> forall q :: !StandsAt(dAtA, preIndex, q)
  {
    hide Skip.Scan, Bytes, WellFormed;
    var rest := dAtA[preIndex..];
    var skipped := Skip.SkipRecord(rest);
    forall q | StandsAt(dAtA, preIndex, q)
      ensures skipped == Ok(|Bytes(q)|)
    {
      var n := |Bytes(q)|;
      assert rest[..n] == Bytes(q);
      assert Skip.IsRecord(rest[..n]);
    }
    if skipped.Err? {
      return Err(skipped.error);
    }
    var skippy: int64 := skipped.value;
    if skippy < 0 || Add64(preIndex, skippy) < 0 {
      return Err(InvalidLength);
    }
    if Add64(preIndex, skippy) > |dAtA| {
      return Err(UnexpectedEOF);
    }
    GuardsAreExact(preIndex, skippy, |dAtA|);
    r := Ok(Add64(preIndex, skippy));
    assert rest[..skippy] == dAtA[preIndex..r.value];
  }

  lemma RecordStandsAt(s: seq<byte>, i: nat, n: nat) returns (q: Record)
    requires i <= n <= |s| && Skip.IsRecord(s[i..n])
    ensures StandsAt(s, i, q) && i + |Bytes(q)| == n
  {
    q :| WellFormed(q) && Bytes(q) == s[i..n];
  }

  /** A nested payload that its own decoder refuses cannot be admitted. */
  lemma RefusedNested(schema: Schema, s: seq<byte>, i: nat, q: Record)
    requires StandsAt(s, i, q) && q.Delimited? && !EmptyAccepts(q.payload)
    requires FieldNumber(q.tag) in schema && schema[FieldNumber(q.tag)].Nested?
    ensures forall p :: StandsAt(s, i, p) ==> !Admits(schema, p)
  {
    forall p | StandsAt(s, i, p)
      ensures p == q
    {
      StandsAtUnique(s, i, p, q);
    }
  }
}
