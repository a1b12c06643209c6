/** What the codec is for: laws that relate marshalling, unmarshalling, and the different message
    types to one another.
 */
module Theorems {
  import opened Machine
  import opened Results
  import opened Varint
  import opened Wire
  import opened Decoding
  import opened Encoding
  import Skip

  // ----- What is accepted, and what it means -------------------------------------------------

  /** `MsgUpdateParams` accepts exactly the inputs that split into records with positive field
      numbers, of which fields 1 and 2 are length-delimited and every field 2 is accepted by
      `Params`; the authority is then the last field 1, or the old one if there is none. */
  lemma MsgUpdateParamsAccepts(text: seq<byte>, s: seq<byte>, authority: seq<byte>)
    ensures Decode(MSG_UPDATE_PARAMS, text, s) == Some(authority) <==>
              exists rs: seq<Record> ::
                && Parses(s, rs)
                && (forall r :: r in rs ==>
                     && FieldNumber(r.tag) > 0
                     && (FieldNumber(r.tag) in {1, 2} ==> r.Delimited?)
                     && (FieldNumber(r.tag) == 2 ==> EmptyAccepts(r.payload)))
                && ((exists k :: 0 <= k < |rs| && FieldNumber(rs[k].tag) == 1 && rs[k].Delimited?
                                && rs[k].payload == authority
                                && forall j :: k < j < |rs| ==> FieldNumber(rs[j].tag) != 1)
                    || (authority == text && forall r :: r in rs ==> FieldNumber(r.tag) != 1))
  {
    hide Parses, Decode, Admits, EmptyAccepts;
    AcceptsExactly(MSG_UPDATE_PARAMS, text, s, authority);
    forall rs | Parses(s, rs) {
      MsgUpdateParamsAdmits(rs);
    }
  }

  /** `Module` accepts the same without the demands on field 2, and gives the same authority. */
  lemma ModuleAccepts(text: seq<byte>, s: seq<byte>, authority: seq<byte>)
    ensures Decode(MODULE, text, s) == Some(authority) <==>
              exists rs: seq<Record> ::
                && Parses(s, rs)
                && (forall r :: r in rs ==>
                     && FieldNumber(r.tag) > 0
                     && (FieldNumber(r.tag) == 1 ==> r.Delimited?))
                && ((exists k :: 0 <= k < |rs| && FieldNumber(rs[k].tag) == 1 && rs[k].Delimited?
                                && rs[k].payload == authority
                                && forall j :: k < j < |rs| ==> FieldNumber(rs[j].tag) != 1)
                    || (authority == text && forall r :: r in rs ==> FieldNumber(r.tag) != 1))
  {
    hide Parses, Decode, Admits, EmptyAccepts;
    AcceptsExactly(MODULE, text, s, authority);
    forall rs | Parses(s, rs) {
      ModuleAdmits(rs);
    }
  }

  lemma MsgUpdateParamsAdmits(rs: seq<Record>)
    ensures AllAdmitted(MSG_UPDATE_PARAMS, rs) <==> forall r :: r in rs ==>
              && FieldNumber(r.tag) > 0
              && (FieldNumber(r.tag) in {1, 2} ==> r.Delimited?)
              && (FieldNumber(r.tag) == 2 ==> EmptyAccepts(r.payload))
  {
  }

  lemma ModuleAdmits(rs: seq<Record>)
    ensures AllAdmitted(MODULE, rs) <==> forall r :: r in rs ==>
              && FieldNumber(r.tag) > 0
              && (FieldNumber(r.tag) == 1 ==> r.Delimited?)
  {
  }

  ghost predicate IsAuthority(text: seq<byte>, rs: seq<Record>, authority: seq<byte>) {
    || (exists k :: 0 <= k < |rs| && FieldNumber(rs[k].tag) == 1 && rs[k].Delimited?
                    && rs[k].payload == authority
                    && forall j :: k < j < |rs| ==> FieldNumber(rs[j].tag) != 1)
    || (authority == text && forall r :: r in rs ==> FieldNumber(r.tag) != 1)
  }

  lemma AcceptsExactly(schema: Schema, text: seq<byte>, s: seq<byte>, authority: seq<byte>)
    requires schema == MSG_UPDATE_PARAMS || schema == MODULE
    ensures Decode(schema, text, s) == Some(authority) <==>
              exists rs :: Parses(s, rs) && AllAdmitted(schema, rs) && IsAuthority(text, rs, authority)
  {
    hide Parses, Decode, AllAdmitted, IsAuthority;
    if Decode(schema, text, s).Some? {
      var rs := ParseOfDecoded(schema, text, s);
      AuthorityOfParse(schema, text, s, rs, authority);
    }
    forall rs | Parses(s, rs) && AllAdmitted(schema, rs)
      ensures Decode(schema, text, s) == Some(authority) <==> IsAuthority(text, rs, authority)
    {
      AuthorityOfParse(schema, text, s, rs, authority);
    }
  }

  lemma AuthorityOfParse(
    schema: Schema, text: seq<byte>, s: seq<byte>, rs: seq<Record>, authority: seq<byte>)
    requires schema == MSG_UPDATE_PARAMS || schema == MODULE
    requires Parses(s, rs) && AllAdmitted(schema, rs)
    ensures Decode(schema, text, s) == Some(authority) <==> IsAuthority(text, rs, authority)
  {
    hide WellFormed, Bytes, StoreAll, Admits;
    DecodeOfParse(schema, text, s, rs);
    var k := LastFieldOne(rs);
    if k < |rs| {
      LastFieldIsAuthority(schema, text, s, rs, k);
      assert rs[k] in rs;
    } else {
      NoFieldKeepsAuthority(schema, text, s, rs);
    }
  }

  lemma {:induction false} LastFieldOne(rs: seq<Record>) returns (k: nat)
    ensures k <= |rs| && (k < |rs| ==> FieldNumber(rs[k].tag) == 1)
    ensures forall j :: 0 <= j < |rs| && (k < j || k == |rs|) ==> FieldNumber(rs[j].tag) != 1
  {
    if rs == [] || FieldNumber(rs[|rs| - 1].tag) == 1 {
      k := if rs == [] then 0 else |rs| - 1;
    } else {
      k := LastFieldOne(rs[..|rs| - 1]);
      k := if k == |rs| - 1 then |rs| else k;
    }
  }

  /** `GenesisState` and `QueryParamsResponse` accept exactly the inputs in which every field 1 is
      length-delimited and accepted by `Params`. */
  lemma ParamsFieldAccepts(schema: Schema, s: seq<byte>)
    requires schema == GENESIS_STATE || schema == QUERY_PARAMS_RESPONSE
    ensures Decode(schema, [], s).Some? <==>
              exists rs :: Parses(s, rs) && forall r: Record :: r in rs ==>
                && FieldNumber(r.tag) > 0
                && (FieldNumber(r.tag) == 1 ==> r.Delimited? && EmptyAccepts(r.payload))
  {
    hide WellFormed, Bytes, StoreAll;
    if Decode(schema, [], s).Some? {
      var rs := ParseOfDecoded(schema, [], s);
    }
  }

  /** The last field 1 of an accepted input is the authority, empty or not. */
  lemma LastFieldIsAuthority(schema: Schema, text: seq<byte>, s: seq<byte>, rs: seq<Record>, k: nat)
    requires schema == MSG_UPDATE_PARAMS || schema == MODULE
    requires Parses(s, rs) && Decode(schema, text, s).Some?
    requires k < |rs| && FieldNumber(rs[k].tag) == 1
    requires forall j :: k < j < |rs| ==> FieldNumber(rs[j].tag) != 1
    ensures rs[k].Delimited? && Decode(schema, text, s) == Some(rs[k].payload)
  {
    hide WellFormed, Bytes;
    DecodeOfParse(schema, text, s, rs);
    LastOneWins(schema, text, rs, k);
  }

  /** Without a field 1 the authority stays what it was. */
  lemma NoFieldKeepsAuthority(schema: Schema, text: seq<byte>, s: seq<byte>, rs: seq<Record>)
    requires schema == MSG_UPDATE_PARAMS || schema == MODULE
    requires Parses(s, rs) && Decode(schema, text, s).Some?
    requires forall r :: r in rs ==> FieldNumber(r.tag) != 1
    ensures Decode(schema, text, s) == Some(text)
  {
    hide WellFormed, Bytes;
    DecodeOfParse(schema, text, s, rs);
    LastOneWins(schema, text, rs, |rs|);
  }

  // ----- Concatenation is merging ------------------------------------------------------------

  /** From a record boundary on, decoding goes on as if it started there with the updated text. */
  lemma DecodeFromBoundary(
    schema: Schema, text: seq<byte>, s: seq<byte>, rs: seq<Record>, t: seq<byte>)
    requires Parses(s, rs)
    ensures Decode(schema, text, s + t)
         == if AllAdmitted(schema, rs) then Decode(schema, StoreAll(schema, text, rs), t) else None
  {
    hide WellFormed, Bytes, Admits, Store, StoreAll;
    var mid := StoreAll(schema, text, rs);
    if AllAdmitted(schema, rs) && Decode(schema, mid, t).Some? {
      var ts := ParseOfDecoded(schema, mid, t);
      FlattenAppend(rs, ts);
      DecodeOfParse(schema, text, s + t, rs + ts);
      StoreAllAppend(schema, text, rs, ts);
    } else if Decode(schema, text, s + t).Some? {
      var us := ParseOfDecoded(schema, text, s + t);
      PrefixParse(rs, us, t);
    }
  }

  /** Decoding a concatenation is decoding the parts one after the other into the same message. */
  lemma ConcatenationMerges(schema: Schema, text: seq<byte>, s: seq<byte>, t: seq<byte>)
    requires Decode(schema, text, s).Some?
    ensures Decode(schema, text, s + t) == Decode(schema, Decode(schema, text, s).value, t)
  {
    var rs := ParseOfDecoded(schema, text, s);
    DecodeFromBoundary(schema, text, s, rs, t);
  }

  // ----- Unknown fields ----------------------------------------------------------------------

  /** A record of an unknown field, put in at any record boundary, changes nothing: accepted inputs
      stay accepted with the same result, and refused inputs stay refused. */
  lemma UnknownFieldsAreTransparent(
    schema: Schema, text: seq<byte>, s: seq<byte>, rs: seq<Record>, u: Record, t: seq<byte>)
    requires Parses(s, rs)
    requires WellFormed(u) && FieldNumber(u.tag) > 0 && FieldNumber(u.tag) !in schema
    ensures Decode(schema, text, s + Bytes(u) + t) == Decode(schema, text, s + t)
  {
    hide WellFormed, Bytes, StoreAll, Decode;
    var mid := StoreAll(schema, text, rs);
    assert s + Bytes(u) + t == s + (Bytes(u) + t);
    DecodeFromBoundary(schema, text, s, rs, Bytes(u) + t);
    DecodeFromBoundary(schema, text, s, rs, t);
    FlattenOne(u);
    DecodeFromBoundary(schema, mid, Bytes(u), [u], t);
    NoTextStored(schema, mid, [u]);
  }

  /** The tag that closes a group is free: any end tag may replace it. */
  lemma GroupEndIsNotMatched(
    schema: Schema, text: seq<byte>, tag: seq<byte>, body: seq<Record>, close: seq<byte>)
    requires IsVarint(tag) && WireType(tag) == 3 && AllWellFormed(body) && IsEndTag(close)
    requires FieldNumber(tag) > 0 && FieldNumber(tag) !in schema
    ensures Decode(schema, text, tag + Flatten(body) + close) == Some(text)
  {
    hide Decode, Value;
    var g := Group(tag, body, close);
    assert Bytes(g) == tag + Flatten(body) + close;
    var none: seq<byte> := [];
    UnknownFieldsAreTransparent(schema, text, none, [], g, none);
    assert none + Bytes(g) + none == Bytes(g) && none + none == none;
    DecodeOfParse(schema, text, none, []);
  }

  // ----- Messages of different types ---------------------------------------------------------

  ghost predicate Narrows(sub: Schema, schema: Schema) {
    forall f :: f in sub ==> f in schema && sub[f] == schema[f]
  }

  /** A decoder that knows more fields accepts what a decoder that knows fewer accepts, as long as
      the records of the extra fields are in order. */
  lemma NarrowingIsExact(sub: Schema, schema: Schema, text: seq<byte>, s: seq<byte>, rs: seq<Record>)
    requires Narrows(sub, schema) && Parses(s, rs)
    ensures Decode(schema, text, s).Some? <==>
              Decode(sub, text, s).Some? &&
              forall r :: r in rs && FieldNumber(r.tag) in schema && FieldNumber(r.tag) !in sub ==> Admits(schema, r)
  {
    DecodeOfParse(schema, text, s, rs);
    DecodeOfParse(sub, text, s, rs);
  }

  lemma {:induction false} SameText(sub: Schema, schema: Schema, text: seq<byte>, rs: seq<Record>)
    requires Narrows(sub, schema) && forall f :: f in schema && schema[f].Text? ==> f in sub
    ensures StoreAll(schema, text, rs) == StoreAll(sub, text, rs)
    decreases rs
  {
    if rs != [] {
      SameText(sub, schema, Store(sub, text, rs[0]), rs[1..]);
    }
  }

  /** Whatever `MsgUpdateParams` accepts, `Module` accepts with the same authority, stepping over
      field 2, and the empty messages accept too. */
  lemma MsgUpdateParamsReadsAsModule(text: seq<byte>, s: seq<byte>)
    requires Decode(MSG_UPDATE_PARAMS, text, s).Some?
    ensures Decode(MODULE, text, s) == Decode(MSG_UPDATE_PARAMS, text, s)
    ensures EmptyAccepts(s)
  {
    var rs := ParseOfDecoded(MSG_UPDATE_PARAMS, text, s);
    NarrowingIsExact(MODULE, MSG_UPDATE_PARAMS, text, s, rs);
    NarrowingIsExact(PARAMS, MODULE, text, s, rs);
    SameText(MODULE, MSG_UPDATE_PARAMS, text, rs);
    DecodeOfParse(MODULE, text, s, rs);
    EmptySchema(text, s);
  }

  /** The converse fails: field 2 may be anything for `Module`. */
  lemma ModuleAcceptsMore()
    ensures Decode(MODULE, [], [0x10, 0x00]).Some?
    ensures Decode(MSG_UPDATE_PARAMS, [], [0x10, 0x00]).None?
  {
    var r := VarintRecord([0x10], [0x00]);
    OneByteTag(0x10);
    FlattenOne(r);
    assert Parses([0x10, 0x00], [r]);
    DecodeOfParse(MODULE, [], [0x10, 0x00], [r]);
    DecodeOfParse(MSG_UPDATE_PARAMS, [], [0x10, 0x00], [r]);
    assert r in [r] && !Admits(MSG_UPDATE_PARAMS, r);
  }

  lemma OneByteTag(tag: byte)
    requires tag < 0x80
    ensures IsVarint([tag]) && Value([tag]) == tag
    ensures WireType([tag]) == tag % 8 && FieldNumber([tag]) == tag / 8
  {
    assert [tag][1..] == [];
    assert Weight([tag]) == tag;
  }

  // ----- Round trips -------------------------------------------------------------------------

  lemma FieldReadsBack(tag: byte, payload: Slice)
    requires tag == TAG_FIELD_1 || tag == TAG_FIELD_2
    ensures WellFormed(Field(tag, payload))
    ensures FieldNumber(Field(tag, payload).tag) == if tag == TAG_FIELD_1 then 1 else 2
  {
    OneByteTag(tag);
    EncodeIsVarint(|payload|);
  }

  lemma EmptyIsAccepted()
    ensures EmptyAccepts([])
  {
    assert Parses([], []) && AllPositive([]);
  }

  /** Decoding a marshalled `MsgUpdateParams` into any message succeeds and sets its authority,
      except that an empty authority, which is not written, leaves the old one in place. */
  lemma MsgUpdateParamsRoundTrip(authority: Slice, target: seq<byte>)
    ensures Decode(MSG_UPDATE_PARAMS, target, MsgUpdateParamsBytes(authority))
         == Some(if authority == [] then target else authority)
  {
    hide WellFormed, Bytes;
    FieldReadsBack(TAG_FIELD_1, authority);
    FieldReadsBack(TAG_FIELD_2, []);
    EmptyIsAccepted();
    var params := Field(TAG_FIELD_2, []);
    var rs := TextRecords(authority) + [params];
    DecodeOfParse(MSG_UPDATE_PARAMS, target, MsgUpdateParamsBytes(authority), rs);
    StoreAllAppend(MSG_UPDATE_PARAMS, target, TextRecords(authority), [params]);
    StoreOne(MSG_UPDATE_PARAMS, target, Field(TAG_FIELD_1, authority));
    StoreOne(MSG_UPDATE_PARAMS, StoreAll(MSG_UPDATE_PARAMS, target, TextRecords(authority)), params);
  }

  lemma StoreOne(schema: Schema, text: seq<byte>, r: Record)
    ensures StoreAll(schema, text, [r]) == Store(schema, text, r)
  {
    assert [r][1..] == [];
  }

  lemma ModuleRoundTrip(authority: Slice, target: seq<byte>)
    ensures Decode(MODULE, target, ModuleBytes(authority))
         == Some(if authority == [] then target else authority)
  {
    hide WellFormed, Bytes;
    FieldReadsBack(TAG_FIELD_1, authority);
    DecodeOfParse(MODULE, target, ModuleBytes(authority), TextRecords(authority));
    StoreOne(MODULE, target, Field(TAG_FIELD_1, authority));
  }

  /** The round trip restores the message exactly when it wrote its authority or the target had none. */
  lemma RoundTripRestores(authority: Slice, target: seq<byte>)
    ensures Decode(MSG_UPDATE_PARAMS, target, MsgUpdateParamsBytes(authority)) == Some(authority)
       <==> authority != [] || target == []
  {
    MsgUpdateParamsRoundTrip(authority, target);
  }

  /** Different messages have different encodings. */
  lemma MarshalIsInjective(a: Slice, b: Slice)
    ensures MsgUpdateParamsBytes(a) == MsgUpdateParamsBytes(b) ==> a == b
    ensures ModuleBytes(a) == ModuleBytes(b) ==> a == b
  {
    hide Decode, MsgUpdateParamsBytes, ModuleBytes;
    MsgUpdateParamsRoundTrip(a, []);
    MsgUpdateParamsRoundTrip(b, []);
    ModuleRoundTrip(a, []);
    ModuleRoundTrip(b, []);
  }

  /** Concatenating two encodings merges the messages: the last authority that was set wins. */
  lemma EncodingsMerge(a: Slice, b: Slice)
    ensures Decode(MSG_UPDATE_PARAMS, [], MsgUpdateParamsBytes(a) + MsgUpdateParamsBytes(b))
         == Some(if b == [] then a else b)
  {
    hide Decode, MsgUpdateParamsBytes;
    MsgUpdateParamsRoundTrip(a, []);
    MsgUpdateParamsRoundTrip(b, a);
    ConcatenationMerges(MSG_UPDATE_PARAMS, [], MsgUpdateParamsBytes(a), MsgUpdateParamsBytes(b));
  }

  /** `GenesisState` and `QueryParamsResponse` read each other's bytes, and the same inputs. */
  lemma GenesisAndQueryAreWireIdentical(s: seq<byte>)
    ensures Decode(GENESIS_STATE, [], s) == Decode(QUERY_PARAMS_RESPONSE, [], s)
    ensures Decode(GENESIS_STATE, [], ParamsFieldBytes()) == Some([])
    ensures Decode(QUERY_PARAMS_RESPONSE, [], ParamsFieldBytes()) == Some([])
  {
    hide WellFormed, Bytes;
    var params := Field(TAG_FIELD_1, []);
    FieldReadsBack(TAG_FIELD_1, []);
    EmptyIsAccepted();
    DecodeOfParse(GENESIS_STATE, [], ParamsFieldBytes(), [params]);
    StoreOne(GENESIS_STATE, [], params);
  }

  // ----- Canonical form ----------------------------------------------------------------------

  /** Decode-then-encode is an idempotent canonicalisation: it keeps the meaning, and doing it again
      changes nothing. */
  lemma CanonicalIsIdempotent(s: Slice)
    requires Decode(MSG_UPDATE_PARAMS, [], s).Some?
    ensures var canonical := MsgUpdateParamsBytes(Decode(MSG_UPDATE_PARAMS, [], s).value);
            && Decode(MSG_UPDATE_PARAMS, [], canonical) == Decode(MSG_UPDATE_PARAMS, [], s)
            && MsgUpdateParamsBytes(Decode(MSG_UPDATE_PARAMS, [], canonical).value) == canonical
            && |canonical| <= |s| + 2
  {
    hide Decode, MsgUpdateParamsBytes, ModuleBytes;
    DecodedFits(MSG_UPDATE_PARAMS, s);
    var text := Decode(MSG_UPDATE_PARAMS, [], s).value;
    MsgUpdateParamsRoundTrip(text, []);
    MsgUpdateParamsReadsAsModule([], s);
    ModuleEncodingIsShortest(s);
    EncodedForms(text);
    FieldBytes(TAG_FIELD_2, []);
    SovIsEncodedSize(0);
  }

  /** Where the decoded text came from. */
  lemma {:induction false} TextSource(schema: Schema, text: seq<byte>, rs: seq<Record>) returns (k: nat)
    ensures k <= |rs|
    ensures k < |rs| ==> IsText(schema, rs[k]) && StoreAll(schema, text, rs) == rs[k].payload
    ensures k == |rs| ==> StoreAll(schema, text, rs) == text
    decreases rs
  {
    if rs == [] {
      k := 0;
    } else {
      k := TextSource(schema, Store(schema, text, rs[0]), rs[1..]);
      k := if k == |rs| - 1 && IsText(schema, rs[0]) then 0 else k + 1;
    }
  }

  /** A text record is no shorter than the marshalled field. */
  lemma RecordOutweighsField(r: Record)
    requires WellFormed(r) && r.Delimited? && |r.payload| <= MAX_INT
    ensures |Bytes(Field(TAG_FIELD_1, r.payload))| <= |Bytes(r)|
  {
    hide Value, Encode;
    FieldBytes(TAG_FIELD_1, r.payload);
    SovIsEncodedSize(|r.payload|);
    EncodeIsShortest(r.length);
  }

  lemma {:induction false} RecordFits(rs: seq<Record>, k: nat)
    requires k < |rs|
    ensures |Bytes(rs[k])| <= |Flatten(rs)|
  {
    if k > 0 {
      RecordFits(rs[1..], k - 1);
    }
  }

  lemma DecodedFits(schema: Schema, s: seq<byte>)
    requires Decode(schema, [], s).Some?
    ensures |Decode(schema, [], s).value| <= |s|
  {
    hide Decode, WellFormed;
    var rs := ParseOfDecoded(schema, [], s);
    var k := TextSource(schema, [], rs);
    if k < |rs| {
      RecordFits(rs, k);
    }
  }

  /** Among all inputs that decode to the same `Module`, the marshalled form is the shortest. */
  lemma ModuleEncodingIsShortest(s: Slice)
    requires Decode(MODULE, [], s).Some?
    ensures |ModuleBytes(Decode(MODULE, [], s).value)| <= |s|
  {
    hide Decode, Bytes, WellFormed;
    var text := Decode(MODULE, [], s).value;
    DecodedFits(MODULE, s);
    EncodedForms(text);
    var rs := ParseOfDecoded(MODULE, [], s);
    var k := TextSource(MODULE, [], rs);
    if k < |rs| {
      assert rs[k] in rs;
      RecordFits(rs, k);
      RecordOutweighsField(rs[k]);
    }
  }

  // ----- The skipper -------------------------------------------------------------------------

  /** What follows a record has no influence on how it is skipped. */
  lemma SkipIgnoresSuffix(p: seq<byte>, t: seq<byte>)
    requires Skip.IsRecord(p) && |p + t| <= MAX_INT
    ensures Skip.Scan(p + t, 0, 0) == Ok(|p|)
  {
    hide Skip.Scan, WellFormed, Bytes;
    assert (p + t)[..|p|] == p;
    Skip.ScanIffRecord(p + t, |p|);
  }
}
