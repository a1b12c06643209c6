/** What a byte string means to a message type: the reference for every `Unmarshal`.

    A schema says which fields a message has. All messages of this module carry at most one text
    field, and their nested messages are the empty `Params`, so the state that decoding updates is
    one text.
 */
module Decoding {
  import opened Machine
  import opened Results
  import opened Varint
  import opened Wire

  datatype Kind = Text | Nested
  type Schema = map<int, Kind>

  /** The schema of `Params`, and of the equally empty `MsgUpdateParamsResponse` and
      `QueryParamsRequest`. */
  const PARAMS: Schema := map[]
  const MODULE: Schema := map[1 := Text]
  const MSG_UPDATE_PARAMS: Schema := map[1 := Text, 2 := Nested]
  const GENESIS_STATE: Schema := map[1 := Nested]
  const QUERY_PARAMS_RESPONSE: Schema := map[1 := Nested]

  /** A message without fields accepts any records with positive field numbers. */
  ghost predicate EmptyAccepts(s: seq<byte>) {
    exists rs :: Parses(s, rs) && AllPositive(rs)
  }

  ghost predicate AllPositive(rs: seq<Record>) {
    forall r :: r in rs ==> FieldNumber(r.tag) > 0
  }

  lemma EmptyAcceptsIff(s: seq<byte>)
    ensures EmptyAccepts(s) <==>
              exists rs :: Parses(s, rs) && forall r: Record :: r in rs ==> FieldNumber(r.tag) > 0
  {
    hide Parses;
    if exists rs :: Parses(s, rs) && forall r: Record :: r in rs ==> FieldNumber(r.tag) > 0 {
      var rs :| Parses(s, rs) && forall r: Record :: r in rs ==> FieldNumber(r.tag) > 0;
      assert AllPositive(rs);
    }
  }

  ghost predicate Admits(schema: Schema, r: Record) {
    var f := FieldNumber(r.tag);
    && f > 0
    && (f in schema ==> r.Delimited? && (schema[f].Nested? ==> EmptyAccepts(r.payload)))
  }

  ghost predicate AllAdmitted(schema: Schema, rs: seq<Record>) {
    forall r :: r in rs ==> Admits(schema, r)
  }

  predicate IsText(schema: Schema, r: Record) {
    r.Delimited? && FieldNumber(r.tag) in schema && schema[FieldNumber(r.tag)].Text?
  }

  function Store(schema: Schema, text: seq<byte>, r: Record): seq<byte> {
    if IsText(schema, r) then r.payload else text
  }

  function StoreAll(schema: Schema, text: seq<byte>, rs: seq<Record>): seq<byte>
    decreases rs
  {
    if rs == [] then text else StoreAll(schema, Store(schema, text, rs[0]), rs[1..])
  }

  /** The text after decoding s into a message that held `text`, or None if s is rejected. */
  ghost function Decode(schema: Schema, text: seq<byte>, s: seq<byte>): Option<seq<byte>> {
    if exists rs :: Parses(s, rs) && AllAdmitted(schema, rs) then
      var rs :| Parses(s, rs) && AllAdmitted(schema, rs);
      Some(StoreAll(schema, text, rs))
    else None
  }

  /** Decoding can be read off the one and only parse. */
  lemma DecodeOfParse(schema: Schema, text: seq<byte>, s: seq<byte>, rs: seq<Record>)
    requires Parses(s, rs)
    ensures Decode(schema, text, s)
         == if AllAdmitted(schema, rs) then Some(StoreAll(schema, text, rs)) else None
  {
    forall us | Parses(s, us)
      ensures us == rs
    {
      ParseUnique(s, rs, us);
    }
  }

  lemma ParseOfDecoded(schema: Schema, text: seq<byte>, s: seq<byte>) returns (rs: seq<Record>)
    requires Decode(schema, text, s).Some?
    ensures Parses(s, rs) && AllAdmitted(schema, rs)
    ensures Decode(schema, text, s) == Some(StoreAll(schema, text, rs))
  {
    rs :| Parses(s, rs) && AllAdmitted(schema, rs);
    DecodeOfParse(schema, text, s, rs);
  }

  /** The empty message's decoder is the schema without fields. */
  lemma EmptySchema(text: seq<byte>, s: seq<byte>)
    ensures Decode(PARAMS, text, s) == if EmptyAccepts(s) then Some(text) else None
  {
    if EmptyAccepts(s) {
      var rs :| Parses(s, rs) && AllPositive(rs);
      DecodeOfParse(PARAMS, text, s, rs);
      NoTextStored(PARAMS, text, rs);
    } else if Decode(PARAMS, text, s).Some? {
      var rs := ParseOfDecoded(PARAMS, text, s);
      assert AllPositive(rs);
    }
  }

  lemma {:induction false} NoTextStored(schema: Schema, text: seq<byte>, rs: seq<Record>)
    requires forall r :: r in rs ==> !IsText(schema, r)
    ensures StoreAll(schema, text, rs) == text
  {
    if rs != [] {
      assert rs[0] in rs;
      NoTextStored(schema, text, rs[1..]);
    }
  }

  lemma {:induction false} StoreAllAppend(schema: Schema, text: seq<byte>, rs: seq<Record>, ts: seq<Record>)
    ensures StoreAll(schema, text, rs + ts) == StoreAll(schema, StoreAll(schema, text, rs), ts)
    decreases rs
  {
    if rs == [] {
      assert rs + ts == ts;
    } else {
      assert (rs + ts)[1..] == rs[1..] + ts;
      StoreAllAppend(schema, Store(schema, text, rs[0]), rs[1..], ts);
    }
  }

  /** Last one wins: the text is the payload of the last text field, empty or not, and stays what it
      was if there is none. */
  lemma {:induction false} LastOneWins(schema: Schema, text: seq<byte>, rs: seq<Record>, k: nat)
    requires AllAdmitted(schema, rs) && k <= |rs|
    requires k < |rs| ==> FieldNumber(rs[k].tag) in schema && schema[FieldNumber(rs[k].tag)] == Text
    requires forall j :: 0 <= j < |rs| && (k < j || k == |rs|) ==>
               !(FieldNumber(rs[j].tag) in schema && schema[FieldNumber(rs[j].tag)] == Text)
    ensures k < |rs| ==> rs[k].Delimited? && StoreAll(schema, text, rs) == rs[k].payload
    ensures k == |rs| ==> StoreAll(schema, text, rs) == text
    decreases rs
  {
    if rs != [] {
      assert rs[0] in rs;
      var rest := rs[1..];
      assert forall j :: 0 <= j < |rest| ==> rest[j] == rs[j + 1];
      LastOneWins(schema, Store(schema, text, rs[0]), rest, if k == 0 then |rest| else k - 1);
    }
  }

  // ----- A decoder's progress ----------------------------------------------------------------

  /** The decoder stands at i, having read the records rs and updated its text. */
  ghost predicate Progress(
    schema: Schema, text0: seq<byte>, s: seq<byte>, i: nat, rs: seq<Record>, text: seq<byte>)
  {
    && i <= |s|
    && Parses(s[..i], rs)
    && AllAdmitted(schema, rs)
    && text == StoreAll(schema, text0, rs)
  }

  lemma Start(schema: Schema, text0: seq<byte>, s: seq<byte>)
    ensures Progress(schema, text0, s, 0, [], text0)
  {
  }

  lemma Advance(
    schema: Schema, text0: seq<byte>, s: seq<byte>, i: nat, rs: seq<Record>, text: seq<byte>, r: Record)
    requires Progress(schema, text0, s, i, rs, text)
    requires StandsAt(s, i, r) && Admits(schema, r)
    ensures Progress(schema, text0, s, i + |Bytes(r)|, rs + [r], Store(schema, text, r))
  {
    hide WellFormed, Bytes, Admits, Store;
    FlattenAppend(rs, [r]);
    FlattenOne(r);
    StoreAllAppend(schema, text0, rs, [r]);
    assert StoreAll(schema, text, [r]) == Store(schema, text, r);
    assert s[..i + |Bytes(r)|] == s[..i] + s[i..i + |Bytes(r)|];
  }

  /** When no admissible record stands where the decoder is, there is no decoding. */
  lemma Stuck(
    schema: Schema, text0: seq<byte>, s: seq<byte>, i: nat, rs: seq<Record>, text: seq<byte>)
    requires Progress(schema, text0, s, i, rs, text) && i < |s|
    requires forall q :: StandsAt(s, i, q) ==> !Admits(schema, q)
    ensures Decode(schema, text0, s) == None
  {
    hide WellFormed, Bytes, Admits;
    if Decode(schema, text0, s).Some? {
      var us := ParseOfDecoded(schema, text0, s);
      assert s == Flatten(rs) + s[i..];
      PrefixParse(rs, us, s[i..]);
      var ts := us[|rs|..];
      assert ts != [];
      var q := ts[0];
      assert q == us[|rs|];
      HeadStandsAt(s, i, ts);
    }
  }

  lemma HeadStandsAt(s: seq<byte>, i: nat, ts: seq<Record>)
    requires i <= |s| && ts != [] && Parses(s[i..], ts)
    ensures StandsAt(s, i, ts[0])
  {
    hide WellFormed, Bytes;
    assert ts[0] in ts;
    var b := Bytes(ts[0]);
    assert s[i..] == b + Flatten(ts[1..]);
    assert s[i..i + |b|] == s[i..][..|b|] == b;
  }

  lemma Finish(schema: Schema, text0: seq<byte>, s: seq<byte>, rs: seq<Record>, text: seq<byte>)
    requires Progress(schema, text0, s, |s|, rs, text)
    ensures Decode(schema, text0, s) == Some(text)
  {
    assert s[..|s|] == s;
    DecodeOfParse(schema, text0, s, rs);
  }
}
