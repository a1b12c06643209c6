/** The wire format as a grammar: a record is a tree, and a message is a list of records.

    This is the reference against which the parsing loops are proved. It is more liberal than the
    Protocol Buffers guide where the code is: tags and lengths may be spelled with redundant bytes,
    and the tag that closes a group is not compared with the one that opened it.
 */
module Wire {
  import opened Machine
  import opened Results
  import opened Varint

  datatype Record =
    | VarintRecord(tag: seq<byte>, payload: seq<byte>)
    | Fixed64(tag: seq<byte>, payload: seq<byte>)
    | Delimited(tag: seq<byte>, length: seq<byte>, payload: seq<byte>)
    | Group(tag: seq<byte>, body: seq<Record>, close: seq<byte>)
    | Fixed32(tag: seq<byte>, payload: seq<byte>)

  function WireType(tag: seq<byte>): nat {
    Value(tag) % 8
  }

  /** `int32(wire >> 3)` */
  function FieldNumber(tag: seq<byte>): int {
    ToInt32(Value(tag) / 8)
  }

  /** The wire type is the low three bits of the first byte. */
  lemma WireTypeIsLowBits(tag: seq<byte>)
    requires tag != []
    ensures WireType(tag) == tag[0] % 8
  {
    var rest := Weight(tag[1..]);
    var q := Weight(tag) / 0x1_0000_0000_0000_0000;
    assert Value(tag) == tag[0] % 0x80 + 0x80 * rest - 0x1_0000_0000_0000_0000 * q;
  }

  /** The field number is the 32-bit two's-complement number congruent to the rest of the tag. */
  lemma FieldNumberIsInt32(tag: seq<byte>)
    ensures -0x8000_0000 <= FieldNumber(tag) < 0x8000_0000
    ensures (Value(tag) / 8 - FieldNumber(tag)) % 0x1_0000_0000 == 0
  {
  }

  /** Every field number and wire type can be read back from the tag that is made of them. */
  lemma TagReadsBack(field: nat, wireType: nat)
    requires wireType < 8 && field < 0x2000_0000_0000_0000
    ensures IsVarint(Encode(8 * field + wireType))
    ensures WireType(Encode(8 * field + wireType)) == wireType
    ensures field < 0x8000_0000 ==> FieldNumber(Encode(8 * field + wireType)) == field
  {
    EncodeIsVarint(8 * field + wireType);
  }

  predicate WellFormed(r: Record) {
    && IsVarint(r.tag)
    && match r
       case VarintRecord(tag, payload) => WireType(tag) == 0 && IsVarint(payload)
       case Fixed64(tag, payload) => WireType(tag) == 1 && |payload| == 8
       case Delimited(tag, length, payload) =>
         WireType(tag) == 2 && IsVarint(length) && Value(length) == |payload|
       case Group(tag, body, close) =>
         WireType(tag) == 3 && (forall x :: x in body ==> WellFormed(x)) && IsEndTag(close)
       case Fixed32(tag, payload) => WireType(tag) == 5 && |payload| == 4
  }

  predicate IsEndTag(p: seq<byte>) {
    IsVarint(p) && WireType(p) == 4
  }

  function Bytes(r: Record): seq<byte>
    decreases r, 1
  {
    r.tag + AfterTag(r)
  }

  function AfterTag(r: Record): seq<byte>
    decreases r, 0
  {
    match r
    case VarintRecord(_, payload) => payload
    case Fixed64(_, payload) => payload
    case Delimited(_, length, payload) => length + payload
    case Group(_, body, close) => Flatten(body) + close
    case Fixed32(_, payload) => payload
  }

  function Flatten(rs: seq<Record>): seq<byte>
    decreases rs
  {
    if rs == [] then [] else Bytes(rs[0]) + Flatten(rs[1..])
  }

  ghost predicate AllWellFormed(rs: seq<Record>) {
    forall x :: x in rs ==> WellFormed(x)
  }

  /** The bytes s are the records rs, one after the other. */
  ghost predicate Parses(s: seq<byte>, rs: seq<Record>) {
    AllWellFormed(rs) && Flatten(rs) == s
  }

  /** The record r stands in s at position i. */
  ghost predicate StandsAt(s: seq<byte>, i: nat, r: Record) {
    && WellFormed(r)
    && i + |Bytes(r)| <= |s|
    && s[i..i + |Bytes(r)|] == Bytes(r)
  }

  lemma RecordSize(r: Record)
    requires WellFormed(r)
    ensures |Bytes(r)| >= 2
  {
  }

  lemma {:induction false} FlattenAppend(rs: seq<Record>, ts: seq<Record>)
    ensures Flatten(rs + ts) == Flatten(rs) + Flatten(ts)
  {
    if rs == [] {
      assert rs + ts == ts;
    } else {
      var all, b := rs + ts, Bytes(rs[0]);
      assert all[0] == rs[0] && all[1..] == rs[1..] + ts;
      FlattenAppend(rs[1..], ts);
      assert b + (Flatten(rs[1..]) + Flatten(ts)) == b + Flatten(rs[1..]) + Flatten(ts);
    }
  }

  lemma FlattenCons(rs: seq<Record>, t: seq<byte>)
    requires rs != [] && AllWellFormed(rs)
    ensures WellFormed(rs[0]) && AllWellFormed(rs[1..])
    ensures Flatten(rs) + t == Bytes(rs[0]) + (Flatten(rs[1..]) + t)
  {
    assert rs[0] in rs;
  }

  lemma FlattenOne(r: Record)
    ensures Flatten([r]) == Bytes(r)
  {
    assert Flatten([r][1..]) == [];
  }

  lemma TagFirst(r: Record, t: seq<byte>)
    ensures Bytes(r) + t == r.tag + (AfterTag(r) + t)
  {
    hide AfterTag;
  }

  // ----- The grammar is unambiguous ----------------------------------------------------------

  /** No record is a proper prefix of another, and a record's bytes determine its tree. */
  lemma {:induction false} RecordUnique(r: Record, q: Record, t: seq<byte>, u: seq<byte>)
    requires WellFormed(r) && WellFormed(q)
    requires Bytes(r) + t == Bytes(q) + u
    ensures r == q && t == u
    decreases r, 1
  {
    hide AfterTag, Bytes, WireType, Flatten;
    TagFirst(r, t);
    TagFirst(q, u);
    VarintPrefixFree(r.tag, q.tag, AfterTag(r) + t, AfterTag(q) + u);
    AfterTagUnique(r, q, t, u);
  }

  lemma {:induction false} AfterTagUnique(r: Record, q: Record, t: seq<byte>, u: seq<byte>)
    requires WellFormed(r) && WellFormed(q) && r.tag == q.tag
    requires AfterTag(r) + t == AfterTag(q) + u
    ensures r == q && t == u
    decreases r, 0
  {
    hide Value, Flatten;
    match r
    case VarintRecord(_, payload) =>
      VarintPrefixFree(payload, q.payload, t, u);
    case Fixed64(_, payload) =>
      SameLengthSplit(payload, q.payload, t, u);
    case Delimited(_, length, payload) =>
      assert AfterTag(r) + t == length + (payload + t);
      assert AfterTag(q) + u == q.length + (q.payload + u);
      VarintPrefixFree(length, q.length, payload + t, q.payload + u);
      SameLengthSplit(payload, q.payload, t, u);
    case Group(_, body, close) =>
      assert AfterTag(r) + t == Flatten(body) + (close + t);
      assert AfterTag(q) + u == Flatten(q.body) + (q.close + u);
      BodyUnique(body, q.body, close, q.close, t, u);
    case Fixed32(_, payload) =>
      SameLengthSplit(payload, q.payload, t, u);
  }

  lemma SameLengthSplit(p: seq<byte>, q: seq<byte>, t: seq<byte>, u: seq<byte>)
    requires |p| == |q| && p + t == q + u
    ensures p == q && t == u
  {
    var s := p + t;
    assert s[..|p|] == p && s[..|p|] == q && s[|p|..] == t && s[|p|..] == u;
  }

  /** A group's body ends at the first end tag that stands where a record could. */
  lemma {:induction false} BodyUnique(
    rs: seq<Record>, qs: seq<Record>, c: seq<byte>, d: seq<byte>, t: seq<byte>, u: seq<byte>)
    requires AllWellFormed(rs) && AllWellFormed(qs) && IsEndTag(c) && IsEndTag(d)
    requires Flatten(rs) + (c + t) == Flatten(qs) + (d + u)
    ensures rs == qs && c == d && t == u
    decreases rs, 0
  {
    if rs == [] && qs == [] {
      assert Flatten(rs) + (c + t) == c + t && Flatten(qs) + (d + u) == d + u;
      VarintPrefixFree(c, d, t, u);
    } else if rs == [] {
      assert Flatten(rs) + (c + t) == c + t;
      EndTagStartsNoRecord(c, t, qs, d + u);
    } else if qs == [] {
      assert Flatten(qs) + (d + u) == d + u;
      EndTagStartsNoRecord(d, u, rs, c + t);
    } else {
      FlattenCons(rs, c + t);
      FlattenCons(qs, d + u);
      RecordUnique(rs[0], qs[0], Flatten(rs[1..]) + (c + t), Flatten(qs[1..]) + (d + u));
      BodyUnique(rs[1..], qs[1..], c, d, t, u);
      assert rs == [rs[0]] + rs[1..] && qs == [qs[0]] + qs[1..];
    }
  }

  lemma EndTagStartsNoRecord(c: seq<byte>, t: seq<byte>, qs: seq<Record>, v: seq<byte>)
    requires IsEndTag(c) && qs != [] && AllWellFormed(qs)
    ensures c + t != Flatten(qs) + v
  {
    hide Value, Bytes, AfterTag;
    if c + t == Flatten(qs) + v {
      FlattenCons(qs, v);
      var q, rest := qs[0], AfterTag(qs[0]) + (Flatten(qs[1..]) + v);
      TagFirst(q, Flatten(qs[1..]) + v);
      VarintPrefixFree(c, q.tag, t, rest);
    }
  }

  /** A parse of a prefix is a prefix of every parse of the whole. */
  lemma {:induction false} PrefixParse(rs: seq<Record>, us: seq<Record>, t: seq<byte>)
    requires AllWellFormed(rs) && Parses(Flatten(rs) + t, us)
    ensures |rs| <= |us| && us[..|rs|] == rs && Parses(t, us[|rs|..])
  {
    if rs == [] {
      assert Flatten(rs) + t == t && us[0..] == us;
    } else {
      FlattenCons(rs, t);
      RecordSize(rs[0]);
      assert us != [];
      FlattenCons(us, []);
      assert Flatten(us) + [] == Flatten(us) && Flatten(us[1..]) + [] == Flatten(us[1..]);
      RecordUnique(rs[0], us[0], Flatten(rs[1..]) + t, Flatten(us[1..]));
      PrefixParse(rs[1..], us[1..], t);
      PrefixShift(rs, us);
    }
  }

  lemma PrefixShift(rs: seq<Record>, us: seq<Record>)
    requires 0 < |rs| <= |us| && rs[0] == us[0] && us[1..][..|rs| - 1] == rs[1..]
    ensures us[..|rs|] == rs && us[1..][|rs| - 1..] == us[|rs|..]
  {
    assert us[..|rs|] == [us[0]] + us[1..][..|rs| - 1];
    assert rs == [rs[0]] + rs[1..];
  }

  /** A byte string splits into records in at most one way. */
  lemma ParseUnique(s: seq<byte>, rs: seq<Record>, us: seq<Record>)
    requires Parses(s, rs) && Parses(s, us)
    ensures rs == us
  {
    assert Flatten(rs) + [] == s;
    PrefixParse(rs, us, []);
    var ts := us[|rs|..];
    if ts != [] {
      RecordSize(ts[0]);
    }
    assert us == us[..|rs|] + ts;
  }

  /** Where a record stands, its tag can be read. */
  lemma TagStandsAt(s: seq<byte>, i: nat, r: Record)
    requires StandsAt(s, i, r)
    ensures VarintEnd(s, i, i) == Ok(i + |r.tag|) && s[i..i + |r.tag|] == r.tag
  {
    hide AfterTag, Value;
    var b, n := Bytes(r), |r.tag|;
    assert b[..n] == r.tag;
    assert s[i..i + n] == s[i..i + |b|][..n];
    VarintEndIff(s, i, i, i + |r.tag|);
  }

  /** Two records that stand at the same place are the same record. */
  lemma StandsAtUnique(s: seq<byte>, i: nat, r: Record, q: Record)
    requires StandsAt(s, i, r) && StandsAt(s, i, q)
    ensures r == q
  {
    assert s[i..] == Bytes(r) + s[i + |Bytes(r)|..];
    assert s[i..] == Bytes(q) + s[i + |Bytes(q)|..];
    RecordUnique(r, q, s[i + |Bytes(r)|..], s[i + |Bytes(q)|..]);
  }
}
