/** Skipping one record of any field: the loop with a depth counter, and the proof that it finds
    the end of one record tree.
 */
module Skip {
  import opened Machine
  import opened Results
  import opened Varint
  import opened Wire

  /** What the loop sees at one position: a wire type, and the position that follows. */
  datatype Token = Token(wireType: nat, end: nat)

  /** Where the payload that follows a tag ends. It may lie beyond s: the loop advances over fixed
      and delimited payloads unread. Group tags have no payload of their own. */
  function PayloadEnd(s: seq<byte>, pos: nat, wireType: nat): (r: Result<nat>)
    requires pos <= |s|
    ensures r.Ok? ==> r.value >= pos && wireType <= 5
    ensures r.Ok? && wireType !in {3, 4} ==> r.value > pos
  {
    match wireType
    case 0 => VarintEnd(s, pos, pos)
    case 1 => Ok(pos + 8)
    case 2 =>
      var v :- VarintEnd(s, pos, pos);
      var n := Value(s[pos..v]);
      if n > MAX_INT then Err(InvalidLength) else Ok(v + n)
    case 3 => Ok(pos)
    case 4 => Ok(pos)
    case 5 => Ok(pos + 4)
    case _ => Err(IllegalWireType)
  }

  function NextToken(s: seq<byte>, pos: nat): (r: Result<Token>)
    requires pos <= |s|
    ensures r.Ok? ==> r.value.end > pos && r.value.wireType <= 5
    ensures r.Ok? && r.value.wireType !in {3, 4} ==> r.value.end >= pos + 2
  {
    var e :- VarintEnd(s, pos, pos);
    var wireType := WireType(s[pos..e]);
    var end :- PayloadEnd(s, e, wireType);
    Ok(Token(wireType, end))
  }

  function DepthAfter(depth: nat, wireType: nat): int {
    if wireType == 3 then depth + 1 else if wireType == 4 then depth - 1 else depth
  }

  /** The outcome of the loop from position pos, with depth groups open. */
  function Scan(s: seq<byte>, pos: nat, depth: nat): (r: Result<nat>)
    requires pos <= |s|
    decreases |s| - pos
  {
    if pos == |s| then Err(UnexpectedEOF)
    else
      var t :- NextToken(s, pos);
      var d := DepthAfter(depth, t.wireType);
      if d < 0 then Err(UnexpectedEndOfGroup)
      else if t.end > MAX_INT then Err(InvalidLength)
      else if d == 0 then Ok(t.end)
      else if t.end > |s| then Err(UnexpectedEOF)
      else Scan(s, t.end, d)
  }

  // ----- Every record tree is skipped whole --------------------------------------------------

  ghost predicate SliceAt(s: seq<byte>, pos: nat, p: seq<byte>) {
    pos + |p| <= |s| && s[pos..pos + |p|] == p
  }

  lemma VarintAt(s: seq<byte>, pos: nat, p: seq<byte>)
    requires SliceAt(s, pos, p) && IsVarint(p)
    ensures VarintEnd(s, pos, pos) == Ok(pos + |p|)
  {
    VarintEndIff(s, pos, pos, pos + |p|);
  }

  lemma SplitAt(s: seq<byte>, pos: nat, p: seq<byte>, q: seq<byte>)
    ensures SliceAt(s, pos, p + q) <==> SliceAt(s, pos, p) && SliceAt(s, pos + |p|, q)
  {
    if pos + |p + q| <= |s| {
      var a, b := s[pos..pos + |p|], s[pos + |p|..pos + |p + q|];
      assert s[pos..pos + |p + q|] == a + b;
      if a + b == p + q {
        assert a == (p + q)[..|p|] == p && b == (p + q)[|p|..] == q;
      }
    }
  }

  lemma TokenOfTag(s: seq<byte>, pos: nat, tag: seq<byte>)
    requires SliceAt(s, pos, tag) && IsVarint(tag) && WireType(tag) in {3, 4}
    ensures NextToken(s, pos) == Ok(Token(WireType(tag), pos + |tag|))
  {
    VarintAt(s, pos, tag);
  }

  lemma PayloadOfLeaf(s: Slice, pos: nat, r: Record)
    requires WellFormed(r) && !r.Group? && SliceAt(s, pos, AfterTag(r))
    ensures PayloadEnd(s, pos, WireType(r.tag)) == Ok(pos + |AfterTag(r)|)
  {
    match r
    case VarintRecord(_, payload) => VarintAt(s, pos, payload);
    case Delimited(_, length, payload) =>
      SplitAt(s, pos, length, payload);
      VarintAt(s, pos, length);
    case Fixed64(_, _) =>
    case Fixed32(_, _) =>
  }

  lemma TokenOfLeaf(s: Slice, pos: nat, r: Record)
    requires WellFormed(r) && !r.Group? && SliceAt(s, pos, Bytes(r))
    ensures NextToken(s, pos) == Ok(Token(WireType(r.tag), pos + |Bytes(r)|))
  {
    hide VarintEnd, Value, PayloadEnd, AfterTag;
    SplitAt(s, pos, r.tag, AfterTag(r));
    VarintAt(s, pos, r.tag);
    PayloadOfLeaf(s, pos + |r.tag|, r);
  }

  lemma ScanLeaf(s: Slice, pos: nat, r: Record, depth: nat)
    requires WellFormed(r) && !r.Group? && SliceAt(s, pos, Bytes(r))
    ensures Scan(s, pos, depth)
         == if depth == 0 then Ok(pos + |Bytes(r)|) else Scan(s, pos + |Bytes(r)|, depth)
  {
    hide NextToken, Bytes;
    RecordSize(r);
    TokenOfLeaf(s, pos, r);
  }

  lemma ScanStartTag(s: Slice, pos: nat, tag: seq<byte>, depth: nat)
    requires SliceAt(s, pos, tag) && IsVarint(tag) && WireType(tag) == 3
    ensures Scan(s, pos, depth) == Scan(s, pos + |tag|, depth + 1)
  {
    hide NextToken, WireType;
    TokenOfTag(s, pos, tag);
  }

  lemma ScanEndTag(s: Slice, pos: nat, tag: seq<byte>, depth: nat)
    requires SliceAt(s, pos, tag) && IsEndTag(tag) && depth > 0
    ensures Scan(s, pos, depth)
         == if depth == 1 then Ok(pos + |tag|) else Scan(s, pos + |tag|, depth - 1)
  {
    hide NextToken, WireType;
    TokenOfTag(s, pos, tag);
  }

  lemma {:induction false} ScanRecord(s: Slice, pos: nat, r: Record, depth: nat)
    requires WellFormed(r) && SliceAt(s, pos, Bytes(r))
    ensures Scan(s, pos, depth)
         == if depth == 0 then Ok(pos + |Bytes(r)|) else Scan(s, pos + |Bytes(r)|, depth)
    decreases r, 1
  {
    hide Scan, Value, SliceAt;
    if r.Group? {
      var body := Flatten(r.body);
      SplitAt(s, pos, r.tag, AfterTag(r));
      SplitAt(s, pos + |r.tag|, body, r.close);
      ScanStartTag(s, pos, r.tag, depth);
      ScanBody(s, pos + |r.tag|, r.body, depth + 1);
      ScanEndTag(s, pos + |r.tag| + |body|, r.close, depth + 1);
    } else {
      ScanLeaf(s, pos, r, depth);
    }
  }

  lemma {:induction false} ScanBody(s: Slice, pos: nat, rs: seq<Record>, depth: nat)
    requires AllWellFormed(rs) && SliceAt(s, pos, Flatten(rs)) && depth > 0
    ensures Scan(s, pos, depth) == Scan(s, pos + |Flatten(rs)|, depth)
    decreases rs, 0
  {
    hide NextToken, VarintEnd, Value, Scan;
    if rs != [] {
      assert rs[0] in rs;
      SplitAt(s, pos, Bytes(rs[0]), Flatten(rs[1..]));
      ScanRecord(s, pos, rs[0], depth);
      ScanBody(s, pos + |Bytes(rs[0])|, rs[1..], depth);
    }
  }

  // ----- Whatever is skipped is a record tree ------------------------------------------------

  /** The end of one open group: the rest of its body and its end tag. */
  datatype Closing = Closing(body: seq<Record>, close: seq<byte>)

  function ClosingBytes(cs: seq<Closing>): seq<byte> {
    if cs == [] then [] else Flatten(cs[0].body) + cs[0].close + ClosingBytes(cs[1..])
  }

  ghost predicate ClosingsWellFormed(cs: seq<Closing>) {
    forall c :: c in cs ==> AllWellFormed(c.body) && IsEndTag(c.close)
  }

  lemma LeafOfPayload(s: seq<byte>, pos: nat, tag: seq<byte>, end: nat) returns (r: Record)
    requires pos <= |s| && IsVarint(tag) && WireType(tag) !in {3, 4}
    requires PayloadEnd(s, pos, WireType(tag)) == Ok(end) && end <= |s|
    ensures WellFormed(r) && Bytes(r) == tag + s[pos..end]
  {
    match WireType(tag)
    case 0 =>
      VarintEndIff(s, pos, pos, end);
      r := VarintRecord(tag, s[pos..end]);
    case 1 => r := Fixed64(tag, s[pos..end]);
    case 2 =>
      var v := VarintEnd(s, pos, pos).value;
      VarintEndIff(s, pos, pos, v);
      r := Delimited(tag, s[pos..v], s[v..end]);
      assert s[pos..end] == s[pos..v] + s[v..end];
    case 5 => r := Fixed32(tag, s[pos..end]);
  }

  lemma LeafOfToken(s: seq<byte>, pos: nat) returns (r: Record)
    requires pos <= |s| && NextToken(s, pos).Ok?
    requires NextToken(s, pos).value.wireType !in {3, 4} && NextToken(s, pos).value.end <= |s|
    ensures WellFormed(r) && Bytes(r) == s[pos..NextToken(s, pos).value.end]
  {
    hide Value, PayloadEnd, WellFormed;
    var e, end := VarintEnd(s, pos, pos).value, NextToken(s, pos).value.end;
    VarintEndIff(s, pos, pos, e);
    r := LeafOfPayload(s, e, s[pos..e], end);
    assert s[pos..end] == s[pos..e] + s[e..end];
  }

  lemma TagOfToken(s: seq<byte>, pos: nat) returns (tag: seq<byte>)
    requires pos <= |s| && NextToken(s, pos).Ok? && NextToken(s, pos).value.wireType in {3, 4}
    ensures IsVarint(tag) && WireType(tag) == NextToken(s, pos).value.wireType
    ensures NextToken(s, pos).value.end <= |s| && tag == s[pos..NextToken(s, pos).value.end]
  {
    var e := VarintEnd(s, pos, pos).value;
    VarintEndIff(s, pos, pos, e);
    tag := s[pos..e];
  }

  /** Putting one more record before the rest of the innermost body. */
  lemma Prepend(r: Record, cs: seq<Closing>) returns (ds: seq<Closing>)
    requires cs != [] && ClosingsWellFormed(cs) && WellFormed(r)
    ensures |ds| == |cs| && ClosingsWellFormed(ds)
    ensures ClosingBytes(ds) == Bytes(r) + ClosingBytes(cs)
  {
    hide WellFormed, Bytes, IsEndTag;
    var c := cs[0];
    assert c in cs;
    var body := [r] + c.body;
    ds := [Closing(body, c.close)] + cs[1..];
    assert body[1..] == c.body && ds[1..] == cs[1..];
    assert Flatten(body) == Bytes(r) + Flatten(c.body);
    assert ClosingBytes(ds) == Bytes(r) + Flatten(c.body) + c.close + ClosingBytes(cs[1..]);
  }

  /** Closing the innermost group turns its start tag, body and end tag into one record. */
  lemma CloseGroup(tag: seq<byte>, cs: seq<Closing>) returns (r: Record)
    requires cs != [] && ClosingsWellFormed(cs) && IsVarint(tag) && WireType(tag) == 3
    ensures WellFormed(r) && ClosingsWellFormed(cs[1..])
    ensures tag + ClosingBytes(cs) == Bytes(r) + ClosingBytes(cs[1..])
  {
    hide Value;
    assert cs[0] in cs;
    r := Group(tag, cs[0].body, cs[0].close);
  }

  /** An end tag closes a body with nothing left in it. */
  lemma CloseBody(tag: seq<byte>, cs: seq<Closing>) returns (ds: seq<Closing>)
    requires ClosingsWellFormed(cs) && IsEndTag(tag)
    ensures |ds| == |cs| + 1 && ClosingsWellFormed(ds)
    ensures ClosingBytes(ds) == tag + ClosingBytes(cs)
  {
    ds := [Closing([], tag)] + cs;
    assert ds[1..] == cs;
  }

  /** With groups open, success means that the bytes up to the end close every one of them. */
  lemma {:induction false} ScanCloses(s: seq<byte>, pos: nat, depth: nat, n: nat)
    returns (cs: seq<Closing>)
    requires pos <= |s| && depth > 0 && Scan(s, pos, depth) == Ok(n) && n <= |s|
    ensures |cs| == depth && ClosingsWellFormed(cs)
    ensures pos <= n && ClosingBytes(cs) == s[pos..n]
    decreases |s| - pos
  {
    hide NextToken, VarintEnd, Value, ClosingsWellFormed;
    var t := NextToken(s, pos).value;
    var e := t.end;
    var d := DepthAfter(depth, t.wireType);
    var rest := [];
    if d == 0 {
      NothingToClose();
    } else {
      rest := ScanCloses(s, e, d, n);
    }
    assert s[pos..n] == s[pos..e] + s[e..n];
    if t.wireType == 3 {
      var tag := TagOfToken(s, pos);
      var g := CloseGroup(tag, rest);
      cs := Prepend(g, rest[1..]);
    } else if t.wireType == 4 {
      var tag := TagOfToken(s, pos);
      cs := CloseBody(tag, rest);
    } else {
      var r := LeafOfToken(s, pos);
      cs := Prepend(r, rest);
    }
  }

  lemma NothingToClose()
    ensures ClosingsWellFormed([]) && ClosingBytes([]) == []
  {
  }

  lemma ScanFindsRecord(s: seq<byte>, pos: nat, n: nat) returns (r: Record)
    requires pos <= |s| && Scan(s, pos, 0) == Ok(n) && n <= |s|
    ensures WellFormed(r) && pos <= n && Bytes(r) == s[pos..n]
  {
    hide NextToken, VarintEnd, Value;
    var t := NextToken(s, pos).value;
    if t.wireType == 3 {
      var tag := TagOfToken(s, pos);
      var cs := ScanCloses(s, t.end, 1, n);
      r := CloseGroup(tag, cs);
      assert s[pos..n] == s[pos..t.end] + s[t.end..n];
      assert cs[1..] == [];
    } else {
      r := LeafOfToken(s, pos);
    }
  }

  // ----- The theorem and the loop ------------------------------------------------------------

  ghost predicate IsRecord(p: seq<byte>) {
    exists r :: WellFormed(r) && Bytes(r) == p
  }

  /** Skipping succeeds inside s, at n, exactly when the first n bytes are one record. */
  lemma ScanIffRecord(s: Slice, n: nat)
    requires n <= |s|
    ensures Scan(s, 0, 0) == Ok(n) <==> IsRecord(s[..n])
  {
    hide Scan, WellFormed, Bytes;
    if Scan(s, 0, 0) == Ok(n) {
      var r := ScanFindsRecord(s, 0, n);
      assert s[0..n] == s[..n];
    }
    if IsRecord(s[..n]) {
      var r :| WellFormed(r) && Bytes(r) == s[..n];
      assert s[0..n] == s[..n];
      ScanRecord(s, 0, r, 0);
    }
  }

  lemma {:induction false} ScanAdvances(s: seq<byte>, pos: nat, depth: nat)
    requires pos <= |s|
    ensures Scan(s, pos, depth).Ok? ==>
              pos + (if depth == 0 then 2 else 1) <= Scan(s, pos, depth).value <= MAX_INT
    decreases |s| - pos
  {
    hide NextToken;
    if Scan(s, pos, depth).Ok? {
      var t := NextToken(s, pos).value;
      if DepthAfter(depth, t.wireType) > 0 {
        ScanAdvances(s, t.end, DepthAfter(depth, t.wireType));
      }
    }
  }

  /** The switch of the skipping loop: moves over one payload, with wrapping index arithmetic. */
  method SkipPayload(dAtA: Slice, pos: int64, wireType: nat) returns (r: Result<int64>)
    requires 0 <= pos <= |dAtA|
    ensures r.Ok? <==> PayloadEnd(dAtA, pos, wireType).Ok?
    ensures r.Err? ==> PayloadEnd(dAtA, pos, wireType) == Err(r.error)
    ensures r.Ok? && r.value >= 0 ==> PayloadEnd(dAtA, pos, wireType) == Ok(r.value)
    ensures r.Ok? && r.value < 0 ==> PayloadEnd(dAtA, pos, wireType).value > MAX_INT
  {
    hide Value, VarintEnd, Add64;
    var iNdEx: int64 := pos;
    match wireType {
      case 0 =>
        var skipped: Result<()>;
        skipped, iNdEx := SkipVarint(dAtA, iNdEx);
        var _ :- skipped;
      case 1 =>
        AddOverflow(iNdEx, 8);
        iNdEx := Add64(iNdEx, 8);
      case 2 =>
        var read: Result<uint64>;
        read, iNdEx := DecodeVarint(dAtA, iNdEx);
        var word :- read;
        var length := ToInt64(word);
        if length < 0 {
          return Err(InvalidLength);
        }
        AddOverflow(iNdEx, length);
        iNdEx := Add64(iNdEx, length);
      case 3 =>
      case 4 =>
      case 5 =>
        AddOverflow(iNdEx, 4);
        iNdEx := Add64(iNdEx, 4);
      case _ =>
        return Err(IllegalWireType);
    }
    return Ok(iNdEx);
  }

  method SkipLoop(dAtA: Slice) returns (r: Result<nat>)
    ensures r == Scan(dAtA, 0, 0)
  {
    hide Value, VarintEnd, PayloadEnd;
    var l := |dAtA|;
    var iNdEx: int64 := 0;
    var depth: int64 := 0;
    while iNdEx < l
      invariant 0 <= depth <= iNdEx
      invariant Scan(dAtA, 0, 0) == if iNdEx <= l then Scan(dAtA, iNdEx, depth) else Err(UnexpectedEOF)
      decreases l - iNdEx
    {
      ghost var pos := iNdEx;
      var tag: Result<uint64>;
      tag, iNdEx := DecodeVarint(dAtA, iNdEx);
      var wire :- tag;
      Mask3(wire);
      var wireType := And(wire, 0x7);
      var end := SkipPayload(dAtA, iNdEx, wireType);
      iNdEx :- end;
      if wireType == 3 {
        depth := depth + 1;
      } else if wireType == 4 {
        if depth == 0 {
          return Err(UnexpectedEndOfGroup);
        }
        depth := depth - 1;
      }
      if iNdEx < 0 {
        return Err(InvalidLength);
      }
      if depth == 0 {
        return Ok(iNdEx);
      }
    }
    return Err(UnexpectedEOF);
  }

  /** The skipper: on success, where the record ends, which the caller must still compare with the
      length of its input. */
  method SkipRecord(dAtA: Slice) returns (r: Result<nat>)
    ensures r == Scan(dAtA, 0, 0)
    ensures r.Ok? ==> 2 <= r.value <= MAX_INT
    ensures forall n: nat | n <= |dAtA| :: r == Ok(n) <==> IsRecord(dAtA[..n])
  {
    hide Scan;
    r := SkipLoop(dAtA);
    ScanAdvances(dAtA, 0, 0);
    forall n: nat | n <= |dAtA|
      ensures r == Ok(n) <==> IsRecord(dAtA[..n])
    {
      ScanIffRecord(dAtA, n);
    }
  }
}
