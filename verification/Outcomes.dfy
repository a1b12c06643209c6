/** Every outcome of the skipper, stated on the bytes themselves: what each wire type does at any
    position and depth, inside the input, at its end and past it, and which error each failure is.
    A tag's wire type is read here as the low three bits of its first byte.
 */
module Outcomes {
  import opened Machine
  import opened Results
  import opened Varint
  import opened Wire
  import opened Skip

  lemma PrefixAt(s: seq<byte>, pos: nat, p: seq<byte>)
    requires pos <= |s| && p <= s[pos..]
    ensures SliceAt(s, pos, p)
  {
    assert s[pos..pos + |p|] == s[pos..][..|p|];
  }

  lemma TagAt(s: seq<byte>, pos: nat, tag: seq<byte>)
    requires pos <= |s| && IsVarint(tag) && tag <= s[pos..]
    ensures pos + |tag| <= |s| && s[pos..pos + |tag|] == tag
    ensures VarintEnd(s, pos, pos) == Ok(pos + |tag|) && WireType(tag) == tag[0] % 8
  {
    PrefixAt(s, pos, tag);
    VarintAt(s, pos, tag);
    WireTypeIsLowBits(tag);
  }

  /** A payload of fixed width is passed over unread: at depth 0 its end is returned even when it
      lies past the input, and inside a group that is a premature end. */
  lemma FixedOutcome(s: Slice, pos: nat, depth: nat, tag: seq<byte>, width: nat)
    requires pos <= |s| && IsVarint(tag) && tag <= s[pos..]
    requires (tag[0] % 8 == 1 && width == 8) || (tag[0] % 8 == 5 && width == 4)
    ensures var end := pos + |tag| + width;
            Scan(s, pos, depth) ==
              if end > MAX_INT then Err(InvalidLength)
              else if depth == 0 then Ok(end)
              else if end > |s| then Err(UnexpectedEOF)
              else Scan(s, end, depth)
  {
    hide Value, VarintEnd, WireType;
    TagAt(s, pos, tag);
  }

  /** A delimited payload is passed over unread in the same way; a length that is no `int` is an
      invalid length. */
  lemma DelimitedOutcome(s: Slice, pos: nat, depth: nat, tag: seq<byte>, length: seq<byte>)
    requires pos <= |s| && IsVarint(tag) && IsVarint(length) && tag + length <= s[pos..]
    requires tag[0] % 8 == 2
    ensures var end := pos + |tag| + |length| + Value(length);
            Scan(s, pos, depth) ==
              if end > MAX_INT then Err(InvalidLength)
              else if depth == 0 then Ok(end)
              else if end > |s| then Err(UnexpectedEOF)
              else Scan(s, end, depth)
  {
    hide Value, VarintEnd, WireType;
    PrefixAt(s, pos, tag + length);
    SplitAt(s, pos, tag, length);
    assert tag <= s[pos..];
    TagAt(s, pos, tag);
    VarintAt(s, pos + |tag|, length);
  }

  lemma VarintOutcome(s: Slice, pos: nat, depth: nat, tag: seq<byte>, payload: seq<byte>)
    requires pos <= |s| && IsVarint(tag) && IsVarint(payload) && tag + payload <= s[pos..]
    requires tag[0] % 8 == 0
    ensures var end := pos + |tag| + |payload|;
            Scan(s, pos, depth) == if depth == 0 then Ok(end) else Scan(s, end, depth)
  {
    hide Value, VarintEnd, WireType;
    PrefixAt(s, pos, tag + payload);
    SplitAt(s, pos, tag, payload);
    assert tag <= s[pos..];
    TagAt(s, pos, tag);
    VarintAt(s, pos + |tag|, payload);
  }

  /** Group tags move the depth; one too many end tags is an error of its own. */
  lemma GroupTagOutcome(s: Slice, pos: nat, depth: nat, tag: seq<byte>)
    requires pos <= |s| && IsVarint(tag) && tag <= s[pos..]
    ensures tag[0] % 8 == 3 ==> Scan(s, pos, depth) == Scan(s, pos + |tag|, depth + 1)
    ensures tag[0] % 8 == 4 ==>
              Scan(s, pos, depth) ==
                if depth == 0 then Err(UnexpectedEndOfGroup)
                else if depth == 1 then Ok(pos + |tag|)
                else Scan(s, pos + |tag|, depth - 1)
  {
    hide Value, VarintEnd, WireType;
    TagAt(s, pos, tag);
  }

  lemma IllegalOutcome(s: Slice, pos: nat, depth: nat, tag: seq<byte>)
    requires pos <= |s| && IsVarint(tag) && tag <= s[pos..] && tag[0] % 8 >= 6
    ensures Scan(s, pos, depth) == Err(IllegalWireType)
  {
    hide Value, VarintEnd, WireType;
    TagAt(s, pos, tag);
  }

  /** A tag, or the varint that must follow one, that does not end: it is cut off by the end of the
      input or it is too long. */
  lemma UnfinishedOutcome(s: Slice, pos: nat, depth: nat, tag: seq<byte>)
    requires tag == [] || (IsVarint(tag) && tag[0] % 8 in {0, 2})
    requires pos <= |s| && tag <= s[pos..]
    requires forall k :: pos + |tag| <= k < |s| && k < pos + |tag| + 10 ==> s[k] >= 0x80
    ensures Scan(s, pos, depth) == if |s| - pos - |tag| < 10 then Err(UnexpectedEOF) else Err(IntOverflow)
  {
    hide Value, WireType;
    var e := pos + |tag|;
    VarintEndErrors(s, e, e);
    if tag != [] {
      TagAt(s, pos, tag);
    }
  }

  /** A delimited field of any number, spelled without redundant bytes, is skipped to its end. */
  lemma EncodedFieldIsSkipped(field: nat, payload: Slice, t: seq<byte>)
    requires field < 0x2000_0000_0000_0000
    requires |Encode(8 * field + 2) + Encode(|payload|) + payload + t| <= MAX_INT
    ensures Scan(Encode(8 * field + 2) + Encode(|payload|) + payload + t, 0, 0)
         == Ok(|Encode(8 * field + 2) + Encode(|payload|) + payload|)
  {
    hide Value, WireType, Scan;
    var tag, length := Encode(8 * field + 2), Encode(|payload|);
    TagReadsBack(field, 2);
    WireTypeIsLowBits(tag);
    EncodeIsVarint(|payload|);
    var s := tag + length + payload + t;
    assert s[0..] == s && tag + length <= s;
    DelimitedOutcome(s, 0, 0, tag, length);
  }
}
