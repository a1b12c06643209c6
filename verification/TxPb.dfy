/** `MsgUpdateParams`: a text field and a nested message. */
module TxPb {
  import opened Machine
  import opened Results
  import opened Wire
  import opened Decoding
  import opened Encoding
  import opened Parsing
  import opened ParamsPb
  import Skip
  import Varint

  class MsgUpdateParams {
    var authority: Slice
    const params: Params

    constructor ()
      ensures authority == []
    {
      authority := [];
      params := new Params();
    }

    function Size(): int64
      reads this
    {
      var l := |authority|;
      var n := if l > 0 then FieldSize(l) else 0;
      Add64(n, FieldSize(params.Size()))
    }

    /** The size is the length of the encoding, unless that is too long for an `int`. */
    lemma SizeIsExact()
      ensures Size() == Wrap64(|MsgUpdateParamsBytes(authority)|)
      ensures Size() == |MsgUpdateParamsBytes(authority)| <==> |MsgUpdateParamsBytes(authority)| <= MAX_INT
    {
      hide FieldSize, Wrap64, Bytes, TextRecords;
      EncodedForms(authority);
      FieldSizeWraps(TAG_FIELD_1, authority);
      FieldSizeWraps(TAG_FIELD_2, []);
      WrapSmall(0);
      WrapAdd(|ModuleBytes(authority)|, |Bytes(Field(TAG_FIELD_2, []))|);
      WrapFits(|MsgUpdateParamsBytes(authority)|);
    }

    /** Writes the encoding backwards into the last bytes of dAtA[..len], and nothing else. */
    method MarshalToSizedBuffer(dAtA: array<byte>, len: int64) returns (n: int64)
      requires |MsgUpdateParamsBytes(authority)| <= len <= dAtA.Length <= MAX_INT
      modifies dAtA
      ensures n == |MsgUpdateParamsBytes(authority)|
      ensures dAtA[..] == old(dAtA[..len - n]) + MsgUpdateParamsBytes(authority) + old(dAtA[len..])
    {
      hide Bytes, Varint.Encode, Varint.Sov, ModuleBytes, MsgUpdateParamsBytes;
      EncodedForms(authority);
      FieldBytes(TAG_FIELD_1, authority);
      FieldBytes(TAG_FIELD_2, []);
      var i := len;
      ghost var before := dAtA[..];
      i := PutParams(params, dAtA, i, TAG_FIELD_2);
      ghost var between, j := dAtA[..], i;
      if |authority| > 0 {
        i := PutText(dAtA, i, authority, TAG_FIELD_1);
        AdjacentWrites(before, between, i, j, len, ModuleBytes(authority), Bytes(Field(TAG_FIELD_2, [])));
      }
      n := len - i;
    }

    /** Writes the encoding at the front of a buffer that has room for it. */
    method MarshalTo(dAtA: array<byte>) returns (n: int64)
      requires |MsgUpdateParamsBytes(authority)| <= dAtA.Length <= MAX_INT
      modifies dAtA
      ensures n == |MsgUpdateParamsBytes(authority)|
      ensures dAtA[..] == MsgUpdateParamsBytes(authority) + old(dAtA[n..])
    {
      hide Bytes, Flatten, Wrap64;
      SizeIsExact();
      var size := Size();
      n := MarshalToSizedBuffer(dAtA, size);
    }

    /** The encoding fills the whole allocation. */
    method Marshal() returns (bytes: seq<byte>)
      requires |MsgUpdateParamsBytes(authority)| <= MAX_INT
      ensures bytes == MsgUpdateParamsBytes(authority)
    {
      hide Bytes, Flatten, Wrap64;
      SizeIsExact();
      var size := Size();
      var dAtA := new byte[size](_ => 0);
      var n := MarshalToSizedBuffer(dAtA, size);
      assert n == dAtA.Length;
      return dAtA[..n];
    }

    /** `XXX_Marshal` without the deterministic flag: it encodes into the capacity of b and returns
        the first bytes of b. */
    method XXXMarshal(b: array<byte>) returns (bytes: seq<byte>)
      requires |MsgUpdateParamsBytes(authority)| <= b.Length <= MAX_INT
      modifies b
      ensures bytes == CapacityPrefix(old(b[..]), MsgUpdateParamsBytes(authority))
      ensures var n := |MsgUpdateParamsBytes(authority)|;
              && |bytes| == n
              && forall k :: 0 <= k < n ==>
                   bytes[k] == if k < b.Length - n then old(b[..])[k]
                               else MsgUpdateParamsBytes(authority)[k - (b.Length - n)]
      ensures b[..] == old(b[..b.Length - |MsgUpdateParamsBytes(authority)|]) + MsgUpdateParamsBytes(authority)
    {
      hide MsgUpdateParamsBytes;
      var n := MarshalToSizedBuffer(b, b.Length);
      return b[..n];
    }

    /** Merges the input into the message; an error leaves it partly updated. */
    method Unmarshal(dAtA: Slice) returns (r: Result<()>)
      modifies this
      ensures r.Ok? <==> Decode(MSG_UPDATE_PARAMS, old(authority), dAtA).Some?
      ensures r.Ok? ==> Decode(MSG_UPDATE_PARAMS, old(authority), dAtA) == Some(authority)
    {
      hide Decode, Progress, StandsAt, Skip.IsRecord, WellFormed, EmptyAccepts;
      var l := |dAtA|;
      var iNdEx: int64 := 0;
      ghost var rs := [];
      Start(MSG_UPDATE_PARAMS, authority, dAtA);
      while iNdEx < l
        invariant 0 <= iNdEx <= l
        invariant Progress(MSG_UPDATE_PARAMS, old(authority), dAtA, iNdEx, rs, authority)
        decreases l - iNdEx
      {
        var preIndex := iNdEx;
        ghost var q;
        var tag: Result<Tag>;
        tag, iNdEx := ReadTag(dAtA, preIndex);
        if tag.Err? {
          Stuck(MSG_UPDATE_PARAMS, old(authority), dAtA, preIndex, rs, authority);
          return Err(tag.error);
        }
        match tag.value.field {
        case 1 =>
          var post: Result<int64>;
          ghost var tagEnd := iNdEx;
          post, iNdEx := ReadPayload(dAtA, preIndex, iNdEx, tag.value.wireType);
          if post.Err? {
            Stuck(MSG_UPDATE_PARAMS, old(authority), dAtA, preIndex, rs, authority);
            return Err(post.error);
          }
          var postIndex := post.value;
          q := Delimited(dAtA[preIndex..tagEnd], dAtA[tagEnd..iNdEx], dAtA[iNdEx..postIndex]);
          Advance(MSG_UPDATE_PARAMS, old(authority), dAtA, preIndex, rs, authority, q);
          authority := dAtA[iNdEx..postIndex];
          iNdEx := postIndex;
        case 2 =>
          var post: Result<int64>;
          ghost var tagEnd := iNdEx;
          post, iNdEx := ReadPayload(dAtA, preIndex, iNdEx, tag.value.wireType);
          if post.Err? {
            Stuck(MSG_UPDATE_PARAMS, old(authority), dAtA, preIndex, rs, authority);
            return Err(post.error);
          }
          var postIndex := post.value;
          q := Delimited(dAtA[preIndex..tagEnd], dAtA[tagEnd..iNdEx], dAtA[iNdEx..postIndex]);
          var nested := params.Unmarshal(dAtA[iNdEx..postIndex]);
          if nested.Err? {
            RefusedNested(MSG_UPDATE_PARAMS, dAtA, preIndex, q);
            Stuck(MSG_UPDATE_PARAMS, old(authority), dAtA, preIndex, rs, authority);
            return Err(nested.error);
          }
          Advance(MSG_UPDATE_PARAMS, old(authority), dAtA, preIndex, rs, authority, q);
          iNdEx := postIndex;
        case _ =>
          iNdEx := preIndex;
          var skipped := SkipUnknown(dAtA, iNdEx);
          if skipped.Err? {
            Stuck(MSG_UPDATE_PARAMS, old(authority), dAtA, preIndex, rs, authority);
            return Err(skipped.error);
          }
          iNdEx := skipped.value;
          q := RecordStandsAt(dAtA, preIndex, iNdEx);
          Advance(MSG_UPDATE_PARAMS, old(authority), dAtA, preIndex, rs, authority, q);
        }
        rs := rs + [q];
      }
      Finish(MSG_UPDATE_PARAMS, old(authority), dAtA, rs, authority);
      if iNdEx > l {
        return Err(UnexpectedEOF);
      }
      return Ok(());
    }
  }

  /** What is left at the front of a buffer once `encoding` has been written at its end. */
  function CapacityPrefix(before: seq<byte>, encoding: seq<byte>): seq<byte>
    requires |encoding| <= |before|
  {
    (before[..|before| - |encoding|] + encoding)[..|encoding|]
  }

  /** The front of the buffer is the encoding, whatever the buffer held, exactly when the buffer
      has no room to spare or there is nothing to write. */
  lemma XXXMarshalAgrees(capacity: nat, encoding: seq<byte>)
    requires |encoding| <= capacity
    ensures (forall before: seq<byte> :: |before| == capacity ==> CapacityPrefix(before, encoding) == encoding)
       <==> capacity == |encoding| || encoding == []
  {
    if capacity > |encoding| && encoding != [] {
      var other: byte := if encoding[0] == 0 then 1 else 0;
      var before: seq<byte> := seq(capacity, _ => other);
      assert CapacityPrefix(before, encoding)[0] == other;
    }
  }
}
