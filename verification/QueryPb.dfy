/** `QueryParamsResponse`, the answer to the parameters query: one nested message. */
module QueryPb {
  import opened Machine
  import opened Results
  import opened Wire
  import opened Decoding
  import opened Encoding
  import opened Parsing
  import opened ParamsPb
  import Skip
  import Varint

  class QueryParamsResponse {
    const params: Params

    constructor ()
    {
      params := new Params();
    }

    function Size(): int64
    {
      FieldSize(params.Size())
    }

    /** The size is the length of the encoding, unless that is too long for an `int`. */
    lemma SizeIsExact()
      ensures Size() == Wrap64(|ParamsFieldBytes()|)
      ensures Size() == |ParamsFieldBytes()| <==> |ParamsFieldBytes()| <= MAX_INT
    {
      hide FieldSize, Wrap64, Bytes, TextRecords;
      EncodedForms([]);
      FieldSizeWraps(TAG_FIELD_1, []);
      WrapFits(|ParamsFieldBytes()|);
    }

    /** Writes the encoding backwards into the last bytes of dAtA[..len], and nothing else. */
    method MarshalToSizedBuffer(dAtA: array<byte>, len: int64) returns (n: int64)
      requires |ParamsFieldBytes()| <= len <= dAtA.Length <= MAX_INT
      modifies dAtA
      ensures n == |ParamsFieldBytes()|
      ensures dAtA[..] == old(dAtA[..len - n]) + ParamsFieldBytes() + old(dAtA[len..])
    {
      hide Bytes, Varint.Encode, Varint.Sov, ModuleBytes, ParamsFieldBytes;
      EncodedForms([]);
      FieldBytes(TAG_FIELD_1, []);
      var i := len;
      i := PutParams(params, dAtA, i, TAG_FIELD_1);
      n := len - i;
    }

    /** Writes the encoding at the front of a buffer that has room for it. */
    method MarshalTo(dAtA: array<byte>) returns (n: int64)
      requires |ParamsFieldBytes()| <= dAtA.Length <= MAX_INT
      modifies dAtA
      ensures n == |ParamsFieldBytes()|
      ensures dAtA[..] == ParamsFieldBytes() + old(dAtA[n..])
    {
      hide Bytes, Flatten, Wrap64;
      SizeIsExact();
      var size := Size();
      n := MarshalToSizedBuffer(dAtA, size);
    }

    /** The encoding fills the whole allocation. */
    method Marshal() returns (bytes: seq<byte>)
      requires |ParamsFieldBytes()| <= MAX_INT
      ensures bytes == ParamsFieldBytes()
    {
      hide Bytes, Flatten, Wrap64;
      SizeIsExact();
      var size := Size();
      var dAtA := new byte[size](_ => 0);
      var n := MarshalToSizedBuffer(dAtA, size);
      assert n == dAtA.Length;
      return dAtA[..n];
    }

    method Unmarshal(dAtA: Slice) returns (r: Result<()>)
      ensures r.Ok? <==> Decode(QUERY_PARAMS_RESPONSE, [], dAtA).Some?
    {
      hide Decode, Progress, StandsAt, Skip.IsRecord, WellFormed, EmptyAccepts;
      var l := |dAtA|;
      var iNdEx: int64 := 0;
      ghost var rs := [];
      Start(QUERY_PARAMS_RESPONSE, [], dAtA);
      while iNdEx < l
        invariant 0 <= iNdEx <= l
        invariant Progress(QUERY_PARAMS_RESPONSE, [], dAtA, iNdEx, rs, [])
        decreases l - iNdEx
      {
        var preIndex := iNdEx;
        ghost var q;
        var tag: Result<Tag>;
        tag, iNdEx := ReadTag(dAtA, preIndex);
        if tag.Err? {
          Stuck(QUERY_PARAMS_RESPONSE, [], dAtA, preIndex, rs, []);
          return Err(tag.error);
        }
        match tag.value.field {
        case 1 =>
          var post: Result<int64>;
          ghost var tagEnd := iNdEx;
          post, iNdEx := ReadPayload(dAtA, preIndex, iNdEx, tag.value.wireType);
          if post.Err? {
            Stuck(QUERY_PARAMS_RESPONSE, [], dAtA, preIndex, rs, []);
            return Err(post.error);
          }
          var postIndex := post.value;
          q := Delimited(dAtA[preIndex..tagEnd], dAtA[tagEnd..iNdEx], dAtA[iNdEx..postIndex]);
          var nested := params.Unmarshal(dAtA[iNdEx..postIndex]);
          if nested.Err? {
            RefusedNested(QUERY_PARAMS_RESPONSE, dAtA, preIndex, q);
            Stuck(QUERY_PARAMS_RESPONSE, [], dAtA, preIndex, rs, []);
            return Err(nested.error);
          }
          Advance(QUERY_PARAMS_RESPONSE, [], dAtA, preIndex, rs, [], q);
          iNdEx := postIndex;
        case _ =>
          iNdEx := preIndex;
          var skipped := SkipUnknown(dAtA, iNdEx);
          if skipped.Err? {
            Stuck(QUERY_PARAMS_RESPONSE, [], dAtA, preIndex, rs, []);
            return Err(skipped.error);
          }
          iNdEx := skipped.value;
          q := RecordStandsAt(dAtA, preIndex, iNdEx);
          Advance(QUERY_PARAMS_RESPONSE, [], dAtA, preIndex, rs, [], q);
        }
        rs := rs + [q];
      }
      Finish(QUERY_PARAMS_RESPONSE, [], dAtA, rs, []);
      if iNdEx > l {
        return Err(UnexpectedEOF);
      }
      return Ok(());
    }
  }
}
