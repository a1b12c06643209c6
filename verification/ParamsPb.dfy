/** `Params`, the empty message. `MsgUpdateParamsResponse` and `QueryParamsRequest` have the same
    code, and this class stands for all three.
 */
module ParamsPb {
  import opened Machine
  import opened Results
  import opened Wire
  import opened Decoding
  import opened Encoding
  import opened Parsing
  import Skip
  import Varint

  class Params {
    constructor () {
    }

    function Size(): int64 {
      0
    }

    /** Writes nothing, whatever the buffer. */
    method MarshalToSizedBuffer(dAtA: array<byte>, len: int64) returns (n: int64)
      requires 0 <= len <= dAtA.Length
      ensures n == 0
    {
      var i := len;
      return len - i;
    }

    /** Accepts exactly the record lists in which every field number is positive. */
    method Unmarshal(dAtA: Slice) returns (r: Result<()>)
      ensures r.Ok? <==> EmptyAccepts(dAtA)
      ensures r.Ok? <==> exists rs :: Parses(dAtA, rs) && forall q: Record :: q in rs ==> FieldNumber(q.tag) > 0
    {
      hide Decode, Progress, StandsAt, Skip.IsRecord, WellFormed, EmptyAccepts, Parses;
      EmptySchema([], dAtA);
      EmptyAcceptsIff(dAtA);
      var l := |dAtA|;
      var iNdEx: int64 := 0;
      ghost var rs := [];
      Start(PARAMS, [], dAtA);
      while iNdEx < l
        invariant 0 <= iNdEx <= l
        invariant Progress(PARAMS, [], dAtA, iNdEx, rs, [])
        decreases l - iNdEx
      {
        var preIndex := iNdEx;
        var tag: Result<Tag>;
        tag, iNdEx := ReadTag(dAtA, preIndex);
        if tag.Err? {
          Stuck(PARAMS, [], dAtA, preIndex, rs, []);
          return Err(tag.error);
        }
        var skipped := SkipUnknown(dAtA, preIndex);
        if skipped.Err? {
          Stuck(PARAMS, [], dAtA, preIndex, rs, []);
          return Err(skipped.error);
        }
        iNdEx := skipped.value;
        ghost var q := RecordStandsAt(dAtA, preIndex, iNdEx);
        Advance(PARAMS, [], dAtA, preIndex, rs, [], q);
        rs := rs + [q];
      }
      Finish(PARAMS, [], dAtA, rs, []);
      if iNdEx > l {
        return Err(UnexpectedEOF);
      }
      return Ok(());
    }
  }

  /** The nested block of every message that holds `Params`: the payload, then its header. */
  method PutParams(params: Params, dAtA: array<byte>, len: int64, tag: byte) returns (i: int64)
    requires |Bytes(Field(tag, []))| <= len <= dAtA.Length <= MAX_INT
    modifies dAtA
    ensures 0 <= i == len - |Bytes(Field(tag, []))|
    ensures dAtA[..] == old(dAtA[..i]) + Bytes(Field(tag, [])) + old(dAtA[len..])
  {
    hide Bytes, Varint.Encode, Varint.Sov;
    FieldBytes(tag, []);
    var size := params.MarshalToSizedBuffer(dAtA, len);
    i := len - size;
    i := PutHeader(dAtA, i, size, tag);
  }
}
