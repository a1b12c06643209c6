/** `Module`, the configuration message: one text field. */
module ModulePb {
  import opened Machine
  import opened Results
  import opened Wire
  import opened Decoding
  import opened Encoding
  import opened Parsing
  import Skip
  import Varint

  class Module {
    var authority: Slice

    constructor ()
      ensures authority == []
    {
      authority := [];
    }

    function Size(): int64
      reads this
    {
      var l := |authority|;
      if l > 0 then FieldSize(l) else 0
    }

    /** The size is the length of the encoding, unless that is too long for an `int`. */
    lemma SizeIsExact()
      ensures Size() == Wrap64(|ModuleBytes(authority)|)
      ensures Size() == |ModuleBytes(authority)| <==> |ModuleBytes(authority)| <= MAX_INT
    {
      hide FieldSize, Wrap64, Bytes, TextRecords;
      EncodedForms(authority);
      FieldSizeWraps(TAG_FIELD_1, authority);
      WrapSmall(0);
      WrapFits(|ModuleBytes(authority)|);
    }

    /** Writes the encoding backwards into the last bytes of dAtA[..len], and nothing else. */
    method MarshalToSizedBuffer(dAtA: array<byte>, len: int64) returns (n: int64)
      requires |ModuleBytes(authority)| <= len <= dAtA.Length <= MAX_INT
      modifies dAtA
      ensures n == |ModuleBytes(authority)|
      ensures dAtA[..] == old(dAtA[..len - n]) + ModuleBytes(authority) + old(dAtA[len..])
    {
      hide Bytes, Varint.Encode, Varint.Sov, ModuleBytes;
      EncodedForms(authority);
      FieldBytes(TAG_FIELD_1, authority);
      var i := len;
      if |authority| > 0 {
        i := PutText(dAtA, i, authority, TAG_FIELD_1);
      }
      n := len - i;
    }

    /** Writes the encoding at the front of a buffer that has room for it. */
    method MarshalTo(dAtA: array<byte>) returns (n: int64)
      requires |ModuleBytes(authority)| <= dAtA.Length <= MAX_INT
      modifies dAtA
      ensures n == |ModuleBytes(authority)|
      ensures dAtA[..] == ModuleBytes(authority) + old(dAtA[n..])
    {
      hide Bytes, Flatten, Wrap64;
      SizeIsExact();
      var size := Size();
      n := MarshalToSizedBuffer(dAtA, size);
    }

    /** The encoding fills the whole allocation. */
    method Marshal() returns (bytes: seq<byte>)
      requires |ModuleBytes(authority)| <= MAX_INT
      ensures bytes == ModuleBytes(authority)
    {
      hide Bytes, Flatten, Wrap64;
      SizeIsExact();
      var size := Size();
      var dAtA := new byte[size](_ => 0);
      var n := MarshalToSizedBuffer(dAtA, size);
      assert n == dAtA.Length;
      return dAtA[..n];
    }

    /** Merges the input into the message; an error leaves it partly updated. */
    method Unmarshal(dAtA: Slice) returns (r: Result<()>)
      modifies this
      ensures r.Ok? <==> Decode(MODULE, old(authority), dAtA).Some?
      ensures r.Ok? ==> Decode(MODULE, old(authority), dAtA) == Some(authority)
    {
      hide Decode, Progress, StandsAt, Skip.IsRecord, WellFormed, EmptyAccepts;
      var l := |dAtA|;
      var iNdEx: int64 := 0;
      ghost var rs := [];
      Start(MODULE, authority, dAtA);
      while iNdEx < l
        invariant 0 <= iNdEx <= l
        invariant Progress(MODULE, old(authority), dAtA, iNdEx, rs, authority)
        decreases l - iNdEx
      {
        var preIndex := iNdEx;
        ghost var q;
        var tag: Result<Tag>;
        tag, iNdEx := ReadTag(dAtA, preIndex);
        if tag.Err? {
          Stuck(MODULE, old(authority), dAtA, preIndex, rs, authority);
          return Err(tag.error);
        }
        match tag.value.field {
        case 1 =>
          var post: Result<int64>;
          ghost var tagEnd := iNdEx;
          post, iNdEx := ReadPayload(dAtA, preIndex, iNdEx, tag.value.wireType);
          if post.Err? {
            Stuck(MODULE, old(authority), dAtA, preIndex, rs, authority);
            return Err(post.error);
          }
          var postIndex := post.value;
          q := Delimited(dAtA[preIndex..tagEnd], dAtA[tagEnd..iNdEx], dAtA[iNdEx..postIndex]);
          Advance(MODULE, old(authority), dAtA, preIndex, rs, authority, q);
          authority := dAtA[iNdEx..postIndex];
          iNdEx := postIndex;
        case _ =>
          iNdEx := preIndex;
          var skipped := SkipUnknown(dAtA, iNdEx);
          if skipped.Err? {
            Stuck(MODULE, old(authority), dAtA, preIndex, rs, authority);
            return Err(skipped.error);
          }
          iNdEx := skipped.value;
          q := RecordStandsAt(dAtA, preIndex, iNdEx);
          Advance(MODULE, old(authority), dAtA, preIndex, rs, authority, q);
        }
        rs := rs + [q];
      }
      Finish(MODULE, old(authority), dAtA, rs, authority);
      if iNdEx > l {
        return Err(UnexpectedEOF);
      }
      return Ok(());
    }
  }
}
