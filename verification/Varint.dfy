/** Base 128 varints: what a string of bytes means, the loops that write and read it, and the
    closed forms that predict its length.
 */
module Varint {
  import opened Machine
  import opened Results

  // ----- Meaning -----------------------------------------------------------------------------

  /** One to ten bytes, all but the last with the continuation bit set. */
  predicate IsVarint(p: seq<byte>) {
    && 1 <= |p| <= 10
    && p[|p| - 1] < 0x80
    && forall k :: 0 <= k < |p| - 1 ==> p[k] >= 0x80
  }

  /** Little-endian value of the seven-bit payloads. */
  function Weight(p: seq<byte>): nat {
    if p == [] then 0 else p[0] % 0x80 + 0x80 * Weight(p[1..])
  }

  /** The 64-bit word that the bytes stand for; excess high bits are dropped. */
  function Value(p: seq<byte>): uint64 {
    Weight(p) % 0x1_0000_0000_0000_0000
  }

  /** The shortest spelling of v. */
  function Encode(v: nat): (p: seq<byte>)
    ensures |p| > 0
  {
    if v < 0x80 then [v] else [v % 0x80 + 0x80] + Encode(v / 0x80)
  }

  /** Where the varint that starts at `start` ends, given that the bytes start..pos all continue. */
  function VarintEnd(s: seq<byte>, start: nat, pos: nat): (r: Result<nat>)
    requires start <= pos <= |s| && pos - start <= 10
    ensures r.Ok? ==> pos < r.value <= |s| && r.value - start <= 10
    decreases |s| - pos
  {
    if pos - start == 10 then Err(IntOverflow)
    else if pos == |s| then Err(UnexpectedEOF)
    else if s[pos] < 0x80 then Ok(pos + 1)
    else VarintEnd(s, start, pos + 1)
  }

  /** Reading succeeds with end e exactly when the bytes up to e are a varint. */
  lemma {:induction false} VarintEndIff(s: seq<byte>, start: nat, pos: nat, e: nat)
    requires start <= pos <= |s| && pos - start <= 10 && pos <= e <= |s|
    requires forall k :: start <= k < pos ==> s[k] >= 0x80
    ensures VarintEnd(s, start, pos) == Ok(e) <==> IsVarint(s[start..e])
    decreases |s| - pos
  {
    var p := s[start..e];
    if IsVarint(p) {
      assert s[e - 1] == p[e - 1 - start];
      assert pos < e;
    }
    if pos - start == 10 || pos == |s| {
    } else if s[pos] < 0x80 {
      assert e > pos ==> p[pos - start] == s[pos];
    } else if e == pos {
    } else {
      VarintEndIff(s, start, pos + 1, e);
    }
  }

  /** The two ways to fail: the input ends, or the tenth byte still continues. */
  lemma {:induction false} VarintEndErrors(s: seq<byte>, start: nat, pos: nat)
    requires start <= pos <= |s| && pos - start <= 10
    requires forall k :: start <= k < pos ==> s[k] >= 0x80
    ensures VarintEnd(s, start, pos) == Err(UnexpectedEOF) <==>
              |s| - start < 10 && forall k :: start <= k < |s| ==> s[k] >= 0x80
    ensures VarintEnd(s, start, pos) == Err(IntOverflow) <==>
              |s| - start >= 10 && forall k :: start <= k < start + 10 ==> s[k] >= 0x80
    ensures VarintEnd(s, start, pos).Err? ==> VarintEnd(s, start, pos).error in {IntOverflow, UnexpectedEOF}
    decreases |s| - pos
  {
    if pos - start < 10 && pos < |s| && s[pos] >= 0x80 {
      VarintEndErrors(s, start, pos + 1);
    }
  }

  /** No varint is a proper prefix of another. */
  lemma VarintPrefixFree(p: seq<byte>, q: seq<byte>, t: seq<byte>, u: seq<byte>)
    requires IsVarint(p) && IsVarint(q) && p + t == q + u
    ensures p == q && t == u
  {
    var s := p + t;
    assert s[..|p|] == p && s[..|q|] == q;
    VarintEndIff(s, 0, 0, |p|);
    VarintEndIff(s, 0, 0, |q|);
    assert s[|p|..] == t && s[|q|..] == u;
  }

  // ----- Arithmetic of the payloads ----------------------------------------------------------

  lemma {:induction false} WeightBound(p: seq<byte>)
    ensures Weight(p) < Pow2(7 * |p|)
  {
    if p != [] {
      WeightBound(p[1..]);
      Pow2Step(7 * |p| - 7);
    }
  }

  lemma {:induction false} WeightAppend(p: seq<byte>, b: byte)
    ensures Weight(p + [b]) == Weight(p) + b % 0x80 * Pow2(7 * |p|)
  {
    if p == [] {
      assert Weight([b][1..]) == 0;
    } else {
      assert (p + [b])[1..] == p[1..] + [b];
      WeightAppend(p[1..], b);
      Pow2Step(7 * |p| - 7);
      var c, d := b % 0x80, Pow2(7 * |p| - 7);
      assert 0x80 * (c * d) == c * (0x80 * d);
    }
  }

  lemma WordBound(k: nat)
    requires k <= 63
    ensures Pow2(k) <= 0x8000_0000_0000_0000
    ensures k <= 56 ==> 0x80 * Pow2(k) <= 0x8000_0000_0000_0000
  {
    Pow2Values();
    Pow2Monotone(k, 63);
    if k <= 56 {
      Pow2Step(k);
      Pow2Monotone(k + 7, 63);
    }
  }

  lemma MulLe(c: nat, d: nat, p: nat)
    requires c <= d
    ensures c * p <= d * p
  {
  }

  lemma SmallWord(x: nat)
    requires x < 0x1_0000_0000_0000_0000
    ensures x % 0x1_0000_0000_0000_0000 == x
  {
  }

  /** Up to the ninth byte a shifted payload loses no bit. */
  lemma AccumulateLow(w: nat, c: nat, k: nat)
    requires c < 0x80 && k <= 56 && w < Pow2(k)
    ensures Or(w, Shl(c, k)) == w + c * Pow2(k) < 0x1_0000_0000_0000_0000
  {
    WordBound(k);
    MulLe(c, 0x7f, Pow2(k));
    SmallWord(c * Pow2(k));
    OrDisjoint(w, c, k);
  }

  /** The tenth byte keeps one bit of its payload. */
  lemma AccumulateTenth(w: nat, c: nat)
    requires c < 0x80 && w < Pow2(63)
    ensures Or(w, Shl(c, 63)) == (w + c * Pow2(63)) % 0x1_0000_0000_0000_0000
  {
    ShlTenth(c, w);
    OrDisjoint(w, c % 2, 63);
  }

  lemma ShlTenth(c: nat, w: nat)
    requires c < 0x80 && w < Pow2(63)
    ensures Shl(c, 63) == c % 2 * Pow2(63)
    ensures (w + c * Pow2(63)) % 0x1_0000_0000_0000_0000 == w + c % 2 * Pow2(63)
  {
    var p := Pow2(63);
    assert p == 0x8000_0000_0000_0000 by { Pow2Values(); }
    assert c * p == c * 0x8000_0000_0000_0000;
    var h := c / 2;
    assert c == 2 * h + c % 2;
  }

  /** The word is the little-endian base 128 sum of the payloads modulo 2^64. */
  lemma ValueUnfolds(b: byte, p: seq<byte>)
    ensures Value([]) == 0
    ensures Value([b] + p) == (b % 0x80 + 0x80 * Value(p)) % 0x1_0000_0000_0000_0000
  {
    assert ([b] + p)[1..] == p;
    LowBitsStay(b % 0x80, Weight(p));
  }

  lemma LowBitsStay(c: nat, w: nat)
    ensures (c + 0x80 * w) % 0x1_0000_0000_0000_0000
         == (c + 0x80 * (w % 0x1_0000_0000_0000_0000)) % 0x1_0000_0000_0000_0000
  {
    var q, a := w / 0x1_0000_0000_0000_0000, c + 0x80 * (w % 0x1_0000_0000_0000_0000);
    LowBitsUnique(c + 0x80 * w, a % 0x1_0000_0000_0000_0000, a / 0x1_0000_0000_0000_0000 + 0x80 * q);
  }

  lemma LowBitsUnique(x: nat, r: uint64, q: nat)
    requires x == r + 0x1_0000_0000_0000_0000 * q
    ensures x % 0x1_0000_0000_0000_0000 == r
  {
  }

  /** One turn of the decoding loop: `wire |= uint64(b&0x7F) << shift`. */
  lemma Accumulate(p: seq<byte>, b: byte)
    requires |p| <= 9
    ensures Or(Value(p), Shl(And(b, 0x7f), 7 * |p|)) == Value(p + [b])
  {
    var k, c := 7 * |p|, b % 0x80;
    assert And(b, 0x7f) == c by { Mask7(b); }
    assert Weight(p) < Pow2(k) by { WeightBound(p); }
    assert Value(p) == Weight(p) by { WordBound(k); SmallWord(Weight(p)); }
    assert Weight(p + [b]) == Weight(p) + c * Pow2(k) by { WeightAppend(p, b); }
    if |p| < 9 {
      AccumulateLow(Weight(p), c, k);
      SmallWord(Weight(p + [b]));
    } else {
      AccumulateTenth(Weight(p), c);
    }
  }

  // ----- Encoding and its size ---------------------------------------------------------------

  /** The closed form by which the encoder knows its size before it writes. */
  function Sov(x: uint64): nat {
    (Len64(Or(x, 1)) + 6) / 7
  }

  lemma OrOne(x: nat)
    ensures Or(x, 1) == if x % 2 == 0 then x + 1 else x
  {
    assert Or(x / 2, 0) == x / 2 by { OrCommutes(x / 2, 0); OrZero(x / 2); }
  }

  lemma OrCommutes(x: nat, y: nat)
    ensures Or(x, y) == Or(y, x)
    decreases x + y
  {
  }

  lemma Len64Shift7(v: nat)
    requires v >= 0x80
    ensures Len64(v) == 7 + Len64(v / 0x80)
  {
    Len64Shift3(v, v / 8);
    Len64Shift3(v / 8, v / 0x40);
    assert v / 0x80 == v / 0x40 / 2;
  }

  lemma Len64Shift3(v: nat, w: nat)
    requires v >= 8 && w == v / 8
    ensures Len64(v) == 3 + Len64(w)
  {
    var a := v / 2;
    var b := a / 2;
    assert b / 2 == w;
    assert Len64(v) == 1 + Len64(a);
    assert Len64(a) == 1 + Len64(b);
    assert Len64(b) == 1 + Len64(w);
  }

  lemma Len64Odd(x: nat)
    requires x > 0
    ensures Len64(Or(x, 1)) == Len64(x)
  {
    OrOne(x);
    assert Or(x, 1) / 2 == x / 2;
  }

  /** The closed form is the number of bytes that the encoder writes. */
  lemma {:induction false} SovIsEncodedSize(v: uint64)
    ensures Sov(v) == |Encode(v)|
  {
    if v < 0x80 {
      SovOfByte(v);
    } else {
      var w := v / 0x80;
      assert Len64(Or(v, 1)) == 7 + Len64(Or(w, 1)) by {
        Len64Odd(v);
        Len64Odd(w);
        Len64Shift7(v);
      }
      SovIsEncodedSize(w);
    }
  }

  lemma SovOfByte(v: uint64)
    requires v < 0x80
    ensures Sov(v) == 1
  {
    OrOne(v);
    Len64Bound(Or(v, 1), 7);
  }

  lemma Len64Bound(x: nat, k: nat)
    requires x < Pow2(k)
    ensures Len64(x) <= k
  {
    if x > 0 && k > 0 {
      Len64Bound(x / 2, k - 1);
    }
  }

  /** The closed form is the least number of seven-bit groups that hold x. */
  lemma SovIsLeast(x: uint64, k: nat)
    requires k >= 1
    ensures Sov(x) <= k <==> x < Pow2(7 * k)
    ensures 1 <= Sov(x) <= 10
  {
    SovIsEncodedSize(x);
    EncodedSizeIsLeast(x, k);
    EncodedSizeIsLeast(x, 10);
    Pow2Values();
    Pow2Monotone(64, 70);
  }

  lemma {:induction false} EncodedSizeIsLeast(x: nat, k: nat)
    requires k >= 1
    ensures |Encode(x)| <= k <==> x < Pow2(7 * k)
  {
    Pow2Step(7 * k - 7);
    if k == 1 {
      assert |Encode(x)| <= 1 <==> x < 0x80;
    } else {
      Pow2Monotone(0, 7 * k - 7);
      if x >= 0x80 {
        EncodedSizeIsLeast(x / 0x80, k - 1);
      }
    }
  }

  /** The encoder's output is a varint, and it stands for the word that was encoded. */
  lemma EncodeIsVarint(v: uint64)
    ensures IsVarint(Encode(v)) && Value(Encode(v)) == v
  {
    SovIsEncodedSize(v);
    SovIsLeast(v, 1);
    EncodeShape(v);
    SmallWord(v);
  }

  lemma {:induction false} EncodeShape(v: nat)
    ensures Weight(Encode(v)) == v
    ensures forall k :: 0 <= k < |Encode(v)| - 1 ==> Encode(v)[k] >= 0x80
    ensures Encode(v)[|Encode(v)| - 1] < 0x80
  {
    var p := Encode(v);
    if v >= 0x80 {
      EncodeShape(v / 0x80);
      assert p[1..] == Encode(v / 0x80);
      assert p[0] % 0x80 == v % 0x80;
    }
  }

  /** Every other spelling of the same word is at least as long. */
  lemma EncodeIsShortest(p: seq<byte>)
    requires IsVarint(p)
    ensures |Encode(Value(p))| <= |p|
  {
    var v := Value(p);
    EncodedSizeIsLeast(v, |p|);
    WeightBound(p);
    if |p| <= 9 {
      WordBound(7 * |p|);
      SmallWord(Weight(p));
    } else {
      Pow2Values();
      Pow2Monotone(64, 70);
    }
  }

  // ----- ZigZag ------------------------------------------------------------------------------

  /** `(x << 1) ^ uint64(int64(x) >> 63)` */
  function ZigZag(x: uint64): (r: nat) {
    Xor(Shl(x, 1), ToUint64(Wrap64(Sar(ToInt64(x), 63))))
  }

  function UnZigZag(z: uint64): int64 {
    if z % 2 == 0 then z / 2 else -(z / 2) - 1
  }

  /** ZigZag interleaves the signed numbers 0, -1, 1, -2, ... as 0, 1, 2, 3, ... */
  lemma ZigZagMeaning(x: uint64)
    ensures var n := ToInt64(x); ZigZag(x) == if n >= 0 then 2 * n else -2 * n - 1
  {
    var n := ToInt64(x);
    var y, fill := Shl(x, 1), ToUint64(Wrap64(Sar(n, 63)));
    SignFill(n);
    ShlOne(x);
    if n >= 0 {
      XorZero(y);
    } else {
      Complement(y, fill);
    }
  }

  lemma ShlOne(x: uint64)
    ensures Shl(x, 1) == if x < 0x8000_0000_0000_0000 then 2 * x else 2 * x - 0x1_0000_0000_0000_0000
  {
    assert Pow2(1) == 2;
  }

  lemma Complement(y: uint64, ones: uint64)
    requires ones == 0xffff_ffff_ffff_ffff
    ensures Xor(y, ones) == ones - y
  {
    assert Pow2(64) == 0x1_0000_0000_0000_0000 by { Pow2Values(); }
    XorOnes(y, 64);
  }

  /** The arithmetic shift spreads the sign bit over the whole word. */
  lemma SignFill(n: int64)
    ensures ToUint64(Wrap64(Sar(n, 63))) == if n >= 0 then 0 else 0xffff_ffff_ffff_ffff
  {
    assert Pow2(63) == 0x8000_0000_0000_0000 by { Pow2Values(); }
    assert Sar(n, 63) == if n >= 0 then 0 else -1;
  }

  lemma ZigZagRange(x: uint64)
    ensures ZigZag(x) < 0x1_0000_0000_0000_0000
  {
    ZigZagMeaning(x);
  }

  /** ZigZag is a bijection on 64-bit words. */
  lemma ZigZagBijection(x: uint64)
    ensures ZigZag(x) < 0x1_0000_0000_0000_0000 && UnZigZag(ZigZag(x)) == ToInt64(x)
    ensures ZigZag(ToUint64(UnZigZag(x))) == x
  {
    ZigZagRange(x);
    ZigZagInverse(x);
    UnZigZagInverse(x);
  }

  lemma ZigZagInverse(x: uint64)
    requires ZigZag(x) < 0x1_0000_0000_0000_0000
    ensures UnZigZag(ZigZag(x)) == ToInt64(x)
  {
    ZigZagMeaning(x);
    UnZigZagInterleaves(ToInt64(x), ZigZag(x));
  }

  lemma UnZigZagInterleaves(n: int64, z: uint64)
    requires z == if n >= 0 then 2 * n else -2 * n - 1
    ensures UnZigZag(z) == n
  {
  }

  lemma UnZigZagInverse(z: uint64)
    ensures ZigZag(ToUint64(UnZigZag(z))) == z
  {
    var n := UnZigZag(z);
    assert z as int == if n >= 0 then 2 * (n as int) else -2 * (n as int) - 1;
    assert ToInt64(ToUint64(n)) == n;
    ZigZagMeaning(ToUint64(n));
  }

  function Soz(x: uint64): nat {
    ZigZagRange(x);
    Sov(ZigZag(x))
  }

  /** k bytes hold exactly the signed numbers of 7k bits. */
  lemma SozIsLeast(x: uint64, k: nat)
    requires 1 <= k <= 9
    ensures 1 <= Soz(x) <= 10
    ensures Soz(x) <= k <==> -(Pow2(7 * k - 1) as int) <= ToInt64(x) < Pow2(7 * k - 1)
  {
    ZigZagRange(x);
    ZigZagMeaning(x);
    SovIsLeast(ZigZag(x), k);
    assert Pow2(7 * k) == 2 * Pow2(7 * k - 1);
  }

  // ----- The loops ---------------------------------------------------------------------------

  /** Writes v so that it ends just before `offset`, and returns where it starts. */
  method EncodeVarint(dAtA: array<byte>, offset: int64, v: uint64) returns (base: int64)
    requires Sov(v) <= offset <= dAtA.Length <= MAX_INT
    modifies dAtA
    ensures base == offset - Sov(v)
    ensures dAtA[..] == old(dAtA[..base]) + Encode(v) + old(dAtA[offset..])
  {
    SovIsEncodedSize(v);
    var at := offset - Sov(v);
    base := at;
    var w: uint64 := v;
    ghost var before: seq<byte> := dAtA[..base];
    ghost var written: seq<byte> := [];
    while w >= 0x80
      invariant base <= at && at + |Encode(w)| == offset
      invariant written + Encode(w) == Encode(v)
      invariant dAtA[..at] == before + written
      invariant dAtA[offset..] == old(dAtA[offset..])
      decreases w
    {
      EncodeStep(w, written);
      var b := Or(And(w, 0x7f), 0x80);
      dAtA[at] := b;
      assert dAtA[..at + 1] == dAtA[..at] + [b] == before + (written + [b]);
      written := written + [b];
      w := Shr(w, 7);
      at := at + 1;
    }
    dAtA[at] := w;
    assert dAtA[..] == dAtA[..at] + [w] + dAtA[offset..];
    assert before + (written + [w]) == before + written + [w];
  }

  /** What one turn of the encoding loop writes and leaves. */
  lemma EncodeStep(w: uint64, written: seq<byte>)
    requires w >= 0x80
    ensures var b := Or(And(w, 0x7f), 0x80);
            b < 0x100 && written + Encode(w) == written + [b] + Encode(w / 0x80)
    ensures Shr(w, 7) == w / 0x80 && |Encode(w)| == 1 + |Encode(w / 0x80)|
  {
    EncodeByte(w);
    assert Encode(w) == [w % 0x80 + 0x80] + Encode(w / 0x80);
  }

  lemma EncodeByte(w: uint64)
    ensures Or(And(w, 0x7f), 0x80) == w % 0x80 + 0x80
    ensures Shr(w, 7) == w / 0x80
  {
    assert Pow2(7) == 0x80 by { Pow2Values(); }
    Mask7(w);
    var m := And(w, 0x7f);
    assert Or(m, 1 * Pow2(7)) == m + 1 * Pow2(7) by { OrDisjoint(m, 1, 7); }
  }

  /** The decoding loop that the parsers inline for tags and lengths. */
  method DecodeVarint(dAtA: Slice, start: int64) returns (r: Result<uint64>, iNdEx: int64)
    requires 0 <= start <= |dAtA|
    ensures r == Err(UnexpectedEOF) <==>
              |dAtA| - start < 10 && forall k :: start <= k < |dAtA| ==> dAtA[k] >= 0x80
    ensures r == Err(IntOverflow) <==>
              |dAtA| - start >= 10 && forall k :: start <= k < start + 10 ==> dAtA[k] >= 0x80
    ensures r.Err? ==> r.error in {IntOverflow, UnexpectedEOF} && VarintEnd(dAtA, start, start) == Err(r.error)
    ensures r.Ok? ==> start < iNdEx <= |dAtA| && IsVarint(dAtA[start..iNdEx])
    ensures r.Ok? ==> r.value == Value(dAtA[start..iNdEx]) && VarintEnd(dAtA, start, start) == Ok(iNdEx)
  {
    hide Value, IsVarint, Or, Shl;
    VarintEndErrors(dAtA, start, start);
    ValueUnfolds(0, []);
    assert dAtA[start..start] == [];
    var l := |dAtA|;
    iNdEx := start;
    var wire: uint64 := 0;
    var shift := 0;
    while true
      invariant start <= iNdEx <= l && shift == 7 * (iNdEx - start) <= 70
      invariant wire == Value(dAtA[start..iNdEx])
      invariant VarintEnd(dAtA, start, start) == VarintEnd(dAtA, start, iNdEx)
      decreases 70 - shift
    {
      if shift >= 64 {
        return Err(IntOverflow), iNdEx;
      }
      if iNdEx >= l {
        return Err(UnexpectedEOF), iNdEx;
      }
      var b := dAtA[iNdEx];
      Accumulate(dAtA[start..iNdEx], b);
      assert dAtA[start..iNdEx] + [b] == dAtA[start..iNdEx + 1];
      wire := Or(wire, Shl(And(b, 0x7f), shift));
      iNdEx := iNdEx + 1;
      if b < 0x80 {
        break;
      }
      shift := shift + 7;
    }
    VarintEndIff(dAtA, start, start, iNdEx);
    r := Ok(wire);
  }

  /** The loop with which the skipper passes over a varint whose value it does not need. */
  method SkipVarint(dAtA: Slice, start: int64) returns (r: Result<()>, iNdEx: int64)
    requires 0 <= start <= |dAtA|
    ensures r == Err(UnexpectedEOF) <==>
              |dAtA| - start < 10 && forall k :: start <= k < |dAtA| ==> dAtA[k] >= 0x80
    ensures r == Err(IntOverflow) <==>
              |dAtA| - start >= 10 && forall k :: start <= k < start + 10 ==> dAtA[k] >= 0x80
    ensures r.Err? ==> r.error in {IntOverflow, UnexpectedEOF} && VarintEnd(dAtA, start, start) == Err(r.error)
    ensures r.Ok? ==> start < iNdEx <= |dAtA| && IsVarint(dAtA[start..iNdEx])
    ensures r.Ok? ==> VarintEnd(dAtA, start, start) == Ok(iNdEx)
  {
    VarintEndErrors(dAtA, start, start);
    var l := |dAtA|;
    iNdEx := start;
    var shift := 0;
    while true
      invariant start <= iNdEx <= l && shift == 7 * (iNdEx - start) <= 70
      invariant VarintEnd(dAtA, start, start) == VarintEnd(dAtA, start, iNdEx)
      decreases 70 - shift
    {
      if shift >= 64 {
        return Err(IntOverflow), iNdEx;
      }
      if iNdEx >= l {
        return Err(UnexpectedEOF), iNdEx;
      }
      iNdEx := iNdEx + 1;
      if dAtA[iNdEx - 1] < 0x80 {
        break;
      }
      shift := shift + 7;
    }
    VarintEndIff(dAtA, start, start, iNdEx);
    r := Ok(());
  }

  /** Reading back what was written, whatever follows, gives the word and stops after it. */
  lemma DecodeEncoded(s: seq<byte>, start: nat, v: uint64, t: seq<byte>)
    requires start <= |s| && s[start..] == Encode(v) + t
    ensures VarintEnd(s, start, start) == Ok(start + Sov(v))
    ensures Value(s[start..start + Sov(v)]) == v
  {
    SovIsEncodedSize(v);
    EncodeIsVarint(v);
    var e := start + |Encode(v)|;
    assert s[start..e] == s[start..][..|Encode(v)|] == Encode(v);
    VarintEndIff(s, start, start, e);
  }
}
