/** The AMD report signature field: two 72-byte little-endian integers and a reserved tail. */
module AmdSignature {
  import opened Prelude
  import opened Endian

  const RS_LEN: nat := 0x48
  const SCALAR_LEN: nat := 48
  const FIELD_LEN: nat := 512

  /** The big-endian scalar in a 72-byte little-endian half. */
  function Scalar(field72: Bytes): (r: Bytes)
    requires |field72| == RS_LEN
    ensures |r| == SCALAR_LEN
  {
    Reverse(field72)[24..]
  }

  /** Turns a copy of the half around, from both ends towards the middle, and keeps what lies behind
      the 24 padding bytes. */
  method ReadScalar(field72: Bytes) returns (r: Option<Bytes>)
    ensures r == if |field72| == RS_LEN then Some(Scalar(field72)) else None
  {
    if |field72| != RS_LEN {
      return None;
    }
    var rev := new byte[RS_LEN](i requires 0 <= i < RS_LEN => field72[i]);
    var done := 0;
    while done < RS_LEN / 2
      invariant 0 <= done <= RS_LEN / 2
      invariant forall k :: 0 <= k < done ==> rev[k] == field72[71 - k]
      invariant forall k :: done <= k < RS_LEN - done ==> rev[k] == field72[k]
      invariant forall k :: RS_LEN - done <= k < RS_LEN ==> rev[k] == field72[71 - k]
    {
      var high := RS_LEN - 1 - done;
      var low := rev[done];
      rev[done] := rev[high];
      rev[high] := low;
      done := done + 1;
    }
    assert rev[..] == Reverse(field72);
    assert rev[24..] == rev[..][24..];
    r := Some(rev[24..]);
  }

  lemma ScalarIsLowHalf(field72: Bytes)
    requires |field72| == RS_LEN
    ensures Scalar(field72) == Reverse(field72[..SCALAR_LEN])
  {
  }

  /** The decoded scalar is the field's value modulo 2^384, and equals it exactly when the padding
      is zero. */
  lemma ScalarValue(field72: Bytes)
    requires |field72| == RS_LEN
    ensures BeValue(Scalar(field72)) == LeValue(field72) % Pow256(SCALAR_LEN)
    ensures BeValue(Scalar(field72)) == LeValue(field72) <==>
            forall i :: SCALAR_LEN <= i < RS_LEN ==> field72[i] == 0
  {
    hide Scalar;
    hide LeValue;
    hide Reverse;
    hide Pow256;
    var lo, hi := field72[..SCALAR_LEN], field72[SCALAR_LEN..];
    ScalarReadsLow(field72);
    assert lo + hi == field72;
    LeConcat(lo, hi);
    LeBound(lo);
    LeZero(hi);
    DivideOut(LeValue(lo), Pow256(SCALAR_LEN), LeValue(hi));
    assert forall i :: SCALAR_LEN <= i < RS_LEN ==> field72[i] == hi[i - SCALAR_LEN];
    assert forall i :: 0 <= i < |hi| ==> hi[i] == field72[i + SCALAR_LEN];
  }

  lemma ScalarReadsLow(field72: Bytes)
    requires |field72| == RS_LEN
    ensures BeValue(Scalar(field72)) == LeValue(field72[..SCALAR_LEN])
  {
    ScalarIsLowHalf(field72);
    ReverseInvolutive(field72[..SCALAR_LEN]);
  }

  lemma DivideOut(lo: nat, p: nat, hi: nat)
    requires lo < p
    ensures (lo + p * hi) % p == lo
    ensures lo == lo + p * hi <==> hi == 0
  {
    var n := lo + p * hi;
    var d: int := n / p - hi;
    assert n % p == lo - p * d;
    assert d >= 1 ==> p * d >= p;
    assert d <= -1 ==> p * d + p <= 0;
  }

  /** The fixed-width big-endian `r || s` of a signature field. */
  function Decode(field: Bytes): (r: Option<Bytes>)
    requires |field| == FIELD_LEN
    ensures r.Some? ==> |r.value| == 96
  {
    if !AllZero(field[0x90..]) then None
    else Some(Scalar(field[..RS_LEN]) + Scalar(field[RS_LEN..0x90]))
  }

  /** A readable field has 368 zero bytes at its end; `r` is in bytes 0 to 47 and `s` in bytes 72 to 119, both
      with the least significant byte first. */
  lemma DecodeReads(field: Bytes)
    requires |field| == 512
    ensures Decode(field) ==
            if AllZero(field[144..]) then Some(Reverse(field[..48]) + Reverse(field[72..120])) else None
  {
    hide Scalar, Reverse;
    FirstOfHalf(field);
    ScalarIsLowHalf(field[..RS_LEN]);
    ScalarIsLowHalf(field[RS_LEN..0x90]);
  }

  /** A scalar as a 72-byte little-endian half. */
  function EncodeScalar(be48: Bytes): (r: Bytes)
    requires |be48| == SCALAR_LEN
    ensures |r| == RS_LEN
  {
    Reverse(Repeat(0, 24) + be48)
  }

  /** How firmware stores a signature. */
  function Encode(rs: Bytes): (r: Bytes)
    requires |rs| == 96
    ensures |r| == FIELD_LEN
  {
    EncodeScalar(rs[..SCALAR_LEN]) + EncodeScalar(rs[SCALAR_LEN..]) + Repeat(0, 368)
  }

  lemma ScalarRoundTrip(be48: Bytes)
    requires |be48| == SCALAR_LEN
    ensures Scalar(EncodeScalar(be48)) == be48
  {
    ReverseInvolutive(Repeat(0, 24) + be48);
  }

  /** What firmware stores decodes to what was signed. */
  lemma SignatureRoundTrip(rs: Bytes)
    requires |rs| == 96
    ensures Decode(Encode(rs)) == Some(rs)
  {
    var field := Encode(rs);
    assert field[..RS_LEN] == EncodeScalar(rs[..SCALAR_LEN]);
    assert field[RS_LEN..0x90] == EncodeScalar(rs[SCALAR_LEN..]);
    assert field[0x90..] == Repeat(0, 368);
    ScalarRoundTrip(rs[..SCALAR_LEN]);
    ScalarRoundTrip(rs[SCALAR_LEN..]);
    assert rs[..SCALAR_LEN] + rs[SCALAR_LEN..] == rs;
  }

  predicate PaddingZero(field: Bytes)
    requires |field| == FIELD_LEN
  {
    AllZero(field[SCALAR_LEN..RS_LEN]) && AllZero(field[RS_LEN + SCALAR_LEN..0x90])
  }

  lemma HalfFromScalar(half: Bytes)
    requires |half| == RS_LEN && AllZero(half[SCALAR_LEN..])
    ensures EncodeScalar(Scalar(half)) == half
  {
    var rev := Reverse(half);
    assert forall i :: 0 <= i < 24 ==> rev[i] == half[71 - i] == half[SCALAR_LEN..][23 - i];
    assert Repeat(0, 24) + Scalar(half) == rev;
    ReverseInvolutive(half);
  }

  /** A field is the encoding of its decoding exactly when its padding is zero; the decoder itself
      does not look at the padding. */
  lemma DecodeInverts(field: Bytes)
    requires |field| == FIELD_LEN && Decode(field).Some?
    ensures Encode(Decode(field).value) == field <==> PaddingZero(field)
  {
    var rs := Decode(field).value;
    var r, s := field[..RS_LEN], field[RS_LEN..0x90];
    assert rs[..SCALAR_LEN] == Scalar(r) && rs[SCALAR_LEN..] == Scalar(s);
    assert r[SCALAR_LEN..] == field[SCALAR_LEN..RS_LEN];
    assert s[SCALAR_LEN..] == field[RS_LEN + SCALAR_LEN..0x90];
    assert field == r + s + field[0x90..];
    if PaddingZero(field) {
      HalfFromScalar(r);
      HalfFromScalar(s);
      assert field[0x90..] == Repeat(0, 368);
    }
    if Encode(rs) == field {
      assert r == EncodeScalar(Scalar(r)) && s == EncodeScalar(Scalar(s)) by {
        assert Encode(rs)[..RS_LEN] == EncodeScalar(Scalar(r));
        assert Encode(rs)[RS_LEN..0x90] == EncodeScalar(Scalar(s));
      }
      EncodedPadding(Scalar(r));
      EncodedPadding(Scalar(s));
    }
  }

  lemma EncodedPadding(be48: Bytes)
    requires |be48| == SCALAR_LEN
    ensures AllZero(EncodeScalar(be48)[SCALAR_LEN..])
  {
  }

  // ---------------------------------------------------------------- what the padding decides

  /** The two fields agree on both scalars and on the tail; their paddings may differ. */
  predicate SameScalars(a: Bytes, b: Bytes)
    requires |a| == |b| == FIELD_LEN
  {
    && a[..SCALAR_LEN] == b[..SCALAR_LEN]
    && a[RS_LEN..RS_LEN + SCALAR_LEN] == b[RS_LEN..RS_LEN + SCALAR_LEN]
    && a[0x90..] == b[0x90..]
  }

  /** Two halves decode to one scalar exactly when they agree outside the padding. */
  lemma ScalarIff(a: Bytes, b: Bytes)
    requires |a| == |b| == RS_LEN
    ensures Scalar(a) == Scalar(b) <==> a[..SCALAR_LEN] == b[..SCALAR_LEN]
  {
    ScalarIsLowHalf(a);
    ScalarIsLowHalf(b);
    ReverseInvolutive(a[..SCALAR_LEN]);
    ReverseInvolutive(b[..SCALAR_LEN]);
  }

  /** A readable field decodes like another one exactly when they agree outside the padding, so the
      padding plays no part in the signature. */
  lemma DecodeIff(a: Bytes, b: Bytes)
    requires |a| == |b| == FIELD_LEN && Decode(a).Some?
    ensures Decode(a) == Decode(b) <==> SameScalars(a, b)
  {
    hide Scalar;
    ScalarIff(a[..RS_LEN], b[..RS_LEN]);
    ScalarIff(a[RS_LEN..0x90], b[RS_LEN..0x90]);
    FirstOfHalf(a);
    FirstOfHalf(b);
    if Decode(a) == Decode(b) {
      SplitEqual(Scalar(a[..RS_LEN]), Scalar(a[RS_LEN..0x90]), Scalar(b[..RS_LEN]), Scalar(b[RS_LEN..0x90]));
      assert a[0x90..] == Repeat(0, 368) && b[0x90..] == Repeat(0, 368);
    }
  }

  lemma SameScalarsDecode(a: Bytes, b: Bytes)
    requires |a| == |b| == FIELD_LEN && SameScalars(a, b)
    ensures Decode(a) == Decode(b)
  {
    if Decode(a).Some? {
      DecodeIff(a, b);
    } else if Decode(b).Some? {
      DecodeIff(b, a);
    }
  }

  lemma FirstOfHalf(a: Bytes)
    requires |a| == FIELD_LEN
    ensures a[..RS_LEN][..SCALAR_LEN] == a[..SCALAR_LEN]
    ensures a[RS_LEN..0x90][..SCALAR_LEN] == a[RS_LEN..RS_LEN + SCALAR_LEN]
  {
  }

  /** Besides its encoding, every signature has a field with non-zero padding that decodes to it. */
  lemma PaddedTwin(rs: Bytes)
    requires |rs| == 96
    ensures var twin := Encode(rs)[SCALAR_LEN := 1];
            twin != Encode(rs) && !PaddingZero(twin) && Decode(twin) == Some(rs)
  {
    hide Encode;
    hide Decode;
    SignatureRoundTrip(rs);
    var twin := Encode(rs)[SCALAR_LEN := 1];
    DecodeIff(Encode(rs), twin);
    assert twin[SCALAR_LEN..RS_LEN][0] == 1;
    EncodedFieldIsPadded(rs);
  }

  lemma EncodedFieldIsPadded(rs: Bytes)
    requires |rs| == 96
    ensures Encode(rs)[SCALAR_LEN] == 0
  {
    EncodedPadding(rs[..SCALAR_LEN]);
    assert EncodeScalar(rs[..SCALAR_LEN])[SCALAR_LEN..][0] == 0;
  }
}
