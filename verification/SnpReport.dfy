/** The SEV-SNP firmware attestation report: layout, signed region and signature field. */
module SnpReport {
  import opened Prelude
  import opened Endian

  const REPORT_SIZE: nat := 0x4A0
  const SIGNED_LEN: nat := 0x2A0

  /** The fields the verifier binds over.  Byte-array fields have their exact lengths. */
  datatype ReportFields = ReportFields(
    version: u32,
    guest_policy: u64,
    sig_algo: u32,
    report_data: Bytes,
    measurement: Bytes,
    report_id: Bytes,
    reported_tcb: u64,
    chip_id: Bytes
  ) {
    predicate Sized() {
      |report_data| == 64 && |measurement| == 48 && |report_id| == 32 && |chip_id| == 64
    }
  }

  lemma WordBounds(b: Bytes)
    ensures |b| == 4 ==> LeValue(b) < 0x1_0000_0000
    ensures |b| == 8 ==> LeValue(b) < 0x1_0000_0000_0000_0000
  {
    LeBound(b);
    Pow256Small();
  }

  function U32At(buf: Bytes, o: nat): u32
    requires o + 4 <= |buf|
  {
    WordBounds(buf[o..o + 4]);
    LeValue(buf[o..o + 4])
  }

  function U64At(buf: Bytes, o: nat): u64
    requires o + 8 <= |buf|
  {
    WordBounds(buf[o..o + 8]);
    LeValue(buf[o..o + 8])
  }

  function Parse(buf: Bytes): (r: Option<ReportFields>)
    ensures r.Some? <==> |buf| == REPORT_SIZE
    ensures r.Some? ==> r.value.Sized()
  {
    if |buf| != REPORT_SIZE then None
    else Some(ReportFields(
      U32At(buf, 0x00),
      U64At(buf, 0x08),
      U32At(buf, 0x34),
      buf[0x50..0x90],
      buf[0x90..0xC0],
      buf[0x140..0x160],
      U64At(buf, 0x180),
      buf[0x1A0..0x1E0]))
  }

  function SignedBytes(buf: Bytes): Option<Bytes> {
    if |buf| == REPORT_SIZE then Some(buf[..SIGNED_LEN]) else None
  }

  function SignatureField(buf: Bytes): Option<Bytes> {
    if |buf| == REPORT_SIZE then Some(buf[SIGNED_LEN..]) else None
  }

  /** The signed region and the signature field are the report, without gap or overlap. */
  lemma SignedThenSignature(buf: Bytes)
    requires |buf| == REPORT_SIZE
    ensures SignedBytes(buf).value + SignatureField(buf).value == buf
    ensures |SignatureField(buf).value| == 512
  {
  }

  lemma SameSlice(a: Bytes, b: Bytes, lo: nat, hi: nat)
    requires |a| == |b| == REPORT_SIZE && a[..SIGNED_LEN] == b[..SIGNED_LEN] && lo <= hi <= SIGNED_LEN
    ensures a[lo..hi] == b[lo..hi]
  {
    SliceOfPrefix(a, SIGNED_LEN, lo, hi);
    SliceOfPrefix(b, SIGNED_LEN, lo, hi);
  }

  lemma SliceOfPrefix(s: Bytes, n: nat, lo: nat, hi: nat)
    requires lo <= hi <= n <= |s|
    ensures s[..n][lo..hi] == s[lo..hi]
  {
  }

  /** Every parsed field is covered by the signature: reports that agree on the signed region parse
      alike, whatever their signature fields hold. */
  lemma FieldsAreSigned(a: Bytes, b: Bytes)
    requires |a| == REPORT_SIZE && SignedBytes(a) == SignedBytes(b)
    ensures Parse(a) == Parse(b)
  {
    assert |b| == REPORT_SIZE;
    SameSlice(a, b, 0x00, 0x04);
    SameSlice(a, b, 0x08, 0x10);
    SameSlice(a, b, 0x34, 0x38);
    SameSlice(a, b, 0x50, 0x90);
    SameSlice(a, b, 0x90, 0xC0);
    SameSlice(a, b, 0x140, 0x160);
    SameSlice(a, b, 0x180, 0x188);
    SameSlice(a, b, 0x1A0, 0x1E0);
  }

  // ---------------------------------------------------------------- the layout as a printer

  /** The bytes between the fields, and the signature field. */
  datatype Rest = Rest(g0: Bytes, g1: Bytes, g2: Bytes, g3: Bytes, g4: Bytes, g5: Bytes, g6: Bytes, signature: Bytes) {
    predicate Sized() {
      && |g0| == 4 && |g1| == 36 && |g2| == 24 && |g3| == 128 && |g4| == 32 && |g5| == 24 && |g6| == 192
      && |signature| == 512
    }
  }

  /** The report in layout order. */
  function Parts(f: ReportFields, g: Rest): seq<Bytes> {
    [LeBytes(f.version, 4), g.g0, LeBytes(f.guest_policy, 8), g.g1, LeBytes(f.sig_algo, 4), g.g2,
     f.report_data, f.measurement, g.g3, f.report_id, g.g4, LeBytes(f.reported_tcb, 8), g.g5,
     f.chip_id, g.g6, g.signature]
  }

  function Print(f: ReportFields, g: Rest): Bytes { Concat(Parts(f, g)) }

  function Offset(parts: seq<Bytes>, i: nat): nat
    requires i <= |parts|
  {
    if i == 0 then 0 else Offset(parts, i - 1) + |parts[i - 1]|
  }

  lemma {:induction false} ConcatAppend(a: seq<Bytes>, b: seq<Bytes>)
    ensures Concat(a + b) == Concat(a) + Concat(b)
  {
    if a == [] {
      assert a + b == b;
    } else {
      assert (a + b)[1..] == a[1..] + b;
      ConcatAppend(a[1..], b);
    }
  }

  lemma {:induction false} PrefixLength(parts: seq<Bytes>, i: nat)
    requires i <= |parts|
    ensures |Concat(parts[..i])| == Offset(parts, i)
  {
    if i > 0 {
      PrefixLength(parts, i - 1);
      assert parts[..i] == parts[..i - 1] + [parts[i - 1]];
      ConcatAppend(parts[..i - 1], [parts[i - 1]]);
      assert Concat([parts[i - 1]]) == parts[i - 1] + [];
    }
  }

  lemma SplitAt(parts: seq<Bytes>, i: nat)
    requires i < |parts|
    ensures Concat(parts) == Concat(parts[..i]) + (parts[i] + Concat(parts[i + 1..]))
  {
    assert parts == parts[..i] + parts[i..];
    ConcatAppend(parts[..i], parts[i..]);
    assert parts[i..][1..] == parts[i + 1..];
  }

  lemma MiddleSlice(s: Bytes, a: Bytes, b: Bytes, c: Bytes, lo: nat)
    requires s == a + (b + c) && lo == |a|
    ensures lo + |b| <= |s| && s[lo..lo + |b|] == b
  {
  }

  lemma PartAt(parts: seq<Bytes>, i: nat, lo: nat, hi: nat)
    requires i < |parts| && lo == Offset(parts, i) && hi == lo + |parts[i]|
    ensures hi <= |Concat(parts)| && Concat(parts)[lo..hi] == parts[i]
  {
    PrefixLength(parts, i);
    SplitAt(parts, i);
    MiddleSlice(Concat(parts), Concat(parts[..i]), parts[i], Concat(parts[i + 1..]), lo);
  }

  predicate LaidOut(parts: seq<Bytes>) {
    && |parts| == 16
    && |parts[0]| == 4 && |parts[1]| == 4 && |parts[2]| == 8 && |parts[3]| == 36
    && |parts[4]| == 4 && |parts[5]| == 24 && |parts[6]| == 64 && |parts[7]| == 48
    && |parts[8]| == 128 && |parts[9]| == 32 && |parts[10]| == 32 && |parts[11]| == 8
    && |parts[12]| == 24 && |parts[13]| == 64 && |parts[14]| == 192 && |parts[15]| == 512
  }

  lemma OffsetStep(parts: seq<Bytes>, i: nat)
    requires i < |parts|
    ensures Offset(parts, i + 1) == Offset(parts, i) + |parts[i]|
  {
  }

  lemma Offsets(parts: seq<Bytes>)
    requires LaidOut(parts)
    ensures Offset(parts, 0) == 0x00 && Offset(parts, 1) == 0x04 && Offset(parts, 2) == 0x08
    ensures Offset(parts, 3) == 0x10 && Offset(parts, 4) == 0x34 && Offset(parts, 5) == 0x38
    ensures Offset(parts, 6) == 0x50 && Offset(parts, 7) == 0x90 && Offset(parts, 8) == 0xC0
    ensures Offset(parts, 9) == 0x140 && Offset(parts, 10) == 0x160 && Offset(parts, 11) == 0x180
    ensures Offset(parts, 12) == 0x188 && Offset(parts, 13) == 0x1A0 && Offset(parts, 14) == 0x1E0
    ensures Offset(parts, 15) == SIGNED_LEN && Offset(parts, 16) == REPORT_SIZE
  {
    assert Offset(parts, 0) == 0;
    hide Offset;
    OffsetStep(parts, 0);
    OffsetStep(parts, 1);
    OffsetStep(parts, 2);
    OffsetStep(parts, 3);
    OffsetStep(parts, 4);
    OffsetStep(parts, 5);
    OffsetStep(parts, 6);
    OffsetStep(parts, 7);
    OffsetStep(parts, 8);
    OffsetStep(parts, 9);
    OffsetStep(parts, 10);
    OffsetStep(parts, 11);
    OffsetStep(parts, 12);
    OffsetStep(parts, 13);
    OffsetStep(parts, 14);
    OffsetStep(parts, 15);
  }

  lemma LaidOutLength(parts: seq<Bytes>)
    requires LaidOut(parts)
    ensures |Concat(parts)| == REPORT_SIZE
  {
    hide Offset;
    Offsets(parts);
    PrefixLength(parts, 16);
    assert parts[..16] == parts;
  }

  lemma Slices(p: seq<Bytes>)
    requires LaidOut(p)
    ensures var b := Concat(p);
            && |b| == REPORT_SIZE
            && b[0x00..0x04] == p[0] && b[0x08..0x10] == p[2] && b[0x34..0x38] == p[4]
            && b[0x50..0x90] == p[6] && b[0x90..0xC0] == p[7] && b[0x140..0x160] == p[9]
            && b[0x180..0x188] == p[11] && b[0x1A0..0x1E0] == p[13] && b[SIGNED_LEN..] == p[15]
  {
    hide Offset;
    Offsets(p);
    LaidOutLength(p);
    PartAt(p, 0, 0x00, 0x04);
    PartAt(p, 2, 0x08, 0x10);
    PartAt(p, 4, 0x34, 0x38);
    PartAt(p, 6, 0x50, 0x90);
    PartAt(p, 7, 0x90, 0xC0);
    PartAt(p, 9, 0x140, 0x160);
    PartAt(p, 11, 0x180, 0x188);
    PartAt(p, 13, 0x1A0, 0x1E0);
    PartAt(p, 15, SIGNED_LEN, REPORT_SIZE);
    assert Concat(p)[..REPORT_SIZE] == Concat(p);
  }

  /** The part in front of the signature. */
  function SignedPart(f: ReportFields, g: Rest): Bytes { Concat(Parts(f, g)[..15]) }

  /** The signed part does not depend on the signature that follows it. */
  lemma PrintSplits(f: ReportFields, g: Rest, signature: Bytes)
    requires f.Sized() && g.Sized() && |signature| == 512
    ensures Print(f, g.(signature := signature)) == SignedPart(f, g) + signature
    ensures |SignedPart(f, g)| == SIGNED_LEN
  {
    var parts := Parts(f, g.(signature := signature));
    assert parts[..15] == Parts(f, g)[..15];
    SplitAt(parts, 15);
    assert parts[16..] == [] && signature + [] == signature;
    Offsets(parts);
    PrefixLength(parts, 15);
    hide Offset;
  }

  /** What firmware lays out is what the parser reads back. */
  lemma ReportRoundTrip(f: ReportFields, g: Rest)
    requires f.Sized() && g.Sized()
    ensures Parse(Print(f, g)) == Some(f)
    ensures SignatureField(Print(f, g)) == Some(g.signature)
  {
    Slices(Parts(f, g));
    Pow256Small();
    LeRoundTrip(f.version, 4);
    LeRoundTrip(f.guest_policy, 8);
    LeRoundTrip(f.sig_algo, 4);
    LeRoundTrip(f.reported_tcb, 8);
  }

  lemma {:induction false} TilesConcat(parts: seq<Bytes>, buf: Bytes, k: nat)
    requires k <= |parts| && Offset(parts, k) <= |buf|
    requires forall i :: 0 <= i < k ==> Tile(parts, buf, i)
    ensures Concat(parts[..k]) == buf[..Offset(parts, k)]
  {
    if k > 0 {
      assert Tile(parts, buf, k - 1);
      TilesConcat(parts, buf, k - 1);
      assert parts[..k] == parts[..k - 1] + [parts[k - 1]];
      ConcatAppend(parts[..k - 1], [parts[k - 1]]);
      assert Concat([parts[k - 1]]) == parts[k - 1] + [];
      assert buf[..Offset(parts, k)] == buf[..Offset(parts, k - 1)] + parts[k - 1];
    }
  }

  /** The `i`-th part is where it should be in the buffer. */
  predicate Tile(parts: seq<Bytes>, buf: Bytes, i: nat)
    requires i < |parts|
  {
    var lo := Offset(parts, i);
    lo + |parts[i]| <= |buf| && buf[lo..lo + |parts[i]|] == parts[i]
  }

  function RestOf(buf: Bytes): (g: Rest)
    requires |buf| == REPORT_SIZE
    ensures g.Sized()
  {
    Rest(buf[0x04..0x08], buf[0x10..0x34], buf[0x38..0x50], buf[0xC0..0x140], buf[0x160..0x180],
         buf[0x188..0x1A0], buf[0x1E0..0x2A0], buf[0x2A0..0x4A0])
  }

  /** Every buffer of the report size is a laid-out report: of its parsed fields and what is between. */
  lemma ReportShape(buf: Bytes)
    requires |buf| == REPORT_SIZE
    ensures buf == Print(Parse(buf).value, RestOf(buf))
  {
    hide Tile;
    hide Offset;
    hide Parts;
    var parts := Parts(Parse(buf).value, RestOf(buf));
    PartsOf(buf);
    PartsAreTiles(parts, buf);
    assert parts[..16] == parts && buf[..REPORT_SIZE] == buf;
    TilesConcat(parts, buf, 16);
  }

  lemma WordsReprint(buf: Bytes)
    requires |buf| == REPORT_SIZE
    ensures LeBytes(U32At(buf, 0x00), 4) == buf[0x00..0x04] && LeBytes(U64At(buf, 0x08), 8) == buf[0x08..0x10]
    ensures LeBytes(U32At(buf, 0x34), 4) == buf[0x34..0x38] && LeBytes(U64At(buf, 0x180), 8) == buf[0x180..0x188]
  {
    hide LeValue;
    hide LeBytes;
    LeBytesOfValue(buf[0x00..0x04]);
    LeBytesOfValue(buf[0x08..0x10]);
    LeBytesOfValue(buf[0x34..0x38]);
    LeBytesOfValue(buf[0x180..0x188]);
  }

  lemma PartsOf(buf: Bytes)
    requires |buf| == REPORT_SIZE
    ensures var parts := Parts(Parse(buf).value, RestOf(buf));
            && |parts| == 16
            && parts[0] == buf[0x00..0x04] && parts[1] == buf[0x04..0x08] && parts[2] == buf[0x08..0x10]
            && parts[3] == buf[0x10..0x34] && parts[4] == buf[0x34..0x38] && parts[5] == buf[0x38..0x50]
            && parts[6] == buf[0x50..0x90] && parts[7] == buf[0x90..0xC0] && parts[8] == buf[0xC0..0x140]
            && parts[9] == buf[0x140..0x160] && parts[10] == buf[0x160..0x180] && parts[11] == buf[0x180..0x188]
            && parts[12] == buf[0x188..0x1A0] && parts[13] == buf[0x1A0..0x1E0] && parts[14] == buf[0x1E0..0x2A0]
            && parts[15] == buf[0x2A0..0x4A0]
  {
    hide LeValue;
    hide LeBytes;
    WordsReprint(buf);
  }

  lemma TileAt(parts: seq<Bytes>, buf: Bytes, i: nat, lo: nat, hi: nat)
    requires i < |parts| && Offset(parts, i) == lo && hi == lo + |parts[i]| && hi <= |buf| && buf[lo..hi] == parts[i]
    ensures Tile(parts, buf, i)
  {
  }

  lemma PartsAreTiles(parts: seq<Bytes>, buf: Bytes)
    requires |buf| == REPORT_SIZE && |parts| == 16
    requires parts[0] == buf[0x00..0x04] && parts[1] == buf[0x04..0x08] && parts[2] == buf[0x08..0x10]
    requires parts[3] == buf[0x10..0x34] && parts[4] == buf[0x34..0x38] && parts[5] == buf[0x38..0x50]
    requires parts[6] == buf[0x50..0x90] && parts[7] == buf[0x90..0xC0] && parts[8] == buf[0xC0..0x140]
    requires parts[9] == buf[0x140..0x160] && parts[10] == buf[0x160..0x180] && parts[11] == buf[0x180..0x188]
    requires parts[12] == buf[0x188..0x1A0] && parts[13] == buf[0x1A0..0x1E0] && parts[14] == buf[0x1E0..0x2A0]
    requires parts[15] == buf[0x2A0..0x4A0]
    ensures Offset(parts, 16) == REPORT_SIZE && forall i :: 0 <= i < 16 ==> Tile(parts, buf, i)
  {
    hide Offset;
    hide Tile;
    Offsets(parts);
    TileAt(parts, buf, 0, 0x00, 0x04);
    TileAt(parts, buf, 1, 0x04, 0x08);
    TileAt(parts, buf, 2, 0x08, 0x10);
    TileAt(parts, buf, 3, 0x10, 0x34);
    TileAt(parts, buf, 4, 0x34, 0x38);
    TileAt(parts, buf, 5, 0x38, 0x50);
    TileAt(parts, buf, 6, 0x50, 0x90);
    TileAt(parts, buf, 7, 0x90, 0xC0);
    TileAt(parts, buf, 8, 0xC0, 0x140);
    TileAt(parts, buf, 9, 0x140, 0x160);
    TileAt(parts, buf, 10, 0x160, 0x180);
    TileAt(parts, buf, 11, 0x180, 0x188);
    TileAt(parts, buf, 12, 0x188, 0x1A0);
    TileAt(parts, buf, 13, 0x1A0, 0x1E0);
    TileAt(parts, buf, 14, 0x1E0, 0x2A0);
    TileAt(parts, buf, 15, 0x2A0, 0x4A0);
  }
}
