/** TPM 2.0 structures: the attestation key's public area, the quote, and the quote signature. */
module Tpm {
  import opened Prelude
  import opened Endian

  // ---------------------------------------------------------------- big-endian fields

  /** A `k`-byte big-endian number at the front of `s`, and what follows it. */
  function TakeBe(s: Bytes, k: nat): (r: Option<(nat, Bytes)>) {
    if |s| < k then None else Some((BeValue(s[..k]), s[k..]))
  }

  lemma TakeBeExact(s: Bytes, k: nat, n: nat, rest: Bytes)
    ensures TakeBe(s, k) == Some((n, rest)) <==> n < Pow256(k) && s == BeBytes(n, k) + rest
  {
    if |s| >= k {
      BeBytesOfValue(s[..k]);
      BeBound(s[..k]);
      assert s == s[..k] + s[k..];
    }
    if n < Pow256(k) && s == BeBytes(n, k) + rest {
      BeRoundTrip(n, k);
      assert s[..k] == BeBytes(n, k) && s[k..] == rest;
    }
  }

  function U16(n: u16): Bytes { BeBytes(n, 2) }

  function U32(n: u32): Bytes { BeBytes(n, 4) }

  /** Most significant byte first. */
  lemma U16Bytes(n: u16)
    ensures U16(n) == [n / 256, n % 256]
  {
    assert LeBytes(n, 2) == [n % 256] + LeBytes(n / 256, 1);
    assert LeBytes(n / 256, 1) == [n / 256 % 256];
  }

  /** Consumes one fixed 16-bit constant. */
  function Skip16(n: u16, s: Bytes): Option<Bytes> {
    var (v, rest) :- TakeBe(s, 2);
    if v == n then Some(rest) else None
  }

  lemma Skip16Exact(n: u16, s: Bytes, rest: Bytes)
    ensures Skip16(n, s) == Some(rest) <==> s == U16(n) + rest
  {
    Pow256Small();
    TakeBeExact(s, 2, n, rest);
  }

  /** A byte string preceded by its 16-bit length. */
  function TakeSized(s: Bytes): Option<(Bytes, Bytes)> {
    var (n, rest) :- TakeBe(s, 2);
    if |rest| < n then None else Some((rest[..n], rest[n..]))
  }

  function Sized(b: Bytes): Bytes
    requires |b| < 0x1_0000
  {
    U16(|b|) + b
  }

  lemma TakeSizedExact(s: Bytes, b: Bytes, rest: Bytes)
    ensures TakeSized(s) == Some((b, rest)) <==> |b| < 0x1_0000 && s == Sized(b) + rest
  {
    Pow256Small();
    TakeBeExact(s, 2, |b|, b + rest);
    if TakeBe(s, 2).Some? {
      var (n, after) := TakeBe(s, 2).value;
      BeBound(s[..2]);
      if n <= |after| {
        assert after == after[..n] + after[n..];
      }
    }
    assert (b + rest)[..|b|] == b && (b + rest)[|b|..] == rest;
    if |b| < 0x1_0000 {
      Assoc(U16(|b|), b, rest);
    }
  }

  // ---------------------------------------------------------------- the RSA-2048 public area

  const TPM_ALG_RSA: u16 := 0x0001
  const TPM_ALG_NULL: u16 := 0x0010
  const TPM_ALG_RSASSA: u16 := 0x0014
  const TPM_ALG_SHA256: u16 := 0x000B

  /** What varies in an accepted public area. */
  datatype PublicArea =
    PublicArea(nameAlg: u16, attributes: u32, policy: Bytes, exponent: u32, modulus: Bytes)
  {
    /** The area must fit the 16-bit length in front of it. */
    predicate Valid() {
      |policy| + 280 < 0x1_0000 && (exponent == 0 || exponent == 65537) && |modulus| == 256
    }
  }

  /** The scheme: no symmetric cipher, RSASSA with SHA-256, 2048 bits. */
  function Scheme(rest: Bytes): (r: Bytes)
    ensures |r| == 8 + |rest|
  {
    U16(0x0010) + (U16(0x0014) + (U16(0x000B) + (U16(2048) + rest)))
  }

  function ReadScheme(s: Bytes): Option<Bytes> {
    var s1 :- Skip16(TPM_ALG_NULL, s);
    var s2 :- Skip16(TPM_ALG_RSASSA, s1);
    var s3 :- Skip16(TPM_ALG_SHA256, s2);
    Skip16(2048, s3)
  }

  lemma ReadSchemeExact(s: Bytes, rest: Bytes)
    ensures ReadScheme(s) == Some(rest) <==> s == Scheme(rest)
  {
    var t3 := U16(2048) + rest;
    var t2 := U16(TPM_ALG_SHA256) + t3;
    var t1 := U16(TPM_ALG_RSASSA) + t2;
    Skip16Exact(2048, t3, rest);
    Skip16Exact(TPM_ALG_SHA256, t2, t3);
    Skip16Exact(TPM_ALG_RSASSA, t1, t2);
    Skip16Exact(TPM_ALG_NULL, s, t1);
    if ReadScheme(s) == Some(rest) {
      SchemeBack(s, rest);
    }
  }

  lemma SchemeBack(s: Bytes, rest: Bytes)
    requires ReadScheme(s) == Some(rest)
    ensures s == Scheme(rest)
  {
    var s1 := Skip16(TPM_ALG_NULL, s).value;
    var s2 := Skip16(TPM_ALG_RSASSA, s1).value;
    var s3 := Skip16(TPM_ALG_SHA256, s2).value;
    Skip16Exact(TPM_ALG_NULL, s, s1);
    Skip16Exact(TPM_ALG_RSASSA, s1, s2);
    Skip16Exact(TPM_ALG_SHA256, s2, s3);
    Skip16Exact(2048, s3, rest);
  }

  /** The key itself: exponent, then the sized modulus, then nothing. */
  function Key(exponent: u32, modulus: Bytes): Bytes { U32(exponent) + (U16(256) + modulus) }

  function ReadKey(s: Bytes): Option<(u32, Bytes)> {
    var (exponent, s1) :- TakeBe(s, 4);
    if exponent != 0 && exponent != 65537 then None
    else
      var modulus :- Skip16(256, s1);
      if |modulus| == 256 then Some((exponent, modulus)) else None
  }

  lemma ReadKeyExact(s: Bytes, exponent: u32, modulus: Bytes)
    ensures ReadKey(s) == Some((exponent, modulus)) <==>
            (exponent == 0 || exponent == 65537) && |modulus| == 256 && s == Key(exponent, modulus)
  {
    Pow256Small();
    TakeBeExact(s, 4, exponent, U16(256) + modulus);
    Skip16Exact(256, U16(256) + modulus, modulus);
    if TakeBe(s, 4).Some? {
      Skip16Exact(256, TakeBe(s, 4).value.1, modulus);
    }
  }

  /** Everything in front of the scheme. */
  function Front(nameAlg: u16, attributes: u32, policy: Bytes, rest: Bytes): (r: Bytes)
    requires |policy| < 0x1_0000
    ensures |r| == 10 + |policy| + |rest|
  {
    U16(0x0001) + (U16(nameAlg) + (U32(attributes) + (Sized(policy) + rest)))
  }

  datatype FrontFields = FrontFields(nameAlg: nat, attributes: nat, policy: Bytes, rest: Bytes)

  function ReadFront(s: Bytes): Option<FrontFields> {
    var s1 :- Skip16(TPM_ALG_RSA, s);
    var (nameAlg, s2) :- TakeBe(s1, 2);
    var (attributes, s3) :- TakeBe(s2, 4);
    var (policy, rest) :- TakeSized(s3);
    Some(FrontFields(nameAlg, attributes, policy, rest))
  }

  lemma FrontReads(nameAlg: u16, attributes: u32, policy: Bytes, rest: Bytes)
    requires |policy| < 0x1_0000
    ensures ReadFront(Front(nameAlg, attributes, policy, rest)) ==
            Some(FrontFields(nameAlg, attributes, policy, rest))
  {
    Pow256Small();
    var s3 := Sized(policy) + rest;
    var s2 := U32(attributes) + s3;
    var s1 := U16(nameAlg) + s2;
    Skip16Exact(TPM_ALG_RSA, U16(TPM_ALG_RSA) + s1, s1);
    TakeBeExact(s1, 2, nameAlg, s2);
    TakeBeExact(s2, 4, attributes, s3);
    TakeSizedExact(s3, policy, rest);
  }

  lemma ReadsFront(s: Bytes)
    requires ReadFront(s).Some?
    ensures var f := ReadFront(s).value;
            && f.nameAlg < 0x1_0000 && f.attributes < 0x1_0000_0000 && |f.policy| < 0x1_0000
            && s == Front(f.nameAlg, f.attributes, f.policy, f.rest)
  {
    Pow256Small();
    var s1 := Skip16(TPM_ALG_RSA, s).value;
    var (nameAlg, s2) := TakeBe(s1, 2).value;
    var (attributes, s3) := TakeBe(s2, 4).value;
    var (policy, rest) := TakeSized(s3).value;
    Skip16Exact(TPM_ALG_RSA, s, s1);
    TakeBeExact(s1, 2, nameAlg, s2);
    TakeBeExact(s2, 4, attributes, s3);
    TakeSizedExact(s3, policy, rest);
  }

  /** The public area of section 12.2.4 of the TPM 2.0 Library, Part 2. */
  function Body(p: PublicArea): (r: Bytes)
    requires p.Valid()
    ensures |r| == 280 + |p.policy|
  {
    Front(p.nameAlg, p.attributes, p.policy, Scheme(Key(p.exponent, p.modulus)))
  }

  function Print(p: PublicArea): Bytes
    requires p.Valid()
  {
    Sized(Body(p))
  }

  function ReadBody(body: Bytes): Option<PublicArea> {
    var front :- ReadFront(body);
    var keyBytes :- ReadScheme(front.rest);
    var (exponent, modulus) :- ReadKey(keyBytes);
    ReadsFront(body);
    Some(PublicArea(front.nameAlg, front.attributes, front.policy, exponent, modulus))
  }

  /** The area behind its exact 16-bit length. */
  function ReadArea(input: Bytes): Option<PublicArea> {
    var (len, body) :- TakeBe(input, 2);
    if |body| != len then None else ReadBody(body)
  }

  lemma BodyReads(p: PublicArea)
    requires p.Valid()
    ensures ReadBody(Body(p)) == Some(p)
  {
    var key := Key(p.exponent, p.modulus);
    FrontReads(p.nameAlg, p.attributes, p.policy, Scheme(key));
    ReadSchemeExact(Scheme(key), key);
    ReadKeyExact(key, p.exponent, p.modulus);
  }

  lemma ReadsBody(body: Bytes)
    requires ReadBody(body).Some? && |body| < 0x1_0000
    ensures ReadBody(body).value.Valid() && body == Body(ReadBody(body).value)
  {
    ReadsFront(body);
    var front := ReadFront(body).value;
    var key := ReadScheme(front.rest).value;
    ReadSchemeExact(front.rest, key);
    var (exponent, modulus) := ReadKey(key).value;
    ReadKeyExact(key, exponent, modulus);
  }

  /** The parser accepts exactly the printed public areas, and reads back what was printed. */
  lemma AreaExact(input: Bytes, p: PublicArea)
    ensures ReadArea(input) == Some(p) <==> p.Valid() && input == Print(p)
  {
    Pow256Small();
    if p.Valid() && input == Print(p) {
      TakeBeExact(input, 2, |Body(p)|, Body(p));
      BodyReads(p);
    }
    if ReadArea(input) == Some(p) {
      var (len, body) := TakeBe(input, 2).value;
      TakeBeExact(input, 2, len, body);
      ReadsBody(body);
    }
  }

  function Modulus(input: Bytes): (r: Option<Bytes>) {
    var p :- ReadArea(input);
    Some(p.modulus)
  }

  /** A modulus is returned exactly when the input is a printed public area holding it. */
  lemma ModulusExact(input: Bytes, m: Bytes)
    ensures Modulus(input) == Some(m) <==>
            exists p: PublicArea :: p.Valid() && p.modulus == m && input == Print(p)
  {
    if Modulus(input) == Some(m) {
      AreaExact(input, ReadArea(input).value);
    }
    forall p: PublicArea | p.Valid() && p.modulus == m && input == Print(p) ensures Modulus(input) == Some(m) {
      AreaExact(input, p);
    }
  }

  // ---------------------------------------------------------------- the same parser with a cursor

  method ReadBe(input: Bytes, offset: nat, k: nat) returns (r: Option<nat>, next: nat)
    requires offset <= |input|
    ensures next <= |input|
    ensures TakeBe(input[offset..], k) ==
            match r case None => None case Some(n) => Some((n, input[next..]))
  {
    next := offset;
    if offset + k > |input| {
      return None, offset;
    }
    assert input[offset..][..k] == input[offset..offset + k];
    assert input[offset..][k..] == input[offset + k..];
    r, next := Some(BeValue(input[offset..offset + k])), offset + k;
  }

  method Expect16(n: u16, input: Bytes, offset: nat) returns (ok: bool, next: nat)
    requires offset <= |input|
    ensures next <= |input|
    ensures Skip16(n, input[offset..]) == if ok then Some(input[next..]) else None
  {
    var v;
    v, next := ReadBe(input, offset, 2);
    ok := v == Some(n as nat);
  }

  method CursorFront(body: Bytes) returns (ok: bool, next: nat)
    ensures next <= |body|
    ensures ok <==> ReadFront(body).Some?
    ensures ok ==> ReadFront(body).value.rest == body[next..]
  {
    assert body[0..] == body;
    ok, next := Expect16(TPM_ALG_RSA, body, 0);
    if !ok { return; }
    var nameAlg, attributes, policyLen;
    nameAlg, next := ReadBe(body, next, 2);
    if nameAlg.None? { return false, next; }
    attributes, next := ReadBe(body, next, 4);
    if attributes.None? { return false, next; }
    policyLen, next := ReadBe(body, next, 2);
    if policyLen.None? || next + policyLen.value > |body| { return false, next; }
    assert body[next..][policyLen.value..] == body[next + policyLen.value..];
    next := next + policyLen.value;
  }

  method CursorScheme(body: Bytes, offset: nat) returns (ok: bool, next: nat)
    requires offset <= |body|
    ensures next <= |body|
    ensures ReadScheme(body[offset..]) == if ok then Some(body[next..]) else None
  {
    ok, next := Expect16(TPM_ALG_NULL, body, offset);
    if !ok { return; }
    ok, next := Expect16(TPM_ALG_RSASSA, body, next);
    if !ok { return; }
    ok, next := Expect16(TPM_ALG_SHA256, body, next);
    if !ok { return; }
    ok, next := Expect16(2048, body, next);
  }

  method CursorKey(body: Bytes, offset: nat) returns (r: Option<Bytes>)
    requires offset <= |body|
    ensures r == match ReadKey(body[offset..]) case None => None case Some(k) => Some(k.1)
  {
    var exponent, next := ReadBe(body, offset, 4);
    if exponent.None? || (exponent.value != 0 && exponent.value != 65537) {
      return None;
    }
    var ok;
    ok, next := Expect16(256, body, next);
    if !ok || next + 256 > |body| {
      return None;
    }
    var modulus := body[next..next + 256];
    if next + 256 != |body| {
      return None;
    }
    assert body[next..next + 256] == body[next..];
    r := Some(modulus);
  }

  /** The cursor form computes the same modulus. */
  method AzureAkRsaModulus(input: Bytes) returns (r: Option<Bytes>)
    ensures r == Modulus(input)
  {
    if |input| < 2 {
      return None;
    }
    var body := input[2..];
    if |body| != BeValue(input[..2]) {
      return None;
    }
    var ok, offset := CursorFront(body);
    if !ok {
      return None;
    }
    ok, offset := CursorScheme(body, offset);
    if !ok {
      return None;
    }
    r := CursorKey(body, offset);
  }

  // ---------------------------------------------------------------- quotes

  const TPM_GENERATED_VALUE: u32 := 0xFF54_4347
  const TPM_ST_ATTEST_QUOTE: u16 := 0x8018

  datatype Attest = Attest(magic: nat, attest_type: nat, extra_data: Bytes)

  /** A quote body: magic, type, sized signer name, sized extra data, and the rest of the structure
      (section 10.12.12 of the TPM 2.0 Library, Part 2). */
  function PrintAttest(attestType: u16, signer: Bytes, extra: Bytes, tail: Bytes): (r: Bytes)
    requires |signer| < 0x1_0000 && |extra| < 0x1_0000
    ensures |r| >= 10
  {
    U32(0xFF54_4347) + (U16(attestType) + (Sized(signer) + (Sized(extra) + tail)))
  }

  predicate Prefixed(msg: Bytes) { |msg| >= 6 && BeValue(msg[2..6]) == TPM_GENERATED_VALUE }

  function ReadBodyOf(body: Bytes): Option<Attest> {
    var (magic, s1) :- TakeBe(body, 4);
    if magic != TPM_GENERATED_VALUE then None
    else
      var (attestType, s2) :- TakeBe(s1, 2);
      var (_, s3) :- TakeSized(s2);
      var (extra, _) :- TakeSized(s3);
      Some(Attest(magic, attestType, extra))
  }

  /** A quote with or without a 16-bit size in front; the size is skipped, not checked. */
  function ParseAttest(msg: Bytes): Option<Attest> {
    ReadBodyOf(if Prefixed(msg) then msg[2..] else msg)
  }

  lemma BodyOfReads(attestType: u16, signer: Bytes, extra: Bytes, tail: Bytes)
    requires |signer| < 0x1_0000 && |extra| < 0x1_0000
    ensures ReadBodyOf(PrintAttest(attestType, signer, extra, tail)) ==
            Some(Attest(TPM_GENERATED_VALUE, attestType, extra))
  {
    Pow256Small();
    var s3 := Sized(extra) + tail;
    var s2 := Sized(signer) + s3;
    var s1 := U16(attestType) + s2;
    TakeBeExact(U32(TPM_GENERATED_VALUE) + s1, 4, TPM_GENERATED_VALUE, s1);
    TakeBeExact(s1, 2, attestType, s2);
    TakeSizedExact(s2, signer, s3);
    TakeSizedExact(s3, extra, tail);
  }

  lemma MagicBytes()
    ensures U32(TPM_GENERATED_VALUE) == [0xFF, 0x54, 0x43, 0x47]
  {
    var n: nat := TPM_GENERATED_VALUE;
    assert LeBytes(n, 4) == [0x47] + LeBytes(0xFF5443, 3);
    assert LeBytes(0xFF5443, 3) == [0x43] + LeBytes(0xFF54, 2);
    assert LeBytes(0xFF54, 2) == [0x54] + LeBytes(0xFF, 1);
    assert LeBytes(0xFF, 1) == [0xFF];
  }

  lemma MagicExact(b: Bytes)
    requires |b| == 4
    ensures BeValue(b) == TPM_GENERATED_VALUE <==> b == [0xFF, 0x54, 0x43, 0x47]
  {
    MagicBytes();
    BeBytesOfValue(b);
    Pow256Small();
    BeRoundTrip(TPM_GENERATED_VALUE, 4);
  }

  /** A message that starts with the magic is never taken for a prefixed one. */
  lemma RawIsNotPrefixed(rest: Bytes)
    ensures !Prefixed(U32(TPM_GENERATED_VALUE) + rest)
  {
    MagicBytes();
    var msg := U32(TPM_GENERATED_VALUE) + rest;
    if |msg| >= 6 {
      assert msg[2..6][0] == 0x43;
      MagicExact(msg[2..6]);
    }
  }

  lemma SizedIsPrefixed(size: Bytes, rest: Bytes)
    requires |size| == 2
    ensures Prefixed(size + (U32(TPM_GENERATED_VALUE) + rest))
  {
    MagicBytes();
    var msg := size + (U32(TPM_GENERATED_VALUE) + rest);
    assert msg[2..6] == [0xFF, 0x54, 0x43, 0x47];
    MagicExact(msg[2..6]);
  }

  /** Type and extra data are recovered from both forms, for every signer name, tail and size. */
  lemma AttestReads(size: Bytes, attestType: u16, signer: Bytes, extra: Bytes, tail: Bytes)
    requires |signer| < 0x1_0000 && |extra| < 0x1_0000 && |size| == 2
    ensures var raw := PrintAttest(attestType, signer, extra, tail);
            && ParseAttest(raw) == Some(Attest(TPM_GENERATED_VALUE, attestType, extra))
            && ParseAttest(size + raw) == ParseAttest(raw)
  {
    var raw := PrintAttest(attestType, signer, extra, tail);
    var rest := U16(attestType) + (Sized(signer) + (Sized(extra) + tail));
    RawIsNotPrefixed(rest);
    SizedIsPrefixed(size, rest);
    assert (size + raw)[2..] == raw;
    BodyOfReads(attestType, signer, extra, tail);
  }

  /** Nothing else is accepted: a parsed message is a printed quote, possibly behind two bytes. */
  lemma ReadsAttest(msg: Bytes) returns (size: Bytes, attestType: u16, signer: Bytes, tail: Bytes)
    requires ParseAttest(msg).Some?
    ensures var a := ParseAttest(msg).value;
            && |signer| < 0x1_0000 && |a.extra_data| < 0x1_0000 && attestType == a.attest_type
            && a.magic == TPM_GENERATED_VALUE
            && (|size| == 0 || |size| == 2)
            && msg == size + PrintAttest(attestType, signer, a.extra_data, tail)
  {
    var body := if Prefixed(msg) then msg[2..] else msg;
    size := if Prefixed(msg) then msg[..2] else [];
    assert msg == size + body;
    attestType, signer, tail := ReadsBodyOf(body);
  }

  lemma ReadsBodyOf(body: Bytes) returns (attestType: u16, signer: Bytes, tail: Bytes)
    requires ReadBodyOf(body).Some?
    ensures var a := ReadBodyOf(body).value;
            && |signer| < 0x1_0000 && |a.extra_data| < 0x1_0000 && attestType == a.attest_type
            && a.magic == TPM_GENERATED_VALUE
            && body == PrintAttest(attestType, signer, a.extra_data, tail)
  {
    Pow256Small();
    var (magic, s1) := TakeBe(body, 4).value;
    var (kind, s2) := TakeBe(s1, 2).value;
    var (name, s3) := TakeSized(s2).value;
    var (extra, s4) := TakeSized(s3).value;
    TakeBeExact(body, 4, magic, s1);
    TakeBeExact(s1, 2, kind, s2);
    TakeSizedExact(s2, name, s3);
    TakeSizedExact(s3, extra, s4);
    attestType, signer, tail := kind, name, s4;
  }

  /** No message is both a raw quote and a prefixed one. */
  lemma FormsAreDisjoint(size: Bytes, t: u16, signer: Bytes, extra: Bytes, tail: Bytes,
                         t': u16, signer': Bytes, extra': Bytes, tail': Bytes)
    requires |size| == 2 && |signer| < 0x1_0000 && |extra| < 0x1_0000 && |signer'| < 0x1_0000 && |extra'| < 0x1_0000
    ensures size + PrintAttest(t, signer, extra, tail) != PrintAttest(t', signer', extra', tail')
  {
    SizedIsPrefixed(size, U16(t) + (Sized(signer) + (Sized(extra) + tail)));
    RawIsNotPrefixed(U16(t') + (Sized(signer') + (Sized(extra') + tail')));
  }

  /** The two bytes behind the magic, where the type is. */
  function TypeBytes(msg: Bytes): (r: Bytes)
    requires |msg| >= 8
    ensures |r| == 2
  {
    if Prefixed(msg) then msg[6..8] else msg[4..6]
  }

  /** A printed quote, raw or behind two size bytes, of the type that quotes have. */
  ghost predicate IsQuote(msg: Bytes) {
    exists size: Bytes, signer: Bytes, extra: Bytes, tail: Bytes ::
      && |signer| < 0x1_0000 && |extra| < 0x1_0000 && (|size| == 0 || |size| == 2)
      && msg == size + PrintAttest(0x8018, signer, extra, tail)
  }

  lemma TypeIsThere(msg: Bytes)
    requires ParseAttest(msg).Some?
    ensures |msg| >= 8 && ParseAttest(msg).value.attest_type == BeValue(TypeBytes(msg))
  {
    var body := if Prefixed(msg) then msg[2..] else msg;
    assert body[4..][..2] == TypeBytes(msg);
  }

  lemma QuoteTypeBytes(b: Bytes)
    requires |b| == 2
    ensures BeValue(b) == TPM_ST_ATTEST_QUOTE <==> b == [0x80, 0x18]
  {
    U16Bytes(TPM_ST_ATTEST_QUOTE);
    BeBytesOfValue(b);
    Pow256Small();
    BeRoundTrip(TPM_ST_ATTEST_QUOTE, 2);
  }

  /** The parser does not look at the type.  What it accepts is a printed quote exactly when the two
      bytes behind the magic are 0x80 0x18. */
  lemma QuoteTypeIff(msg: Bytes)
    requires ParseAttest(msg).Some?
    ensures |msg| >= 8
    ensures IsQuote(msg) <==> TypeBytes(msg) == [0x80, 0x18]
  {
    hide ParseAttest;
    hide PrintAttest;
    hide TypeBytes;
    TypeIsThere(msg);
    QuoteTypeBytes(TypeBytes(msg));
    if TypeBytes(msg) == [0x80, 0x18] {
      var size, attestType, signer, tail := ReadsAttest(msg);
    }
    if IsQuote(msg) {
      var size: Bytes, signer: Bytes, extra: Bytes, tail: Bytes :|
        && |signer| < 0x1_0000 && |extra| < 0x1_0000 && (|size| == 0 || |size| == 2)
        && msg == size + PrintAttest(TPM_ST_ATTEST_QUOTE, signer, extra, tail);
      var raw := PrintAttest(TPM_ST_ATTEST_QUOTE, signer, extra, tail);
      AttestReads(if |size| == 2 then size else [0, 0], TPM_ST_ATTEST_QUOTE, signer, extra, tail);
      assert |size| == 0 ==> msg == raw;
    }
  }

  lemma OtherTypeIsNoQuote(msg: Bytes)
    requires ParseAttest(msg).Some? && ParseAttest(msg).value.attest_type != TPM_ST_ATTEST_QUOTE
    ensures !IsQuote(msg)
  {
    hide ParseAttest;
    hide IsQuote;
    hide TypeBytes;
    TypeIsThere(msg);
    QuoteTypeBytes(TypeBytes(msg));
    QuoteTypeIff(msg);
  }

  // ---------------------------------------------------------------- signatures

  /** Removes the marshalled RSASSA-SHA256 header when there is one. */
  function StripHeader(sig: Bytes): Bytes {
    if |sig| >= 6 && sig[0..2] == U16(TPM_ALG_RSASSA) && sig[2..4] == U16(TPM_ALG_SHA256) then
      var n := BeValue(sig[4..6]);
      if 6 + n <= |sig| then sig[6..6 + n] else sig
    else sig
  }

  function Marshal(raw: Bytes): Bytes
    requires |raw| < 0x1_0000
  {
    U16(0x0014) + (U16(0x000B) + Sized(raw))
  }

  /** A marshalled signature is unwrapped to the raw one, whatever follows it. */
  lemma StripUnwraps(raw: Bytes, rest: Bytes)
    requires |raw| < 0x1_0000
    ensures StripHeader(Marshal(raw) + rest) == raw
  {
    var sig := Marshal(raw) + rest;
    assert sig[0..2] == U16(TPM_ALG_RSASSA) && sig[2..4] == U16(TPM_ALG_SHA256);
    assert sig[4..6] == U16(|raw|);
    Pow256Small();
    BeRoundTrip(|raw|, 2);
    assert sig[6..6 + |raw|] == raw;
  }

  /** Anything else is taken for a raw signature and kept as it is. */
  lemma StripKeepsRaw(sig: Bytes)
    requires forall raw: Bytes, rest: Bytes :: |raw| < 0x1_0000 ==> sig != Marshal(raw) + rest
    ensures StripHeader(sig) == sig
  {
    if |sig| >= 6 && sig[0..2] == U16(TPM_ALG_RSASSA) && sig[2..4] == U16(TPM_ALG_SHA256) {
      var n := BeValue(sig[4..6]);
      if 6 + n <= |sig| {
        BeBound(sig[4..6]);
        Pow256Small();
        BeBytesOfValue(sig[4..6]);
        var raw, rest := sig[6..6 + n], sig[6 + n..];
        assert sig == sig[0..2] + (sig[2..4] + (sig[4..6] + raw)) + rest;
        assert sig == Marshal(raw) + rest;
      }
    }
  }
}
