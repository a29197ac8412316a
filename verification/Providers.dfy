/** The three evidence providers, and that what they generate over honest hardware verifies. */
module Providers {
  import opened Prelude
  import opened Endian
  import opened Crypto
  import opened ReportData
  import opened SnpReport
  import opened VcekChain
  import opened Attestation
  import AmdSignature
  import Der
  import Tpm

  datatype Request = Request(workspace_id: Bytes, measurement: Bytes, nonce: Bytes)

  datatype GenerateError = CanonicalEncode | ReportFetch | ReportFetchShellout | VcekFetch

  function StatementOf(provider: ProviderType, req: Request, issuedAt: i64): Statement {
    Statement(provider, req.workspace_id, req.measurement, req.nonce, issuedAt)
  }

  // ---------------------------------------------------------------- the providers

  datatype Signer = Signer(pubkey: Bytes, sign: Bytes -> Bytes)

  function GenerateSoftware(pl: Platform, signer: Signer, req: Request, issuedAt: i64)
    : Result<Evidence, GenerateError>
  {
    var statement := StatementOf(Software, req, issuedAt);
    var data := pl.canonical(statement);
    if data == [] then Err(CanonicalEncode)
    else Ok(Evidence(statement, data, SoftwareProof(signer.sign(data), signer.pubkey)))
  }

  /** A firmware report and the identity its certificate was issued for. */
  datatype SourceReport = SourceReport(report: Bytes, chip_id: Bytes, tcb: u64)

  type ReportSource = Bytes -> Result<SourceReport, GenerateError>

  type ChainFetcher = (Bytes, u64) -> Result<Bytes, VcekError>

  function GenerateSevSnp(pl: Platform, source: ReportSource, fetch: ChainFetcher, req: Request, issuedAt: i64)
    : Result<Evidence, GenerateError>
  {
    var statement := StatementOf(SevSnp, req, issuedAt);
    var data := pl.canonical(statement);
    if data == [] then Err(CanonicalEncode)
    else
      var snp :- source(pl.p.sha512(data));
      match fetch(snp.chip_id, snp.tcb)
      case Err(_) => Err(VcekFetch)
      case Ok(chain) => Ok(Evidence(statement, data, SevSnpProof(snp.report, chain)))
  }

  /** The vTPM: the boot-fixed blob, the public area of the attestation key, and quoting. */
  datatype AzureSource = AzureSource(
    blob: Result<Bytes, GenerateError>,
    akPublic: Result<Bytes, GenerateError>,
    quote: Bytes -> Result<(Bytes, Bytes), GenerateError>
  )

  const HEADER_LEN: nat := 32
  const IGVM_OFF: nat := HEADER_LEN + REPORT_SIZE
  const VAR_DATA_OFF: nat := IGVM_OFF + 20

  function ExtractReport(blob: Bytes): Option<Bytes> {
    if |blob| < HEADER_LEN + REPORT_SIZE then None else Some(blob[HEADER_LEN..HEADER_LEN + REPORT_SIZE])
  }

  function ExtractVarData(blob: Bytes): Option<Bytes> {
    if |blob| < IGVM_OFF + 20 then None
    else
      var size := LeValue(blob[IGVM_OFF + 16..IGVM_OFF + 20]);
      if size == 0 || |blob| < VAR_DATA_OFF + size then None
      else Some(blob[VAR_DATA_OFF..VAR_DATA_OFF + size])
  }

  function GenerateAzure(pl: Platform, src: AzureSource, fetch: ChainFetcher, req: Request, issuedAt: i64)
    : Result<Evidence, GenerateError>
  {
    var statement := StatementOf(SevSnp, req, issuedAt);
    var data := pl.canonical(statement);
    if data == [] then Err(CanonicalEncode)
    else
      var blob :- src.blob;
      match (ExtractReport(blob), ExtractVarData(blob))
      case (Some(report), Some(varData)) =>
        var fields := Parse(report).value;
        var akPublic :- src.akPublic;
        var (msg, sig) :- src.quote(pl.p.sha256(data));
        (match fetch(fields.chip_id, fields.reported_tcb)
         case Err(_) => Err(VcekFetch)
         case Ok(chain) => Ok(Evidence(statement, data, AzureProof(report, chain, varData, akPublic, msg, sig))))
      case _ => Err(ReportFetch)
  }

  // ---------------------------------------------------------------- the blob layout

  function PrintBlob(header: Bytes, report: Bytes, igvm: Bytes, varData: Bytes, tail: Bytes): Bytes {
    header + (report + (igvm + (LeBytes(|varData|, 4) + (varData + tail))))
  }

  predicate BlobSized(header: Bytes, report: Bytes, igvm: Bytes, varData: Bytes) {
    && |header| == 32 && |report| == 0x4A0 && |igvm| == 16
    && 0 < |varData| < 0x1_0000_0000
  }

  /** The report and the key description are read back from the blob the paravisor stores. */
  lemma BlobRoundTrip(header: Bytes, report: Bytes, igvm: Bytes, varData: Bytes, tail: Bytes)
    requires BlobSized(header, report, igvm, varData)
    ensures ExtractReport(PrintBlob(header, report, igvm, varData, tail)) == Some(report)
    ensures ExtractVarData(PrintBlob(header, report, igvm, varData, tail)) == Some(varData)
  {
    var parts := [header, report, igvm, LeBytes(|varData|, 4), varData, tail];
    var blob := PrintBlob(header, report, igvm, varData, tail);
    BlobIsConcat(header, report, igvm, LeBytes(|varData|, 4), varData, tail);
    assert Offset(parts, 1) == 32;
    assert Offset(parts, 2) == 1216 && Offset(parts, 3) == 1232;
    assert Offset(parts, 4) == 1236;
    PartAt(parts, 1, 32, 1216);
    PartAt(parts, 3, 1232, 1236);
    PartAt(parts, 4, 1236, 1236 + |varData|);
    Pow256Small();
    LeRoundTrip(|varData|, 4);
  }

  /** Whatever both are read from has that layout. */
  lemma BlobShape(blob: Bytes)
    requires ExtractReport(blob).Some? && ExtractVarData(blob).Some?
    ensures var report, varData := ExtractReport(blob).value, ExtractVarData(blob).value;
            var header, igvm, tail := blob[..32], blob[1216..1232], blob[1236 + |varData|..];
            BlobSized(header, report, igvm, varData) && blob == PrintBlob(header, report, igvm, varData, tail)
  {
    var size := blob[1232..1236];
    LeBytesOfValue(size);
    LeBound(size);
    Pow256Small();
    CutAt(blob, 0, 32);
    CutAt(blob, 32, 1216);
    CutAt(blob, 1216, 1232);
    CutAt(blob, 1232, 1236);
    CutAt(blob, 1236, 1236 + LeValue(size));
  }

  lemma CutAt(b: Bytes, lo: nat, hi: nat)
    requires lo <= hi <= |b|
    ensures b[lo..] == b[lo..hi] + b[hi..]
  {
  }

  lemma BlobIsConcat(a: Bytes, b: Bytes, c: Bytes, d: Bytes, e: Bytes, f: Bytes)
    ensures a + (b + (c + (d + (e + f)))) == Concat([a, b, c, d, e, f])
  {
    ConcatCons(f, []);
    assert f + [] == f;
    ConcatCons(e, [f]);
    ConcatCons(d, [e, f]);
    ConcatCons(c, [d, e, f]);
    ConcatCons(b, [c, d, e, f]);
    ConcatCons(a, [b, c, d, e, f]);
  }

  lemma ConcatCons(x: Bytes, rest: seq<Bytes>)
    ensures Concat([x] + rest) == x + Concat(rest)
  {
    assert ([x] + rest)[1..] == rest;
  }

  // ---------------------------------------------------------------- honest firmware

  /** A certificate built from parts that its issuer signed counts as signed by that issuer. */
  lemma BuiltCertificateIsSigned(p: Primitives, tbs: Bytes, alg: Bytes, sig: Bytes, key: PubKey)
    requires |tbs| + |alg| + |sig| + 7 < 0x1_0000_0000
    requires Der.IsElement(Der.SEQUENCE, tbs) && Der.IsElement(Der.SEQUENCE, alg)
    requires match p.certAlgorithm(Der.Certificate(tbs, alg, sig))
             case Some(RsassaPss) => key.Rsa? && p.pssWellFormed(sig) && p.pssVerify(key.rsa, tbs, sig)
             case Some(EcdsaSha384) => key.EcP384? && p.ecdsaDerWellFormed(sig) && p.ecdsaDerVerify(key.ec, tbs, sig)
             case _ => false
    ensures SignedBy(p, Der.Certificate(tbs, alg, sig), key)
    ensures Der.IsElement(Der.SEQUENCE, Der.Certificate(tbs, alg, sig))
  {
    Der.CertificateRoundTrip(tbs, alg, sig);
    hide Der.TbsAndSignature;
    hide Der.IsElement;
    hide Der.Certificate;
  }

  /** A processor: what it reports apart from the caller's data, its signing key, its certificates. */
  datatype Firmware = Firmware(fields: ReportFields, rest: Rest, key: Bytes, sign: Bytes -> Bytes, certs: seq<Bytes>)

  /** Its certificates lead to the root and its signatures verify under its key. */
  ghost predicate Honest(p: Primitives, fw: Firmware, root: PubKey) {
    && fw.fields.Sized() && fw.rest.Sized()
    && fw.certs != [] && Der.AllElements(fw.certs)
    && SignedUpTo(p, fw.certs, root)
    && p.certKey(fw.certs[0]) == Some(EcP384(fw.key))
    && forall m: Bytes ::
         |fw.sign(m)| == 96 && p.ecdsaFixedWellFormed(fw.sign(m)) && p.ecdsaFixedVerify(fw.key, m, fw.sign(m))
  }

  /** The report for given report data, signed over everything in front of the signature. */
  function MakeReport(fw: Firmware, reportData: Bytes): Bytes
    requires forall m: Bytes :: |fw.sign(m)| == 96
  {
    var f := fw.fields.(report_data := reportData);
    Print(f, fw.rest.(signature := AmdSignature.Encode(fw.sign(SignedPart(f, fw.rest)))))
  }

  lemma ReportReads(p: Primitives, fw: Firmware, root: PubKey, reportData: Bytes)
    requires Honest(p, fw, root) && |reportData| == 64
    ensures Parse(MakeReport(fw, reportData)) == Some(fw.fields.(report_data := reportData))
  {
    hide AmdSignature.Encode;
    hide Parse;
    hide Print;
    hide SignedPart;
    var f := fw.fields.(report_data := reportData);
    ReportRoundTrip(f, fw.rest.(signature := AmdSignature.Encode(fw.sign(SignedPart(f, fw.rest)))));
  }

  lemma ReportIsSigned(p: Primitives, fw: Firmware, root: PubKey, reportData: Bytes)
    requires Honest(p, fw, root) && |reportData| == 64
    ensures |MakeReport(fw, reportData)| == 0x4A0
    ensures FirmwareSigned(p, MakeReport(fw, reportData), EcP384(fw.key))
  {
    hide FirmwareSigned;
    hide SignedUpTo;
    hide AmdSignature.Encode;
    hide AmdSignature.Decode;
    hide Print;
    hide SignedPart;
    var f := fw.fields.(report_data := reportData);
    var region := SignedPart(f, fw.rest);
    var rs := fw.sign(region);
    AmdSignature.SignatureRoundTrip(rs);
    PrintSplits(f, fw.rest, AmdSignature.Encode(rs));
    Der.DropPrefix(region, AmdSignature.Encode(rs));
    FirmwareSignedIff(p, MakeReport(fw, reportData), EcP384(fw.key));
  }

  /** Every report of honest firmware is endorsed by its certificates. */
  lemma ReportIsEndorsed(p: Primitives, fw: Firmware, root: PubKey, reportData: Bytes)
    requires Honest(p, fw, root) && |reportData| == 64
    ensures Verdict(p, MakeReport(fw, reportData), Concat(fw.certs), root).Ok?
  {
    hide MakeReport;
    hide Verdict;
    hide FirmwareSigned;
    hide SignedUpTo;
    ReportIsSigned(p, fw, root, reportData);
    assert Endorses(p, MakeReport(fw, reportData), fw.certs, root);
    EndorsedIsAccepted(p, MakeReport(fw, reportData), fw.certs, root);
  }

  // ---------------------------------------------------------------- what evidence is about

  /** The evidence is about this request: the statement copies it, and the report data encodes that statement. */
  predicate Answers(pl: Platform, ev: Evidence, provider: ProviderType, req: Request, issuedAt: i64) {
    && ev.statement.provider_type == provider
    && ev.statement.workspace_id == req.workspace_id
    && ev.statement.measurement == req.measurement
    && ev.statement.nonce == req.nonce
    && ev.statement.issued_at == issuedAt
    && ev.report_data == pl.canonical(Statement(provider, req.workspace_id, req.measurement, req.nonce, issuedAt))
  }

  /** Software evidence is always produced; it answers the request with a signature over that report data. */
  lemma SoftwareAnswers(pl: Platform, signer: Signer, req: Request, issuedAt: i64)
    ensures var r := GenerateSoftware(pl, signer, req, issuedAt);
            && r.Ok? && Answers(pl, r.value, Software, req, issuedAt)
            && r.value.proof == SoftwareProof(signer.sign(r.value.report_data), signer.pubkey)
  {
  }

  /** Firmware evidence is produced exactly when a report over that data and its certificates can be had. */
  lemma SevSnpAnswers(pl: Platform, source: ReportSource, fetch: ChainFetcher, req: Request, issuedAt: i64)
    ensures var r := GenerateSevSnp(pl, source, fetch, req, issuedAt);
            var data := pl.canonical(Statement(SevSnp, req.workspace_id, req.measurement, req.nonce, issuedAt));
            var snp := source(pl.p.sha512(data));
            && (r.Ok? <==> snp.Ok? && fetch(snp.value.chip_id, snp.value.tcb).Ok?)
            && (r.Ok? ==> && Answers(pl, r.value, SevSnp, req, issuedAt)
                          && r.value.proof.SevSnpProof? && r.value.proof.report == snp.value.report
                          && Ok(r.value.proof.vcek_cert_chain) == fetch(snp.value.chip_id, snp.value.tcb))
            && (snp.Err? ==> r == Err(snp.error))
            && (snp.Ok? && r.Err? ==> r == Err(VcekFetch))
  {
  }

  /** The five places a vTPM can fail, in the order in which they are tried. */
  ghost predicate AzureSupplies(pl: Platform, src: AzureSource, fetch: ChainFetcher, data: Bytes) {
    && src.blob.Ok?
    && ExtractReport(src.blob.value).Some? && ExtractVarData(src.blob.value).Some?
    && src.akPublic.Ok?
    && src.quote(pl.p.sha256(data)).Ok?
    && var fields := Parse(ExtractReport(src.blob.value).value).value;
    fetch(fields.chip_id, fields.reported_tcb).Ok?
  }

  /** The certificates are the ones for the processor and firmware level that the report names. */
  predicate FetchedFor(proof: Proof, fetch: ChainFetcher)
    requires proof.AzureProof?
  {
    && Parse(proof.report).Some?
    && var fields := Parse(proof.report).value;
    Ok(proof.vcek_cert_chain) == fetch(fields.chip_id, fields.reported_tcb)
  }

  /** vTPM evidence is produced exactly when every part can be had, and then it answers the request with them;
      otherwise the first part that cannot be had names the error. */
  lemma AzureAnswers(pl: Platform, src: AzureSource, fetch: ChainFetcher, req: Request, issuedAt: i64)
    ensures var r := GenerateAzure(pl, src, fetch, req, issuedAt);
            var data := pl.canonical(Statement(SevSnp, req.workspace_id, req.measurement, req.nonce, issuedAt));
            && (r.Ok? <==> AzureSupplies(pl, src, fetch, data))
            && (r.Ok? ==> && Answers(pl, r.value, SevSnp, req, issuedAt)
                          && r.value.proof.AzureProof?
                          && Some(r.value.proof.report) == ExtractReport(src.blob.value)
                          && FetchedFor(r.value.proof, fetch)
                          && Some(r.value.proof.var_data) == ExtractVarData(src.blob.value)
                          && Ok(r.value.proof.ak_pub_tpm2b) == src.akPublic
                          && r.value.proof.quote_msg == src.quote(pl.p.sha256(data)).value.0
                          && r.value.proof.quote_sig == src.quote(pl.p.sha256(data)).value.1)
            && (r.Err? ==> r.error == if src.blob.Err? then src.blob.error
                                      else if ExtractReport(src.blob.value).None? then ReportFetch
                                      else if ExtractVarData(src.blob.value).None? then ReportFetch
                                      else if src.akPublic.Err? then src.akPublic.error
                                      else if src.quote(pl.p.sha256(data)).Err? then src.quote(pl.p.sha256(data)).error
                                      else VcekFetch)
  {
    hide ExtractReport, ExtractVarData;
    if src.blob.Ok? && ExtractReport(src.blob.value).Some? {
      ReportParses(src.blob.value);
    }
  }

  lemma ReportParses(blob: Bytes)
    requires ExtractReport(blob).Some?
    ensures Parse(ExtractReport(blob).value).Some?
  {
  }

  // ---------------------------------------------------------------- completeness

  /** The caller asks for what was requested. */
  predicate Asks(params: Params, provider: ProviderType, req: Request) {
    && provider in params.accept_provider_types
    && params.expected_nonce == req.nonce && 16 <= |req.nonce| <= 64
    && (params.expected_measurement.Some? ==> params.expected_measurement.value == req.measurement)
  }

  /** Verified within the window, stale outside it; a window of 2^63 - 1 seconds or more is unbounded. */
  function Expected(params: Params, issuedAt: i64): Outcome {
    var window := params.freshness_secs;
    if Abs(params.now - issuedAt) <= window || window >= 0x7FFF_FFFF_FFFF_FFFF then Verified
    else Failed(Stale)
  }

  /** What a request gets for evidence that answers it: stale outside the window, and otherwise the
      proof's fault, if it has one. */
  lemma ExpectedOrFault(pl: Platform, ev: Evidence, params: Params, req: Request)
    requires Answers(pl, ev, ev.statement.provider_type, req, ev.statement.issued_at)
    requires Asks(params, ev.statement.provider_type, req)
    ensures var fault := ProofFault(pl.p, ev, params.trust_anchor);
            Verify(pl, ev, params) ==
            if Expected(params, ev.statement.issued_at) == Verified && fault.Some? then Failed(fault.value)
            else Expected(params, ev.statement.issued_at)
  {
    hide ProofFault;
    StaleIff(params.now, ev.statement.issued_at, params.freshness_secs);
  }

  lemma SoftwareComplete(pl: Platform, signer: Signer, req: Request, issuedAt: i64, params: Params)
    requires forall m: Bytes :: pl.p.ed25519Verify(signer.pubkey, m, signer.sign(m))
    requires Asks(params, Software, req) && params.trust_anchor == SoftwareAnchor(signer.pubkey)
    ensures var r := GenerateSoftware(pl, signer, req, issuedAt);
            && r.Ok? && Answers(pl, r.value, Software, req, issuedAt)
            && Verify(pl, r.value, params) == Expected(params, issuedAt)
  {
    hide Verify;
    var ev := GenerateSoftware(pl, signer, req, issuedAt).value;
    ExpectedOrFault(pl, ev, params, req);
  }

  /** Honest firmware behind a source and a fetcher that serve it. */
  ghost predicate Serves(p: Primitives, fw: Firmware, root: PubKey, source: ReportSource, fetch: ChainFetcher) {
    && Honest(p, fw, root)
    && (forall rd: Bytes :: |rd| == 64 ==>
          source(rd) == Ok(SourceReport(MakeReport(fw, rd), fw.fields.chip_id, fw.fields.reported_tcb)))
    && fetch(fw.fields.chip_id, fw.fields.reported_tcb) == Ok(Concat(fw.certs))
  }

  lemma SevSnpComplete(pl: Platform, fw: Firmware, source: ReportSource, fetch: ChainFetcher,
                       req: Request, issuedAt: i64, params: Params)
    requires params.trust_anchor.SevSnpAnchor?
    requires Serves(pl.p, fw, params.trust_anchor.root, source, fetch)
    requires Asks(params, SevSnp, req) && PinsMet(fw.fields, params.trust_anchor)
    ensures var r := GenerateSevSnp(pl, source, fetch, req, issuedAt);
            && r.Ok? && Answers(pl, r.value, SevSnp, req, issuedAt)
            && Verify(pl, r.value, params) == Expected(params, issuedAt)
  {
    hide Verify;
    hide MakeReport;
    hide PinsMet;
    hide Verdict;
    hide Parse;
    var anchor := params.trust_anchor;
    var data := pl.canonical(StatementOf(SevSnp, req, issuedAt));
    var rd: Bytes := pl.p.sha512(data);
    ReportReads(pl.p, fw, anchor.root, rd);
    ReportIsEndorsed(pl.p, fw, anchor.root, rd);
    PinsIgnoreReportData(fw.fields, rd, anchor);
    var ev := GenerateSevSnp(pl, source, fetch, req, issuedAt).value;
    ExpectedOrFault(pl, ev, params, req);
  }

  lemma PinsIgnoreReportData(fields: ReportFields, rd: Bytes, anchor: TrustAnchor)
    requires anchor.SevSnpAnchor? && PinsMet(fields, anchor)
    ensures PinFault(fields.(report_data := rd), anchor).None?
  {
    PinIff(fields.(report_data := rd), anchor);
  }

  /** A vTPM: its blob, the description of its attestation key, and its quoting key. */
  datatype Vtpm = Vtpm(
    header: Bytes, igvm: Bytes, varData: Bytes, blobTail: Bytes,
    area: Tpm.PublicArea, size: Bytes, attestType: u16, name: Bytes, quoteTail: Bytes,
    rsaSign: Bytes -> Bytes
  ) {
    /** The attestation structure over some qualifying data, which is what the key signs. */
    function Signed(data: Bytes): Bytes
      requires |name| < 0x1_0000 && |data| < 0x1_0000
    {
      Tpm.PrintAttest(attestType, name, data, quoteTail)
    }

    /** The message handed over: the structure, with or without a size in front. */
    function Message(data: Bytes): Bytes
      requires |name| < 0x1_0000 && |data| < 0x1_0000
    {
      size + Signed(data)
    }
  }

  /** Booted on honest firmware: the report commits to the key description, which names the quoting
      key, whose signatures verify. */
  ghost predicate Booted(p: Primitives, fw: Firmware, root: PubKey, tpm: Vtpm, src: AzureSource, fetch: ChainFetcher) {
    && Honest(p, fw, root)
    && fetch(fw.fields.chip_id, fw.fields.reported_tcb) == Ok(Concat(fw.certs))
    && var report := MakeReport(fw, p.sha256(tpm.varData) + Repeat(0, 32));
    && BlobSized(tpm.header, report, tpm.igvm, tpm.varData)
    && src.blob == Ok(PrintBlob(tpm.header, report, tpm.igvm, tpm.varData, tpm.blobTail))
    && tpm.area.Valid() && src.akPublic == Ok(Tpm.Print(tpm.area))
    && p.jwkModulus(tpm.varData) == Some(tpm.area.modulus)
    && (|tpm.size| == 0 || |tpm.size| == 2) && |tpm.name| < 0x1_0000
    && (forall m: Bytes ::
          |tpm.rsaSign(m)| < 0x1_0000 && p.pkcs1Verify(tpm.area.modulus, m, tpm.rsaSign(m)))
    && forall data: Bytes :: |data| == 32 ==>
         src.quote(data) == Ok((tpm.Message(data), Tpm.Marshal(tpm.rsaSign(tpm.Signed(data)))))
  }

  lemma MessageReads(tpm: Vtpm, data: Bytes)
    requires |tpm.name| < 0x1_0000 && |data| < 0x1_0000 && (|tpm.size| == 0 || |tpm.size| == 2)
    ensures Tpm.ParseAttest(tpm.Message(data)) ==
            Some(Tpm.Attest(Tpm.TPM_GENERATED_VALUE, tpm.attestType, data))
    ensures |tpm.size| == 0 ==> tpm.Message(data) == tpm.Signed(data)
  {
    hide Tpm.ParseAttest;
    hide Tpm.PrintAttest;
    var size: Bytes := if |tpm.size| == 2 then tpm.size else [0, 0];
    Tpm.AttestReads(size, tpm.attestType, tpm.name, data, tpm.quoteTail);
    if |tpm.size| == 0 {
      assert tpm.Message(data) == Tpm.PrintAttest(tpm.attestType, tpm.name, data, tpm.quoteTail);
    }
  }

  /** All that can go wrong with an honest quote is its signature, which covers the structure and is
      checked against the message. */
  lemma QuoteOutcome(p: Primitives, tpm: Vtpm, data: Bytes, proof: Proof)
    requires proof.AzureProof? && tpm.area.Valid() && |tpm.name| < 0x1_0000 && (|tpm.size| == 0 || |tpm.size| == 2)
    requires proof.ak_pub_tpm2b == Tpm.Print(tpm.area) && p.jwkModulus(proof.var_data) == Some(tpm.area.modulus)
    requires proof.quote_msg == tpm.Message(p.sha256(data))
    requires |tpm.rsaSign(tpm.Signed(p.sha256(data)))| < 0x1_0000
    requires proof.quote_sig == Tpm.Marshal(tpm.rsaSign(tpm.Signed(p.sha256(data))))
    ensures var raw := tpm.rsaSign(tpm.Signed(p.sha256(data)));
            QuoteFault(p, data, proof) ==
            if p.pkcs1Verify(tpm.area.modulus, proof.quote_msg, raw) then None else Some(TpmQuoteInvalid)
  {
    hide Tpm.ParseAttest;
    hide Tpm.PrintAttest;
    hide Tpm.Print;
    hide Tpm.ReadArea;
    hide Tpm.Marshal;
    hide Tpm.StripHeader;
    MessageReads(tpm, p.sha256(data));
    Tpm.AreaExact(proof.ak_pub_tpm2b, tpm.area);
    var raw := tpm.rsaSign(tpm.Signed(p.sha256(data)));
    Tpm.StripUnwraps(raw, []);
    assert Tpm.Marshal(raw) + [] == Tpm.Marshal(raw);
  }

  lemma AzureEvidence(pl: Platform, fw: Firmware, root: PubKey, tpm: Vtpm, src: AzureSource, fetch: ChainFetcher,
                      req: Request, issuedAt: i64)
    requires Booted(pl.p, fw, root, tpm, src, fetch)
    ensures var statement := Statement(SevSnp, req.workspace_id, req.measurement, req.nonce, issuedAt);
            var data := pl.canonical(statement);
            var digest := pl.p.sha256(data);
            GenerateAzure(pl, src, fetch, req, issuedAt) ==
            Ok(Evidence(statement, data, AzureProof(
              MakeReport(fw, pl.p.sha256(tpm.varData) + Repeat(0, 32)), Concat(fw.certs), tpm.varData,
              Tpm.Print(tpm.area), tpm.Message(digest), Tpm.Marshal(tpm.rsaSign(tpm.Signed(digest))))))
  {
    hide ExtractReport, ExtractVarData, PrintBlob, MakeReport, Parse, GenerateAzure;
    hide Tpm.Print, Tpm.Marshal, Tpm.PrintAttest, SignedUpTo, Der.AllElements;
    AzureAnswers(pl, src, fetch, req, issuedAt);
    var rd: Bytes := pl.p.sha256(tpm.varData) + Repeat(0, 32);
    ReportReads(pl.p, fw, root, rd);
    BlobRoundTrip(tpm.header, MakeReport(fw, rd), tpm.igvm, tpm.varData, tpm.blobTail);
  }

  /** Whether the signature over the structure passes as one over the message. */
  predicate Passes(pl: Platform, tpm: Vtpm, req: Request, issuedAt: i64)
    requires |tpm.name| < 0x1_0000
  {
    var statement := Statement(SevSnp, req.workspace_id, req.measurement, req.nonce, issuedAt);
    var digest := pl.p.sha256(pl.canonical(statement));
    pl.p.pkcs1Verify(tpm.area.modulus, tpm.Message(digest), tpm.rsaSign(tpm.Signed(digest)))
  }

  /** The outcome for every booted vTPM: stale outside the window, and inside it verified or an invalid
      quote according to that signature alone. */
  lemma AzureOutcome(pl: Platform, fw: Firmware, tpm: Vtpm, src: AzureSource, fetch: ChainFetcher,
                     req: Request, issuedAt: i64, params: Params)
    requires params.trust_anchor.SevSnpAnchor?
    requires Booted(pl.p, fw, params.trust_anchor.root, tpm, src, fetch)
    requires Asks(params, SevSnp, req) && PinsMet(fw.fields, params.trust_anchor)
    ensures var r := GenerateAzure(pl, src, fetch, req, issuedAt);
            && r.Ok? && Answers(pl, r.value, SevSnp, req, issuedAt)
            && Verify(pl, r.value, params) ==
               if Expected(params, issuedAt) == Verified && !Passes(pl, tpm, req, issuedAt)
               then Failed(TpmQuoteInvalid) else Expected(params, issuedAt)
  {
    hide Verify;
    hide MakeReport;
    hide PinsMet;
    hide Verdict;
    hide Parse;
    hide GenerateAzure;
    hide QuoteFault;
    hide Tpm.Print;
    hide Tpm.Marshal;
    hide Tpm.PrintAttest;
    hide PrintBlob;
    var anchor := params.trust_anchor;
    var data := pl.canonical(StatementOf(SevSnp, req, issuedAt));
    var rd: Bytes := pl.p.sha256(tpm.varData) + Repeat(0, 32);
    AzureEvidence(pl, fw, anchor.root, tpm, src, fetch, req, issuedAt);
    var ev := GenerateAzure(pl, src, fetch, req, issuedAt).value;
    ReportReads(pl.p, fw, anchor.root, rd);
    ReportIsEndorsed(pl.p, fw, anchor.root, rd);
    PinsIgnoreReportData(fw.fields, rd, anchor);
    AnchoredIff(pl.p, tpm.varData, rd);
    QuoteOutcome(pl.p, tpm, data, ev.proof);
    ExpectedOrFault(pl, ev, params, req);
  }

  /** With the structure handed over as it is signed, the evidence is verified within the window and
      stale outside it. */
  lemma AzureComplete(pl: Platform, fw: Firmware, tpm: Vtpm, src: AzureSource, fetch: ChainFetcher,
                      req: Request, issuedAt: i64, params: Params)
    requires params.trust_anchor.SevSnpAnchor?
    requires Booted(pl.p, fw, params.trust_anchor.root, tpm, src, fetch) && |tpm.size| == 0
    requires Asks(params, SevSnp, req) && PinsMet(fw.fields, params.trust_anchor)
    ensures var r := GenerateAzure(pl, src, fetch, req, issuedAt);
            && r.Ok? && Answers(pl, r.value, SevSnp, req, issuedAt)
            && Verify(pl, r.value, params) == Expected(params, issuedAt)
  {
    hide Verify;
    hide GenerateAzure;
    hide PinsMet;
    hide Tpm.PrintAttest;
    AzureOutcome(pl, fw, tpm, src, fetch, req, issuedAt, params);
    MessageReads(tpm, pl.p.sha256(pl.canonical(StatementOf(SevSnp, req, issuedAt))));
  }

  /** When the signature over a structure does not also pass for that structure behind a size, evidence is
      verified exactly when it is fresh and no size stands in front of the quote: the parser accepts a
      size, but the signature does not cover it. */
  lemma AzureVerifiedIff(pl: Platform, fw: Firmware, tpm: Vtpm, src: AzureSource, fetch: ChainFetcher,
                         req: Request, issuedAt: i64, params: Params)
    requires params.trust_anchor.SevSnpAnchor?
    requires Booted(pl.p, fw, params.trust_anchor.root, tpm, src, fetch)
    requires Asks(params, SevSnp, req) && PinsMet(fw.fields, params.trust_anchor)
    requires forall digest: Bytes :: |digest| == 32 && tpm.Message(digest) != tpm.Signed(digest) ==>
               !pl.p.pkcs1Verify(tpm.area.modulus, tpm.Message(digest), tpm.rsaSign(tpm.Signed(digest)))
    ensures var r := GenerateAzure(pl, src, fetch, req, issuedAt);
            && r.Ok?
            && (Verify(pl, r.value, params) == Verified <==>
                  Expected(params, issuedAt) == Verified && |tpm.size| == 0)
            && (Expected(params, issuedAt) == Verified && |tpm.size| == 2 ==>
                  Verify(pl, r.value, params) == Failed(TpmQuoteInvalid))
  {
    hide Verify;
    hide GenerateAzure;
    hide PinsMet;
    hide Tpm.PrintAttest;
    AzureOutcome(pl, fw, tpm, src, fetch, req, issuedAt, params);
    var digest := pl.p.sha256(pl.canonical(StatementOf(SevSnp, req, issuedAt)));
    MessageReads(tpm, digest);
    assert |tpm.Message(digest)| == |tpm.size| + |tpm.Signed(digest)|;
  }

  /** The type of the structure is not checked: a vTPM that signs one which is not a quote yields
      evidence that is verified within the window. */
  lemma AnyTypeVerifies(pl: Platform, fw: Firmware, tpm: Vtpm, src: AzureSource, fetch: ChainFetcher,
                        req: Request, issuedAt: i64, params: Params)
    requires params.trust_anchor.SevSnpAnchor?
    requires Booted(pl.p, fw, params.trust_anchor.root, tpm, src, fetch) && |tpm.size| == 0
    requires Asks(params, SevSnp, req) && PinsMet(fw.fields, params.trust_anchor)
    requires tpm.attestType != 0x8018 && Expected(params, issuedAt) == Verified
    ensures var r := GenerateAzure(pl, src, fetch, req, issuedAt);
            && r.Ok? && Verify(pl, r.value, params) == Verified && r.value.proof.AzureProof?
            && !Tpm.IsQuote(r.value.proof.quote_msg)
  {
    hide Verify;
    hide GenerateAzure;
    hide PinsMet;
    hide MakeReport;
    hide Tpm.Print;
    hide Tpm.Marshal;
    hide Tpm.PrintAttest;
    hide Tpm.ParseAttest;
    hide Tpm.IsQuote;
    AzureComplete(pl, fw, tpm, src, fetch, req, issuedAt, params);
    AzureEvidence(pl, fw, params.trust_anchor.root, tpm, src, fetch, req, issuedAt);
    var digest := pl.p.sha256(pl.canonical(StatementOf(SevSnp, req, issuedAt)));
    MessageReads(tpm, digest);
    Tpm.OtherTypeIsNoQuote(tpm.Message(digest));
  }
}
