/** Verification of attestation evidence: when it succeeds, and what two successes have in common. */
module Attestation {
  import opened Prelude
  import opened Crypto
  import opened ReportData
  import opened SnpReport
  import opened VcekChain
  import Tpm

  datatype Proof =
    | SoftwareProof(signature: Bytes, signer_pubkey: Bytes)
    | SevSnpProof(report: Bytes, vcek_cert_chain: Bytes)
    | AzureProof(report: Bytes, vcek_cert_chain: Bytes, var_data: Bytes, ak_pub_tpm2b: Bytes,
                 quote_msg: Bytes, quote_sig: Bytes)

  datatype Evidence = Evidence(statement: Statement, report_data: Bytes, proof: Proof)

  datatype FailReason =
    | ProviderTypeNotAccepted | NonceMismatch | MeasurementMismatch | Stale | BadSignature
    | MalformedProof | UntrustedSigner | ProviderProofMismatch | ReportDataMismatch | BadCertChain
    | PolicyMismatch | TpmQuoteInvalid

  datatype Outcome = Verified | Failed(reason: FailReason)

  datatype TrustAnchor =
    | SoftwareAnchor(expected_signer: Bytes)
    | SevSnpAnchor(root: PubKey, expected_host_cvm_meas: Option<Bytes>, min_tcb: u64, guest_policy: u64)

  datatype Params = Params(
    expected_nonce: Bytes,
    expected_measurement: Option<Bytes>,
    accept_provider_types: seq<ProviderType>,
    freshness_secs: u64,
    now: i64,
    trust_anchor: TrustAnchor
  )

  /** The primitives together with the encoding of statements. */
  datatype Platform = Platform(p: Primitives, canonical: ReportForm)

  /** The instance that encodes statements as JSON. */
  ghost function JsonPlatform(p: Primitives): Platform {
    ReportDataIsFaithful();
    Platform(p, CanonicalReportData)
  }

  // ---------------------------------------------------------------- freshness

  function SaturatingSub(a: i64, b: i64): i64 {
    if a - b > I64_MAX then I64_MAX else if a - b < I64_MIN then I64_MIN else a - b
  }

  function SaturatingAbs(a: i64): i64 {
    if a == I64_MIN then I64_MAX else if a < 0 then -a else a
  }

  function Window(secs: u64): i64 { if secs > I64_MAX then I64_MAX else secs }

  predicate IsStale(now: i64, issued: i64, secs: u64) {
    SaturatingAbs(SaturatingSub(now, issued)) > Window(secs)
  }

  /** Despite saturation, staleness is the mathematical distance exceeding the window, for every pair
      of times and every window below 2^63 - 1 seconds; from there on nothing is stale. */
  lemma StaleIff(now: i64, issued: i64, secs: u64)
    ensures IsStale(now, issued, secs) <==> Abs(now - issued) > secs && secs < 0x7FFF_FFFF_FFFF_FFFF
  {
    var d := now - issued;
    assert SaturatingSub(now, issued) == d || Abs(d) > I64_MAX;
  }

  /** The bound on the window is needed: this distance exceeds the window and is still accepted. */
  lemma SaturationHidesStaleness()
    ensures Abs(I64_MAX - I64_MIN) > I64_MAX && !IsStale(I64_MAX, I64_MIN, I64_MAX)
  {
    StaleIff(I64_MAX, I64_MIN, I64_MAX);
  }

  // ---------------------------------------------------------------- bit masks

  /** Bitwise conjunction. */
  function BitAnd(a: nat, b: nat): nat {
    if a == 0 || b == 0 then 0 else 2 * BitAnd(a / 2, b / 2) + (a % 2) * (b % 2)
  }

  predicate Bit(a: nat, i: nat) {
    if i == 0 then a % 2 == 1 else Bit(a / 2, i - 1)
  }

  predicate HasBits(a: nat, mask: nat) {
    mask == 0 || ((mask % 2 == 1 ==> a % 2 == 1) && HasBits(a / 2, mask / 2))
  }

  lemma {:induction false} BitPresent(a: nat, mask: nat, i: nat)
    requires HasBits(a, mask) && Bit(mask, i)
    ensures Bit(a, i)
    decreases i
  {
    if i > 0 {
      BitPresent(a / 2, mask / 2, i - 1);
    }
  }

  lemma {:induction false} BitMissing(a: nat, mask: nat) returns (i: nat)
    requires !HasBits(a, mask)
    ensures Bit(mask, i) && !Bit(a, i)
    decreases mask
  {
    if mask % 2 == 1 && a % 2 != 1 {
      i := 0;
    } else {
      i := BitMissing(a / 2, mask / 2);
      i := i + 1;
    }
  }

  lemma {:induction false} BitAndIsMask(a: nat, mask: nat)
    ensures BitAnd(a, mask) == mask <==> HasBits(a, mask)
    decreases mask
  {
    if mask > 0 {
      BitAndIsMask(a / 2, mask / 2);
      assert BitAnd(a, mask) == 2 * BitAnd(a / 2, mask / 2) + (a % 2) * (mask % 2);
      assert (a % 2) * (mask % 2) == if a % 2 == 1 then mask % 2 else 0;
    }
  }

  ghost predicate Covers(a: nat, mask: nat) { forall i: nat :: Bit(mask, i) ==> Bit(a, i) }

  /** Masking a word leaves the mask exactly when every bit of the mask is set in the word. */
  lemma MaskIff(a: nat, mask: nat)
    ensures BitAnd(a, mask) == mask <==> Covers(a, mask)
  {
    BitAndIsMask(a, mask);
    if HasBits(a, mask) {
      forall i: nat | Bit(mask, i) ensures Bit(a, i) {
        BitPresent(a, mask, i);
      }
    } else {
      var i := BitMissing(a, mask);
    }
  }

  // ---------------------------------------------------------------- verification

  predicate NonceOk(nonce: Bytes) { 16 <= |nonce| <= 64 }

  /** The checks made before the proof is looked at. */
  function EnvelopeFault(pl: Platform, ev: Evidence, params: Params): Option<FailReason> {
    var s := ev.statement;
    if s.provider_type !in params.accept_provider_types then Some(ProviderTypeNotAccepted)
    else if s.nonce != params.expected_nonce then Some(NonceMismatch)
    else if params.expected_measurement.Some? && s.measurement != params.expected_measurement.value then
      Some(MeasurementMismatch)
    else if IsStale(params.now, s.issued_at, params.freshness_secs) then Some(Stale)
    else if !NonceOk(s.nonce) then Some(MalformedProof)
    else if pl.canonical(s) != ev.report_data then Some(FailReason.BadSignature)
    else None
  }

  /** The reference values the caller pins. */
  function PinFault(fields: ReportFields, anchor: TrustAnchor): Option<FailReason>
    requires anchor.SevSnpAnchor?
  {
    if fields.reported_tcb < anchor.min_tcb then Some(PolicyMismatch)
    else if BitAnd(fields.guest_policy, anchor.guest_policy) != anchor.guest_policy then Some(PolicyMismatch)
    else if anchor.expected_host_cvm_meas.Some? && fields.measurement != anchor.expected_host_cvm_meas.value then
      Some(MeasurementMismatch)
    else None
  }

  /** The certificate chain and firmware signature, then the pins. */
  function FirmwareFault(p: Primitives, report: Bytes, chain: Bytes, fields: ReportFields, anchor: TrustAnchor)
    : Option<FailReason>
    requires anchor.SevSnpAnchor?
  {
    match Verdict(p, report, chain, anchor.root)
    case Ok(_) => PinFault(fields, anchor)
    case Err(e) => Some(if e == VcekError.BadSignature then FailReason.BadSignature else BadCertChain)
  }

  /** The report commits to the attestation key's description. */
  predicate Anchored(p: Primitives, var_data: Bytes, report_data: Bytes) {
    |report_data| >= 32 && p.sha256(var_data) == report_data[..32]
  }

  /** The quote: its key is the anchored one, it carries the digest of the report data, and it is
      signed by that key. */
  function QuoteFault(p: Primitives, report_data: Bytes, proof: Proof): Option<FailReason>
    requires proof.AzureProof?
  {
    match p.jwkModulus(proof.var_data)
    case None => Some(MalformedProof)
    case Some(anchored) => match Tpm.Modulus(proof.ak_pub_tpm2b)
      case None => Some(MalformedProof)
      case Some(modulus) =>
        if anchored != modulus then Some(ReportDataMismatch)
        else match Tpm.ParseAttest(proof.quote_msg)
          case None => Some(TpmQuoteInvalid)
          case Some(attest) =>
            if attest.extra_data != p.sha256(report_data) then Some(TpmQuoteInvalid)
            else if !p.pkcs1Verify(modulus, proof.quote_msg, Tpm.StripHeader(proof.quote_sig)) then
              Some(TpmQuoteInvalid)
            else None
  }

  function SoftwareFault(p: Primitives, ev: Evidence, anchor: TrustAnchor): Option<FailReason>
    requires ev.proof.SoftwareProof?
  {
    if ev.statement.provider_type != Software || !anchor.SoftwareAnchor? then Some(ProviderProofMismatch)
    else if ev.proof.signer_pubkey != anchor.expected_signer then Some(UntrustedSigner)
    else if !p.ed25519Verify(anchor.expected_signer, ev.report_data, ev.proof.signature) then
      Some(FailReason.BadSignature)
    else None
  }

  function SevSnpFault(p: Primitives, ev: Evidence, anchor: TrustAnchor): Option<FailReason>
    requires ev.proof.SevSnpProof?
  {
    if ev.statement.provider_type != SevSnp || !anchor.SevSnpAnchor? then Some(ProviderProofMismatch)
    else match Parse(ev.proof.report)
      case None => Some(MalformedProof)
      case Some(fields) =>
        if p.sha512(ev.report_data) != fields.report_data then Some(ReportDataMismatch)
        else FirmwareFault(p, ev.proof.report, ev.proof.vcek_cert_chain, fields, anchor)
  }

  function AzureFault(p: Primitives, ev: Evidence, anchor: TrustAnchor): Option<FailReason>
    requires ev.proof.AzureProof?
  {
    if ev.statement.provider_type != SevSnp || !anchor.SevSnpAnchor? then Some(ProviderProofMismatch)
    else match Parse(ev.proof.report)
      case None => Some(MalformedProof)
      case Some(fields) =>
        if !Anchored(p, ev.proof.var_data, fields.report_data) then Some(ReportDataMismatch)
        else if !AllZero(fields.report_data[32..]) then Some(MalformedProof)
        else
          var fault := FirmwareFault(p, ev.proof.report, ev.proof.vcek_cert_chain, fields, anchor);
          if fault.Some? then fault else QuoteFault(p, ev.report_data, ev.proof)
  }

  function ProofFault(p: Primitives, ev: Evidence, anchor: TrustAnchor): Option<FailReason> {
    match ev.proof
    case SoftwareProof(_, _) => SoftwareFault(p, ev, anchor)
    case SevSnpProof(_, _) => SevSnpFault(p, ev, anchor)
    case AzureProof(_, _, _, _, _, _) => AzureFault(p, ev, anchor)
  }

  function Verify(pl: Platform, ev: Evidence, params: Params): Outcome {
    match EnvelopeFault(pl, ev, params)
    case Some(reason) => Failed(reason)
    case None => match ProofFault(pl.p, ev, params.trust_anchor)
      case Some(reason) => Failed(reason)
      case None => Verified
  }

  // ---------------------------------------------------------------- when verification succeeds

  /** What the caller asked for: an accepted provider, the expected nonce and measurement, a time
      within the window, and report data that encodes exactly this statement. */
  predicate AsRequested(pl: Platform, ev: Evidence, params: Params) {
    var s := ev.statement;
    && s.provider_type in params.accept_provider_types
    && s.nonce == params.expected_nonce && 16 <= |s.nonce| <= 64
    && (params.expected_measurement.Some? ==> s.measurement == params.expected_measurement.value)
    && (params.freshness_secs < 0x7FFF_FFFF_FFFF_FFFF ==> Abs(params.now - s.issued_at) <= params.freshness_secs)
    && ev.report_data == pl.canonical(s)
  }

  ghost predicate PinsMet(fields: ReportFields, anchor: TrustAnchor)
    requires anchor.SevSnpAnchor?
  {
    && anchor.min_tcb <= fields.reported_tcb
    && Covers(fields.guest_policy, anchor.guest_policy)
    && (anchor.expected_host_cvm_meas.Some? ==> fields.measurement == anchor.expected_host_cvm_meas.value)
  }

  /** A signature path leads from the pinned root through every certificate to the report, whose
      fields meet the pins. */
  ghost predicate Rooted(p: Primitives, report: Bytes, chain: Bytes, anchor: TrustAnchor) {
    && anchor.SevSnpAnchor?
    && Parse(report).Some? && PinsMet(Parse(report).value, anchor)
    && HasPath(p, report, chain, anchor.root)
  }

  /** The quote is signed by the key of `area`, which is the key described by the anchored data, and
      carries the digest of the report data. */
  predicate Quotes(p: Primitives, reportData: Bytes, proof: Proof, area: Tpm.PublicArea)
    requires proof.AzureProof?
  {
    && area.Valid() && proof.ak_pub_tpm2b == Tpm.Print(area)
    && p.jwkModulus(proof.var_data) == Some(area.modulus)
    && var attest := Tpm.ParseAttest(proof.quote_msg);
    && attest.Some? && attest.value.extra_data == p.sha256(reportData)
    && p.pkcs1Verify(area.modulus, proof.quote_msg, Tpm.StripHeader(proof.quote_sig))
  }

  ghost predicate Proves(p: Primitives, ev: Evidence, anchor: TrustAnchor) {
    match ev.proof
    case SoftwareProof(signature, key) =>
      && ev.statement.provider_type == Software && anchor == SoftwareAnchor(key)
      && p.ed25519Verify(key, ev.report_data, signature)
    case SevSnpProof(report, chain) =>
      && ev.statement.provider_type == SevSnp
      && Rooted(p, report, chain, anchor)
      && Parse(report).value.report_data == p.sha512(ev.report_data)
    case AzureProof(report, chain, varData, _, _, _) =>
      && ev.statement.provider_type == SevSnp
      && Rooted(p, report, chain, anchor)
      && Parse(report).value.report_data == p.sha256(varData) + Repeat(0, 32)
      && exists area: Tpm.PublicArea :: Quotes(p, ev.report_data, ev.proof, area)
  }

  lemma EnvelopeIff(pl: Platform, ev: Evidence, params: Params)
    ensures EnvelopeFault(pl, ev, params).None? <==> AsRequested(pl, ev, params)
  {
    StaleIff(params.now, ev.statement.issued_at, params.freshness_secs);
  }

  /** The requirements on the envelope in the order in which they are reported, in mathematical terms. */
  function Requirements(pl: Platform, ev: Evidence, params: Params): seq<Requirement<FailReason>> {
    var s := ev.statement;
    [Requirement(s.provider_type in params.accept_provider_types, ProviderTypeNotAccepted),
     Requirement(s.nonce == params.expected_nonce, NonceMismatch),
     Requirement(params.expected_measurement.Some? ==> s.measurement == params.expected_measurement.value,
                 MeasurementMismatch),
     Requirement(params.freshness_secs < 0x7FFF_FFFF_FFFF_FFFF ==>
                   Abs(params.now - s.issued_at) <= params.freshness_secs, Stale),
     Requirement(16 <= |s.nonce| <= 64, MalformedProof),
     Requirement(ev.report_data == pl.canonical(s), FailReason.BadSignature)]
  }

  /** Evidence that is not as requested fails with the reason of the first requirement it misses,
      whatever its proof holds. */
  lemma FirstMissedRequirement(pl: Platform, ev: Evidence, params: Params, k: nat)
    requires k < 6 && !Requirements(pl, ev, params)[k].met
    requires forall i :: 0 <= i < k ==> Requirements(pl, ev, params)[i].met
    ensures Verify(pl, ev, params) == Failed(Requirements(pl, ev, params)[k].reason)
  {
    hide ProofFault;
    StaleIff(params.now, ev.statement.issued_at, params.freshness_secs);
    var reqs := Requirements(pl, ev, params);
    assert k > 0 ==> reqs[0].met;
    assert k > 1 ==> reqs[1].met;
    assert k > 2 ==> reqs[2].met;
    assert k > 3 ==> reqs[3].met;
    assert k > 4 ==> reqs[4].met;
  }

  lemma PinIff(fields: ReportFields, anchor: TrustAnchor)
    requires anchor.SevSnpAnchor?
    ensures PinFault(fields, anchor).None? <==> PinsMet(fields, anchor)
  {
    MaskIff(fields.guest_policy, anchor.guest_policy);
    hide Covers;
    hide BitAnd;
  }

  lemma FirmwareIff(p: Primitives, report: Bytes, chain: Bytes, anchor: TrustAnchor)
    requires anchor.SevSnpAnchor? && Parse(report).Some?
    ensures FirmwareFault(p, report, chain, Parse(report).value, anchor).None? <==> Rooted(p, report, chain, anchor)
  {
    AcceptedIffEndorsed(p, report, chain, anchor.root);
    PinIff(Parse(report).value, anchor);
  }

  lemma AnchoredIff(p: Primitives, varData: Bytes, rd: Bytes)
    requires |rd| == 64
    ensures Anchored(p, varData, rd) && AllZero(rd[32..]) <==> rd == p.sha256(varData) + Repeat(0, 32)
  {
    assert rd == rd[..32] + rd[32..];
    if AllZero(rd[32..]) {
      assert rd[32..] == Repeat(0, 32);
    }
    if rd == p.sha256(varData) + Repeat(0, 32) {
      SplitEqual(rd[..32], rd[32..], p.sha256(varData), Repeat(0, 32));
    }
  }

  lemma QuoteIff(p: Primitives, reportData: Bytes, proof: Proof)
    requires proof.AzureProof?
    ensures QuoteFault(p, reportData, proof).None? <==>
            exists area: Tpm.PublicArea :: Quotes(p, reportData, proof, area)
  {
    hide Tpm.Print;
    hide Tpm.ReadArea;
    hide Tpm.ParseAttest;
    hide Tpm.StripHeader;
    if QuoteFault(p, reportData, proof).None? {
      var area := Tpm.ReadArea(proof.ak_pub_tpm2b).value;
      Tpm.AreaExact(proof.ak_pub_tpm2b, area);
      assert Quotes(p, reportData, proof, area);
    }
    if area: Tpm.PublicArea :| Quotes(p, reportData, proof, area) {
      Tpm.AreaExact(proof.ak_pub_tpm2b, area);
    }
  }

  lemma ProofIff(p: Primitives, ev: Evidence, anchor: TrustAnchor)
    ensures ProofFault(p, ev, anchor).None? <==> Proves(p, ev, anchor)
  {
    hide FirmwareFault;
    hide PinsMet;
    hide HasPath;
    hide QuoteFault;
    hide Quotes;
    match ev.proof
    case SoftwareProof(_, _) =>
    case SevSnpProof(report, chain) =>
      if anchor.SevSnpAnchor? && Parse(report).Some? {
        FirmwareIff(p, report, chain, anchor);
      }
    case AzureProof(report, chain, varData, _, _, _) =>
      if anchor.SevSnpAnchor? && Parse(report).Some? {
        FirmwareIff(p, report, chain, anchor);
        AnchoredIff(p, varData, Parse(report).value.report_data);
        QuoteIff(p, ev.report_data, ev.proof);
      }
  }

  /** Evidence is verified exactly when it is as requested and its proof carries it. */
  lemma VerifiedIff(pl: Platform, ev: Evidence, params: Params)
    ensures Verify(pl, ev, params) == Verified <==>
            AsRequested(pl, ev, params) && Proves(pl.p, ev, params.trust_anchor)
  {
    EnvelopeIff(pl, ev, params);
    ProofIff(pl.p, ev, params.trust_anchor);
  }

  // ---------------------------------------------------------------- why a proof is refused

  ghost function SoftwareRequirements(p: Primitives, ev: Evidence, anchor: TrustAnchor): seq<Requirement<FailReason>>
    requires ev.proof.SoftwareProof?
  {
    [Requirement(ev.statement.provider_type == Software && anchor.SoftwareAnchor?, ProviderProofMismatch),
     Requirement(anchor == SoftwareAnchor(ev.proof.signer_pubkey), UntrustedSigner),
     Requirement(p.ed25519Verify(ev.proof.signer_pubkey, ev.report_data, ev.proof.signature), FailReason.BadSignature)]
  }

  /** What the firmware's part of a proof must meet: the chain, the signature, and the pins. */
  ghost function FirmwareRequirements(p: Primitives, report: Bytes, chain: Bytes, fields: ReportFields,
                                      anchor: TrustAnchor): seq<Requirement<FailReason>>
    requires anchor.SevSnpAnchor?
  {
    [Requirement(Certified(p, chain, anchor.root), BadCertChain),
     Requirement(HasPath(p, report, chain, anchor.root), FailReason.BadSignature),
     Requirement(anchor.min_tcb <= fields.reported_tcb, PolicyMismatch),
     Requirement(Covers(fields.guest_policy, anchor.guest_policy), PolicyMismatch),
     Requirement(anchor.expected_host_cvm_meas.Some? ==> fields.measurement == anchor.expected_host_cvm_meas.value,
                 MeasurementMismatch)]
  }

  /** What the quote must meet: two readable keys that agree, and a readable message that carries the digest and
      is signed. */
  ghost function QuoteRequirements(p: Primitives, reportData: Bytes, proof: Proof): seq<Requirement<FailReason>>
    requires proof.AzureProof?
  {
    var described := p.jwkModulus(proof.var_data);
    var attest := Tpm.ParseAttest(proof.quote_msg);
    [Requirement(described.Some?, MalformedProof),
     Requirement(exists area: Tpm.PublicArea :: area.Valid() && proof.ak_pub_tpm2b == Tpm.Print(area),
                 MalformedProof),
     Requirement(exists area: Tpm.PublicArea ::
                   area.Valid() && proof.ak_pub_tpm2b == Tpm.Print(area) && described == Some(area.modulus),
                 ReportDataMismatch),
     Requirement(attest.Some?, TpmQuoteInvalid),
     Requirement(attest.Some? && attest.value.extra_data == p.sha256(reportData), TpmQuoteInvalid),
     Requirement(described.Some? && p.pkcs1Verify(described.value, proof.quote_msg, Tpm.StripHeader(proof.quote_sig)),
                 TpmQuoteInvalid)]
  }

  ghost function SevSnpRequirements(p: Primitives, ev: Evidence, anchor: TrustAnchor): seq<Requirement<FailReason>>
    requires ev.proof.SevSnpProof?
  {
    var report, parsed := ev.proof.report, Parse(ev.proof.report);
    if ev.statement.provider_type != SevSnp || !anchor.SevSnpAnchor? then [Requirement(false, ProviderProofMismatch)]
    else if |report| != 0x4A0 then [Requirement(false, MalformedProof)]
    else
      [Requirement(parsed.value.report_data == p.sha512(ev.report_data), ReportDataMismatch)]
      + FirmwareRequirements(p, report, ev.proof.vcek_cert_chain, parsed.value, anchor)
  }

  ghost function AzureRequirements(p: Primitives, ev: Evidence, anchor: TrustAnchor): seq<Requirement<FailReason>>
    requires ev.proof.AzureProof?
  {
    var report, parsed := ev.proof.report, Parse(ev.proof.report);
    if ev.statement.provider_type != SevSnp || !anchor.SevSnpAnchor? then [Requirement(false, ProviderProofMismatch)]
    else if |report| != 0x4A0 then [Requirement(false, MalformedProof)]
    else
      [Requirement(parsed.value.report_data[..32] == p.sha256(ev.proof.var_data), ReportDataMismatch),
       Requirement(parsed.value.report_data[32..] == Repeat(0, 32), MalformedProof)]
      + (FirmwareRequirements(p, report, ev.proof.vcek_cert_chain, parsed.value, anchor)
      + QuoteRequirements(p, ev.report_data, ev.proof))
  }

  lemma SoftwareMissed(p: Primitives, ev: Evidence, anchor: TrustAnchor, k: nat)
    requires ev.proof.SoftwareProof? && FirstMissed(SoftwareRequirements(p, ev, anchor), k)
    ensures SoftwareFault(p, ev, anchor) == Some(SoftwareRequirements(p, ev, anchor)[k].reason)
  {
    var reqs := SoftwareRequirements(p, ev, anchor);
    assert k > 0 ==> reqs[0].met;
    assert k > 1 ==> reqs[1].met;
  }

  lemma FirmwareMissed(p: Primitives, report: Bytes, chain: Bytes, anchor: TrustAnchor, k: nat)
    requires anchor.SevSnpAnchor? && |report| == 0x4A0
    requires FirstMissed(FirmwareRequirements(p, report, chain, Parse(report).value, anchor), k)
    ensures FirmwareFault(p, report, chain, Parse(report).value, anchor) ==
            Some(FirmwareRequirements(p, report, chain, Parse(report).value, anchor)[k].reason)
  {
    hide Verdict, HasPath, Certified, Covers, BitAnd, Parse;
    var fields := Parse(report).value;
    var reqs := FirmwareRequirements(p, report, chain, fields, anchor);
    AcceptedIffEndorsed(p, report, chain, anchor.root);
    ChainErrorIff(p, report, chain, anchor.root);
    MaskIff(fields.guest_policy, anchor.guest_policy);
    assert k > 0 ==> reqs[0].met;
    assert k > 1 ==> reqs[1].met;
    assert k > 2 ==> reqs[2].met;
    assert k > 3 ==> reqs[3].met;
    if k > 1 {
      assert Verdict(p, report, chain, anchor.root).Ok?;
    }
  }

  lemma FirmwareAllMet(p: Primitives, report: Bytes, chain: Bytes, anchor: TrustAnchor)
    requires anchor.SevSnpAnchor? && |report| == 0x4A0
    requires var reqs := FirmwareRequirements(p, report, chain, Parse(report).value, anchor);
             forall i :: 0 <= i < |reqs| ==> reqs[i].met
    ensures FirmwareFault(p, report, chain, Parse(report).value, anchor).None?
  {
    hide Verdict, HasPath, Certified, Covers, BitAnd, Parse;
    var reqs := FirmwareRequirements(p, report, chain, Parse(report).value, anchor);
    assert reqs[1].met && reqs[2].met && reqs[3].met && reqs[4].met;
    FirmwareIff(p, report, chain, anchor);
  }

  lemma AreaIs(ak: Bytes)
    ensures Tpm.Modulus(ak).Some? <==> exists area: Tpm.PublicArea :: area.Valid() && ak == Tpm.Print(area)
    ensures forall area: Tpm.PublicArea :: area.Valid() && ak == Tpm.Print(area) ==>
              Tpm.Modulus(ak) == Some(area.modulus)
  {
    hide Tpm.Print, Tpm.ReadArea;
    if Tpm.ReadArea(ak).Some? {
      Tpm.AreaExact(ak, Tpm.ReadArea(ak).value);
    }
    forall area: Tpm.PublicArea | area.Valid() && ak == Tpm.Print(area)
      ensures Tpm.Modulus(ak) == Some(area.modulus)
    {
      Tpm.AreaExact(ak, area);
    }
  }

  lemma QuoteMissed(p: Primitives, reportData: Bytes, proof: Proof, k: nat)
    requires proof.AzureProof? && FirstMissed(QuoteRequirements(p, reportData, proof), k)
    ensures QuoteFault(p, reportData, proof) == Some(QuoteRequirements(p, reportData, proof)[k].reason)
  {
    hide Tpm.Print, Tpm.Modulus, Tpm.ParseAttest, Tpm.StripHeader;
    AreaIs(proof.ak_pub_tpm2b);
    var reqs := QuoteRequirements(p, reportData, proof);
    assert k > 0 ==> reqs[0].met;
    assert k > 1 ==> reqs[1].met;
    assert k > 2 ==> reqs[2].met;
    assert k > 3 ==> reqs[3].met;
    assert k > 4 ==> reqs[4].met;
  }

  lemma SevSnpMissed(p: Primitives, ev: Evidence, anchor: TrustAnchor, k: nat)
    requires ev.proof.SevSnpProof? && FirstMissed(SevSnpRequirements(p, ev, anchor), k)
    ensures SevSnpFault(p, ev, anchor) == Some(SevSnpRequirements(p, ev, anchor)[k].reason)
  {
    hide FirmwareFault, FirmwareRequirements;
    if ev.statement.provider_type == SevSnp && anchor.SevSnpAnchor? && |ev.proof.report| == 0x4A0 {
      var fields := Parse(ev.proof.report).value;
      var firmware := FirmwareRequirements(p, ev.proof.report, ev.proof.vcek_cert_chain, fields, anchor);
      var head := [Requirement(fields.report_data == p.sha512(ev.report_data), ReportDataMismatch)];
      MissedInPart(head, firmware, k);
      if k > 0 {
        assert head[0].met;
        FirmwareMissed(p, ev.proof.report, ev.proof.vcek_cert_chain, anchor, k - 1);
      }
    }
  }

  lemma AzureMissed(p: Primitives, ev: Evidence, anchor: TrustAnchor, k: nat)
    requires ev.proof.AzureProof? && FirstMissed(AzureRequirements(p, ev, anchor), k)
    ensures AzureFault(p, ev, anchor) == Some(AzureRequirements(p, ev, anchor)[k].reason)
  {
    hide FirmwareFault, FirmwareRequirements, QuoteFault, QuoteRequirements;
    if ev.statement.provider_type == SevSnp && anchor.SevSnpAnchor? && |ev.proof.report| == 0x4A0 {
      var report, chain := ev.proof.report, ev.proof.vcek_cert_chain;
      var fields := Parse(report).value;
      var firmware := FirmwareRequirements(p, report, chain, fields, anchor);
      var quote := QuoteRequirements(p, ev.report_data, ev.proof);
      var head := [Requirement(fields.report_data[..32] == p.sha256(ev.proof.var_data), ReportDataMismatch),
                   Requirement(fields.report_data[32..] == Repeat(0, 32), MalformedProof)];
      MissedInPart(head, firmware + quote, k);
      if k >= 2 {
        assert head[0].met && head[1].met;
        MissedInPart(firmware, quote, k - 2);
        if k - 2 < |firmware| {
          FirmwareMissed(p, report, chain, anchor, k - 2);
        } else {
          FirmwareAllMet(p, report, chain, anchor);
          QuoteMissed(p, ev.report_data, ev.proof, k - 2 - |firmware|);
        }
      } else {
        assert k == 1 ==> head[0].met;
        assert AllZero(fields.report_data[32..]) ==> fields.report_data[32..] == Repeat(0, 32);
      }
    }
  }

  /** What the proof of an evidence must meet, in the order in which it is reported. */
  ghost function ProofRequirements(p: Primitives, ev: Evidence, anchor: TrustAnchor): seq<Requirement<FailReason>> {
    match ev.proof
    case SoftwareProof(_, _) => SoftwareRequirements(p, ev, anchor)
    case SevSnpProof(_, _) => SevSnpRequirements(p, ev, anchor)
    case AzureProof(_, _, _, _, _, _) => AzureRequirements(p, ev, anchor)
  }

  /** Evidence that is as requested fails with the reason of the first requirement that its proof misses, for
      each of the three kinds of proof. */
  lemma FirstMissedInProof(pl: Platform, ev: Evidence, params: Params, k: nat)
    requires AsRequested(pl, ev, params)
    requires FirstMissed(ProofRequirements(pl.p, ev, params.trust_anchor), k)
    ensures Verify(pl, ev, params) == Failed(ProofRequirements(pl.p, ev, params.trust_anchor)[k].reason)
  {
    hide AsRequested, SoftwareFault, SevSnpFault, AzureFault, EnvelopeFault;
    EnvelopeIff(pl, ev, params);
    match ev.proof
    case SoftwareProof(_, _) => SoftwareMissed(pl.p, ev, params.trust_anchor, k);
    case SevSnpProof(_, _) => SevSnpMissed(pl.p, ev, params.trust_anchor, k);
    case AzureProof(_, _, _, _, _, _) => AzureMissed(pl.p, ev, params.trust_anchor, k);
  }
}
