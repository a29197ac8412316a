/** The two-layer binding: what verified evidences that share signed material must agree on.

    Neither hash is assumed collision free; each conclusion names the colliding pair instead, and
    both members of the pair are taken from the evidences themselves. */
module Binding {
  import opened Prelude
  import opened Crypto
  import opened ReportData
  import opened SnpReport
  import opened VcekChain
  import opened Attestation
  import Tpm

  /** The report data determines the statement. */
  lemma ReportDataBinds(pl: Platform, a: Evidence, b: Evidence, forA: Params, forB: Params)
    requires Verify(pl, a, forA) == Verified && Verify(pl, b, forB) == Verified
    ensures a.report_data == b.report_data <==> a.statement == b.statement
  {
    hide ProofFault;
    EnvelopeIff(pl, a, forA);
    EnvelopeIff(pl, b, forB);
  }

  /** One quote message, one statement: workspace, measurement, nonce and time. */
  lemma QuoteBinds(pl: Platform, a: Evidence, b: Evidence, forA: Params, forB: Params)
    requires Verify(pl, a, forA) == Verified && Verify(pl, b, forB) == Verified
    requires a.proof.AzureProof? && b.proof.AzureProof? && a.proof.quote_msg == b.proof.quote_msg
    ensures a.statement == b.statement || Collides(pl.p.sha256, a.report_data, b.report_data)
  {
    hide FirmwareFault;
    hide Tpm.ParseAttest;
    hide Tpm.Modulus;
    hide Tpm.StripHeader;
    ReportDataBinds(pl, a, b, forA, forB);
  }

  lemma ReportFields(pl: Platform, ev: Evidence, params: Params)
    requires Verify(pl, ev, params) == Verified && !ev.proof.SoftwareProof?
    ensures |ev.proof.report| == REPORT_SIZE
    ensures ev.proof.SevSnpProof? ==> Parse(ev.proof.report).value.report_data == pl.p.sha512(ev.report_data)
    ensures ev.proof.AzureProof? ==>
              Parse(ev.proof.report).value.report_data == pl.p.sha256(ev.proof.var_data) + Repeat(0, 32)
  {
    hide FirmwareFault;
    hide QuoteFault;
    if ev.proof.AzureProof? {
      AnchoredIff(pl.p, ev.proof.var_data, Parse(ev.proof.report).value.report_data);
    }
  }

  /** In the direct arm the signed region of the report already binds the statement; the signature
      field may differ. */
  lemma ReportBinds(pl: Platform, a: Evidence, b: Evidence, forA: Params, forB: Params)
    requires Verify(pl, a, forA) == Verified && Verify(pl, b, forB) == Verified
    requires a.proof.SevSnpProof? && b.proof.SevSnpProof? && SignedBytes(a.proof.report) == SignedBytes(b.proof.report)
    ensures a.statement == b.statement || Collides(pl.p.sha512, a.report_data, b.report_data)
  {
    ReportFields(pl, a, forA);
    ReportFields(pl, b, forB);
    FieldsAreSigned(a.proof.report, b.proof.report);
    ReportDataBinds(pl, a, b, forA, forB);
    hide Verify;
    hide Parse;
  }

  /** The public area of a verified evidence holds the modulus described by its anchored data. */
  lemma QuoteKeyIsAnchored(pl: Platform, ev: Evidence, params: Params)
    requires Verify(pl, ev, params) == Verified && ev.proof.AzureProof?
    ensures Tpm.Modulus(ev.proof.ak_pub_tpm2b).Some?
    ensures Tpm.Modulus(ev.proof.ak_pub_tpm2b) == pl.p.jwkModulus(ev.proof.var_data)
  {
    hide FirmwareFault;
    hide Tpm.Modulus;
    hide Tpm.ParseAttest;
    hide Tpm.StripHeader;
  }

  /** One signed report region anchors one quote key, or two different key descriptions collide. */
  lemma ReportBindsQuoteKey(pl: Platform, a: Evidence, b: Evidence, forA: Params, forB: Params)
    requires Verify(pl, a, forA) == Verified && Verify(pl, b, forB) == Verified
    requires a.proof.AzureProof? && b.proof.AzureProof? && SignedBytes(a.proof.report) == SignedBytes(b.proof.report)
    ensures Tpm.Modulus(a.proof.ak_pub_tpm2b) == Tpm.Modulus(b.proof.ak_pub_tpm2b)
         || Collides(pl.p.sha256, a.proof.var_data, b.proof.var_data)
  {
    ReportFields(pl, a, forA);
    ReportFields(pl, b, forB);
    FieldsAreSigned(a.proof.report, b.proof.report);
    QuoteKeyIsAnchored(pl, a, forA);
    QuoteKeyIsAnchored(pl, b, forB);
    SplitEqual(pl.p.sha256(a.proof.var_data), Repeat(0, 32), pl.p.sha256(b.proof.var_data), Repeat(0, 32));
  }

  /** Both layers of one verified evidence: a signature path from the pinned root to the report, the
      report committing to the key description, that description naming the quote key, and the quote
      signed by that key over the digest of exactly this statement. */
  lemma TwoLayers(pl: Platform, ev: Evidence, params: Params) returns (area: Tpm.PublicArea)
    requires Verify(pl, ev, params) == Verified && ev.proof.AzureProof?
    ensures params.trust_anchor.SevSnpAnchor?
    ensures HasPath(pl.p, ev.proof.report, ev.proof.vcek_cert_chain, params.trust_anchor.root)
    ensures Parse(ev.proof.report).Some?
    ensures Parse(ev.proof.report).value.report_data == pl.p.sha256(ev.proof.var_data) + Repeat(0, 32)
    ensures Quotes(pl.p, pl.canonical(ev.statement), ev.proof, area)
  {
    hide Verify;
    hide Quotes;
    VerifiedIff(pl, ev, params);
    area :| Quotes(pl.p, ev.report_data, ev.proof, area);
  }

  /** Verification does not look at the type of the quote message.  A verified evidence carries a printed
      quote exactly when the two bytes behind the magic say so, which a caller can look at. */
  lemma VerifiedQuoteTypeIff(pl: Platform, ev: Evidence, params: Params)
    requires Verify(pl, ev, params) == Verified && ev.proof.AzureProof?
    ensures |ev.proof.quote_msg| >= 8
    ensures Tpm.IsQuote(ev.proof.quote_msg) <==> Tpm.TypeBytes(ev.proof.quote_msg) == [0x80, 0x18]
  {
    hide FirmwareFault;
    hide Tpm.Modulus;
    hide Tpm.ParseAttest;
    hide Tpm.StripHeader;
    hide Tpm.IsQuote;
    hide Tpm.TypeBytes;
    Tpm.QuoteTypeIff(ev.proof.quote_msg);
  }

  /** `QuoteBinds` for the JSON encoding of statements. */
  lemma JsonQuoteBinds(p: Primitives, a: Evidence, b: Evidence, forA: Params, forB: Params)
    requires Verify(JsonPlatform(p), a, forA) == Verified && Verify(JsonPlatform(p), b, forB) == Verified
    requires a.proof.AzureProof? && b.proof.AzureProof? && a.proof.quote_msg == b.proof.quote_msg
    ensures || a.statement == b.statement
            || Collides(p.sha256, CanonicalReportData(a.statement), CanonicalReportData(b.statement))
  {
    hide ProofFault;
    QuoteBinds(JsonPlatform(p), a, b, forA, forB);
    EnvelopeIff(JsonPlatform(p), a, forA);
    EnvelopeIff(JsonPlatform(p), b, forB);
  }
}
