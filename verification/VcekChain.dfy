/** The endorsement chain: from the pinned root through every certificate to the firmware report. */
module VcekChain {
  import opened Prelude
  import opened Crypto
  import opened Endian
  import opened SnpReport
  import AmdSignature
  import Der

  datatype VcekError = MalformedCert | BadChain | BadSignature | Network

  // ---------------------------------------------------------------- one certificate

  /** `key` signed the certificate: its signed region and signature verify under the scheme that the
      certificate names, and `key` is of that scheme. */
  predicate SignedBy(p: Primitives, cert: Bytes, key: PubKey) {
    && Der.TbsAndSignature(cert).Some?
    && var (tbs, sig) := Der.TbsAndSignature(cert).value;
    match p.certAlgorithm(cert)
    case Some(RsassaPss) => key.Rsa? && p.pssWellFormed(sig) && p.pssVerify(key.rsa, tbs, sig)
    case Some(EcdsaSha384) => key.EcP384? && p.ecdsaDerWellFormed(sig) && p.ecdsaDerVerify(key.ec, tbs, sig)
    case _ => false
  }

  /** The certificate itself cannot be read: its structure, its algorithm, or (once the issuer's key
      is of the right kind) its signature value. */
  predicate Unreadable(p: Primitives, cert: Bytes, key: PubKey) {
    || Der.TbsAndSignature(cert).None?
    || match p.certAlgorithm(cert)
       case Some(RsassaPss) => key.Rsa? && !p.pssWellFormed(Der.TbsAndSignature(cert).value.1)
       case Some(EcdsaSha384) => key.EcP384? && !p.ecdsaDerWellFormed(Der.TbsAndSignature(cert).value.1)
       case _ => true
  }

  function VerifyCert(p: Primitives, cert: Bytes, key: PubKey): (r: Result<(), VcekError>)
    ensures r.Ok? <==> SignedBy(p, cert, key)
    ensures r == Err(MalformedCert) <==> Unreadable(p, cert, key)
    ensures r.Err? && r.error != MalformedCert ==> r.error == BadChain
  {
    match Der.TbsAndSignature(cert)
    case None => Err(MalformedCert)
    case Some((tbs, sig)) =>
      match p.certAlgorithm(cert)
      case None => Err(MalformedCert)
      case Some(RsassaPss) =>
        if key.EcP384? then Err(BadChain)
        else if !p.pssWellFormed(sig) then Err(MalformedCert)
        else if p.pssVerify(key.rsa, tbs, sig) then Ok(())
        else Err(BadChain)
      case Some(EcdsaSha384) =>
        if key.Rsa? then Err(BadChain)
        else if !p.ecdsaDerWellFormed(sig) then Err(MalformedCert)
        else if p.ecdsaDerVerify(key.ec, tbs, sig) then Ok(())
        else Err(BadChain)
      case Some(OtherAlgorithm) => Err(MalformedCert)
  }

  // ---------------------------------------------------------------- the walk

  /** The key that must have signed certificate `i`: the next certificate's, or the root for the last. */
  function IssuerKey(p: Primitives, certs: seq<Bytes>, root: PubKey, i: nat): Option<PubKey>
    requires i < |certs|
  {
    if i + 1 < |certs| then p.certKey(certs[i + 1]) else Some(root)
  }

  /** Certificate `i` is signed by its issuer. */
  predicate Issued(p: Primitives, certs: seq<Bytes>, root: PubKey, i: nat)
    requires i < |certs|
  {
    var key := IssuerKey(p, certs, root, i);
    key.Some? && SignedBy(p, certs[i], key.value)
  }

  function CheckLink(p: Primitives, certs: seq<Bytes>, root: PubKey, i: nat): (r: Result<(), VcekError>)
    requires i < |certs|
    ensures r.Ok? <==> Issued(p, certs, root, i)
  {
    match IssuerKey(p, certs, root, i)
    case None => Err(MalformedCert)
    case Some(key) => VerifyCert(p, certs[i], key)
  }

  function Links(p: Primitives, certs: seq<Bytes>, root: PubKey): (r: seq<Result<(), VcekError>>)
    ensures |r| == |certs|
  {
    seq(|certs|, i requires 0 <= i < |certs| => CheckLink(p, certs, root, i))
  }

  /** The first error at or after `i`, if any. */
  function FirstError(links: seq<Result<(), VcekError>>, i: nat): (r: Result<(), VcekError>)
    requires i <= |links|
    ensures r.Ok? <==> forall j :: i <= j < |links| ==> links[j].Ok?
    decreases |links| - i
  {
    if i == |links| then Ok(())
    else if links[i].Err? then links[i]
    else FirstError(links, i + 1)
  }

  /** The walk reports the least broken link. */
  lemma {:induction false} FirstErrorIsLeast(links: seq<Result<(), VcekError>>, i: nat, k: nat)
    requires i <= k < |links| && links[k].Err?
    requires forall j :: i <= j < k ==> links[j].Ok?
    ensures FirstError(links, i) == links[k]
    decreases k - i
  {
    if i < k {
      FirstErrorIsLeast(links, i + 1, k);
    }
  }

  lemma LinksOk(p: Primitives, certs: seq<Bytes>, root: PubKey)
    ensures FirstError(Links(p, certs, root), 0).Ok? <==>
            forall i :: 0 <= i < |certs| ==> Issued(p, certs, root, i)
  {
    var links := Links(p, certs, root);
    forall i | 0 <= i < |certs| ensures links[i].Ok? <==> Issued(p, certs, root, i) {
      assert links[i] == CheckLink(p, certs, root, i);
    }
  }

  /** The key in certificate `issuer` signed certificate `cert`. */
  predicate KeySigned(p: Primitives, issuer: Bytes, cert: Bytes) {
    p.certKey(issuer).Some? && SignedBy(p, cert, p.certKey(issuer).value)
  }

  /** The key of each certificate signed the one before it, and `root` signed the last. */
  ghost predicate SignedUpTo(p: Primitives, certs: seq<Bytes>, root: PubKey) {
    && (forall i, j :: 0 <= i < j < |certs| && j == i + 1 ==> KeySigned(p, certs[j], certs[i]))
    && (certs != [] ==> SignedBy(p, certs[|certs| - 1], root))
  }

  lemma AllIssuedIff(p: Primitives, certs: seq<Bytes>, root: PubKey)
    ensures (forall i :: 0 <= i < |certs| ==> Issued(p, certs, root, i)) <==> SignedUpTo(p, certs, root)
  {
    hide SignedBy;
    if forall i :: 0 <= i < |certs| ==> Issued(p, certs, root, i) {
      forall i, j | 0 <= i < j < |certs| && j == i + 1 ensures KeySigned(p, certs[j], certs[i]) {
        assert Issued(p, certs, root, i);
      }
      assert certs != [] ==> Issued(p, certs, root, |certs| - 1);
    }
    if SignedUpTo(p, certs, root) {
      forall i | 0 <= i < |certs| ensures Issued(p, certs, root, i) {
        var j := i + 1;
        assert j < |certs| ==> KeySigned(p, certs[j], certs[i]);
      }
    }
  }

  lemma WalkOkIff(p: Primitives, certs: seq<Bytes>, root: PubKey)
    ensures FirstError(Links(p, certs, root), 0).Ok? <==> SignedUpTo(p, certs, root)
  {
    hide SignedUpTo, Issued, Links;
    LinksOk(p, certs, root);
    AllIssuedIff(p, certs, root);
  }

  /** Checks each certificate under the next one's key, and the last under the root. */
  method WalkChain(p: Primitives, certs: seq<Bytes>, root: PubKey) returns (r: Result<(), VcekError>)
    ensures r == FirstError(Links(p, certs, root), 0)
    ensures r.Ok? <==> SignedUpTo(p, certs, root)
  {
    WalkOkIff(p, certs, root);
    hide SignedUpTo;
    ghost var links := Links(p, certs, root);
    for i := 0 to |certs|
      invariant FirstError(links, 0) == FirstError(links, i)
    {
      var issuer := if i + 1 < |certs| then p.certKey(certs[i + 1]) else Some(root);
      if issuer.None? {
        return Err(MalformedCert);
      }
      assert links[i] == CheckLink(p, certs, root, i);
      var link := VerifyCert(p, certs[i], issuer.value);
      if link.Err? {
        return link;
      }
    }
    r := Ok(());
  }

  // ---------------------------------------------------------------- the report

  /** The leaf's elliptic-curve key verifies the firmware signature over the signed region. */
  predicate ReportSignedBy(p: Primitives, report: Bytes, leaf: PubKey)
    requires |report| == REPORT_SIZE
  {
    && leaf.EcP384?
    && var rs := AmdSignature.Decode(report[SIGNED_LEN..]);
    rs.Some? && p.ecdsaFixedWellFormed(rs.value) && p.ecdsaFixedVerify(leaf.ec, report[..SIGNED_LEN], rs.value)
  }

  /** The verdict: unreadable input first, then the walk, then the firmware signature. */
  function Verdict(p: Primitives, report: Bytes, chain: Bytes, root: PubKey): (r: Result<(), VcekError>) {
    if |report| != REPORT_SIZE then Err(MalformedCert)
    else match Der.Split(chain)
      case None => Err(MalformedCert)
      case Some(certs) =>
        if certs == [] then Err(BadChain)
        else match p.certKey(certs[0])
          case None => Err(MalformedCert)
          case Some(leaf) =>
            var walk := FirstError(Links(p, certs, root), 0);
            if walk.Err? then walk
            else if ReportSignedBy(p, report, leaf) then Ok(())
            else Err(BadSignature)
  }

  method VerifyReport(p: Primitives, report: Bytes, chain: Bytes, root: PubKey) returns (r: Result<(), VcekError>)
    ensures r == Verdict(p, report, chain, root)
    ensures r.Ok? <==> HasPath(p, report, chain, root)
  {
    AcceptedIffEndorsed(p, report, chain, root);
    hide HasPath;
    var signed, sigField := SignedBytes(report), SignatureField(report);
    if signed.None? || sigField.None? {
      return Err(MalformedCert);
    }
    var split := Der.SplitConcatDer(chain);
    if split.None? {
      return Err(MalformedCert);
    }
    var certs := split.value;
    if certs == [] {
      return Err(BadChain);
    }
    var leaf := p.certKey(certs[0]);
    if leaf.None? {
      return Err(MalformedCert);
    }
    var walk := WalkChain(p, certs, root);
    if walk.Err? {
      return walk;
    }
    if leaf.value.Rsa? {
      return Err(BadSignature);
    }
    var rs := AmdSignature.Decode(sigField.value);
    if rs.None? || !p.ecdsaFixedWellFormed(rs.value) || !p.ecdsaFixedVerify(leaf.value.ec, signed.value, rs.value) {
      return Err(BadSignature);
    }
    r := Ok(());
  }

  /** `leaf` is an elliptic-curve key, and the signature stored behind the first 672 bytes of the report, `r`
      and `s` with the least significant byte first, is one by that key over those bytes. */
  predicate FirmwareSigned(p: Primitives, report: Bytes, leaf: PubKey)
    requires |report| == 0x4A0
  {
    && leaf.EcP384?
    && AllZero(report[0x330..])
    && var rs := Reverse(report[0x2A0..0x2D0]) + Reverse(report[0x2E8..0x318]);
    p.ecdsaFixedWellFormed(rs) && p.ecdsaFixedVerify(leaf.ec, report[..0x2A0], rs)
  }

  lemma FirmwareSignedIff(p: Primitives, report: Bytes, leaf: PubKey)
    requires |report| == 0x4A0
    ensures ReportSignedBy(p, report, leaf) <==> FirmwareSigned(p, report, leaf)
  {
    hide Reverse, AmdSignature.Decode;
    var field := report[0x2A0..];
    AmdSignature.DecodeReads(field);
    assert field[144..] == report[0x330..] && field[..48] == report[0x2A0..0x2D0];
    assert field[72..120] == report[0x2E8..0x318];
  }

  /** `chain` is the concatenation of the DER certificates `certs`, the first has a readable key, and they are
      signed up to `root`. */
  ghost predicate CertifiedBy(p: Primitives, chain: Bytes, certs: seq<Bytes>, root: PubKey) {
    && Concat(certs) == chain && certs != [] && Der.AllElements(certs)
    && p.certKey(certs[0]).Some?
    && SignedUpTo(p, certs, root)
  }

  /** `certs` is a signature path from `root` down to `report`. */
  ghost predicate Endorses(p: Primitives, report: Bytes, certs: seq<Bytes>, root: PubKey) {
    && |report| == 0x4A0
    && CertifiedBy(p, Concat(certs), certs, root)
    && FirmwareSigned(p, report, p.certKey(certs[0]).value)
  }

  /** The chain is the concatenation of certificates that form a signature path from the root. */
  ghost predicate HasPath(p: Primitives, report: Bytes, chain: Bytes, root: PubKey) {
    exists certs :: Concat(certs) == chain && Endorses(p, report, certs, root)
  }

  /** The verdict on a chain that splits into `certs`. */
  lemma VerdictOf(p: Primitives, report: Bytes, chain: Bytes, certs: seq<Bytes>, root: PubKey)
    requires |report| == 0x4A0 && certs != [] && Concat(certs) == chain && Der.AllElements(certs)
    ensures Verdict(p, report, chain, root) ==
            if p.certKey(certs[0]).None? then Err(MalformedCert)
            else if !SignedUpTo(p, certs, root) then FirstError(Links(p, certs, root), 0)
            else if FirmwareSigned(p, report, p.certKey(certs[0]).value) then Ok(())
            else Err(BadSignature)
  {
    hide Links, SignedUpTo, FirmwareSigned, ReportSignedBy;
    Der.SplitInverts(chain, certs);
    WalkOkIff(p, certs, root);
    if p.certKey(certs[0]).Some? {
      FirmwareSignedIff(p, report, p.certKey(certs[0]).value);
    }
  }

  lemma EndorsedIsAccepted(p: Primitives, report: Bytes, certs: seq<Bytes>, root: PubKey)
    requires Endorses(p, report, certs, root)
    ensures Verdict(p, report, Concat(certs), root).Ok?
  {
    hide Verdict, SignedUpTo, FirmwareSigned;
    VerdictOf(p, report, Concat(certs), certs, root);
  }

  /** A report is accepted exactly when there is such a path. */
  lemma AcceptedIffEndorsed(p: Primitives, report: Bytes, chain: Bytes, root: PubKey)
    ensures Verdict(p, report, chain, root).Ok? <==> HasPath(p, report, chain, root)
  {
    hide Links, SignedUpTo, FirmwareSigned, ReportSignedBy;
    if Verdict(p, report, chain, root).Ok? {
      var certs := Der.Split(chain).value;
      Der.SplitInverts(chain, certs);
      WalkErrors(p, certs, root);
      VerdictOf(p, report, chain, certs, root);
      WalkOkIff(p, certs, root);
      assert Endorses(p, report, certs, root);
    }
    if HasPath(p, report, chain, root) {
      var certs :| Concat(certs) == chain && Endorses(p, report, certs, root);
      EndorsedIsAccepted(p, report, certs, root);
    }
  }

  /** A bad firmware signature is reported exactly when everything above it is sound: the chain is a
      concatenation of certificates signed up to the root, and only the report's signature fails. */
  lemma BadSignatureIff(p: Primitives, report: Bytes, chain: Bytes, root: PubKey)
    ensures Verdict(p, report, chain, root) == Err(BadSignature) <==>
            && |report| == 0x4A0
            && exists certs :: CertifiedBy(p, chain, certs, root) &&
                 !FirmwareSigned(p, report, p.certKey(certs[0]).value)
  {
    hide Links, SignedUpTo, FirmwareSigned, ReportSignedBy;
    if Verdict(p, report, chain, root) == Err(BadSignature) {
      var certs := Der.Split(chain).value;
      Der.SplitInverts(chain, certs);
      WalkErrors(p, certs, root);
      VerdictOf(p, report, chain, certs, root);
      assert CertifiedBy(p, chain, certs, root);
    }
    if |report| == 0x4A0 {
      forall certs | CertifiedBy(p, chain, certs, root) && !FirmwareSigned(p, report, p.certKey(certs[0]).value)
        ensures Verdict(p, report, chain, root) == Err(BadSignature)
      {
        VerdictOf(p, report, chain, certs, root);
      }
    }
  }

  /** The chain is a concatenation of certificates signed up to the root. */
  ghost predicate Certified(p: Primitives, chain: Bytes, root: PubKey) {
    exists certs :: CertifiedBy(p, chain, certs, root)
  }

  /** For a report of the right size, an error other than a bad firmware signature is an error of the chain. */
  lemma ChainErrorIff(p: Primitives, report: Bytes, chain: Bytes, root: PubKey)
    requires |report| == 0x4A0
    ensures Certified(p, chain, root) <==>
            Verdict(p, report, chain, root).Ok? || Verdict(p, report, chain, root) == Err(BadSignature)
  {
    hide Verdict, SignedUpTo, FirmwareSigned;
    AcceptedIffEndorsed(p, report, chain, root);
    BadSignatureIff(p, report, chain, root);
    if Verdict(p, report, chain, root).Ok? {
      var certs :| Concat(certs) == chain && Endorses(p, report, certs, root);
      assert CertifiedBy(p, chain, certs, root);
    }
    if certs :| CertifiedBy(p, chain, certs, root) {
      VerdictOf(p, report, chain, certs, root);
    }
  }

  /** The first certificate that its issuer did not sign is `i`, and both it and its issuer can be read. */
  ghost predicate RefusedAt(p: Primitives, certs: seq<Bytes>, root: PubKey, i: nat) {
    && i < |certs|
    && (forall j, k :: 0 <= j < k <= i && k == j + 1 ==> KeySigned(p, certs[k], certs[j]))
    && var issuer := if i + 1 < |certs| then p.certKey(certs[i + 1]) else Some(root);
    issuer.Some? && !SignedBy(p, certs[i], issuer.value) && !Unreadable(p, certs[i], issuer.value)
  }

  /** The position whose error the walk reports. */
  lemma {:induction false} FirstErrorAt(links: seq<Result<(), VcekError>>, i: nat) returns (k: nat)
    requires i <= |links| && FirstError(links, i).Err?
    ensures i <= k < |links| && links[k] == FirstError(links, i) && forall j :: i <= j < k ==> links[j].Ok?
    decreases |links| - i
  {
    if links[i].Ok? {
      k := FirstErrorAt(links, i + 1);
    } else {
      k := i;
    }
  }

  lemma LinkMeans(p: Primitives, certs: seq<Bytes>, root: PubKey, i: nat)
    requires i < |certs|
    ensures var issuer := if i + 1 < |certs| then p.certKey(certs[i + 1]) else Some(root);
            && (Links(p, certs, root)[i].Ok? <==> issuer.Some? && SignedBy(p, certs[i], issuer.value))
            && (Links(p, certs, root)[i] == Err(BadChain) <==>
                issuer.Some? && !SignedBy(p, certs[i], issuer.value) && !Unreadable(p, certs[i], issuer.value))
            && (Links(p, certs, root)[i] in {Ok(()), Err(BadChain), Err(MalformedCert)})
  {
    hide SignedBy, Unreadable;
    assert Links(p, certs, root)[i] == CheckLink(p, certs, root, i);
  }

  lemma WalkErrors(p: Primitives, certs: seq<Bytes>, root: PubKey)
    ensures var walk := FirstError(Links(p, certs, root), 0);
            walk.Err? ==> walk.error == MalformedCert || walk.error == BadChain
  {
    hide Links, SignedBy, Unreadable;
    if FirstError(Links(p, certs, root), 0).Err? {
      var k := FirstErrorAt(Links(p, certs, root), 0);
      LinkMeans(p, certs, root, k);
    }
  }

  lemma WalkRefused(p: Primitives, certs: seq<Bytes>, root: PubKey) returns (k: nat)
    requires FirstError(Links(p, certs, root), 0) == Err(BadChain)
    ensures RefusedAt(p, certs, root, k)
  {
    hide Links, SignedBy, Unreadable;
    k := FirstErrorAt(Links(p, certs, root), 0);
    LinkMeans(p, certs, root, k);
    forall i, j | 0 <= i < j <= k && j == i + 1 ensures KeySigned(p, certs[j], certs[i]) {
      LinkMeans(p, certs, root, i);
    }
  }

  lemma RefusedWalk(p: Primitives, certs: seq<Bytes>, root: PubKey, k: nat)
    requires RefusedAt(p, certs, root, k)
    ensures FirstError(Links(p, certs, root), 0) == Err(BadChain)
  {
    hide Links, SignedBy, Unreadable;
    LinkMeans(p, certs, root, k);
    forall i | 0 <= i < k ensures Links(p, certs, root)[i].Ok? {
      LinkMeans(p, certs, root, i);
      var j := i + 1;
      assert KeySigned(p, certs[j], certs[i]);
    }
    FirstErrorIsLeast(Links(p, certs, root), 0, k);
  }

  /** `certs` are the certificates of the chain, and `i` is where the path to the root breaks. */
  ghost predicate BreaksAt(p: Primitives, chain: Bytes, certs: seq<Bytes>, root: PubKey, i: nat) {
    && Concat(certs) == chain && certs != [] && Der.AllElements(certs)
    && p.certKey(certs[0]).Some?
    && RefusedAt(p, certs, root, i)
  }

  /** A bad chain is reported exactly for an empty chain and for one whose first faulty link is between
      readable certificates. */
  lemma BadChainIff(p: Primitives, report: Bytes, chain: Bytes, root: PubKey)
    ensures Verdict(p, report, chain, root) == Err(BadChain) <==>
            |report| == 0x4A0 && (chain == [] || exists certs, i: nat :: BreaksAt(p, chain, certs, root, i))
  {
    hide Links, SignedUpTo, FirmwareSigned, ReportSignedBy, RefusedAt;
    if Verdict(p, report, chain, root) == Err(BadChain) && chain != [] {
      var certs := Der.Split(chain).value;
      Der.SplitInverts(chain, certs);
      VerdictOf(p, report, chain, certs, root);
      var i := WalkRefused(p, certs, root);
      assert BreaksAt(p, chain, certs, root, i);
    }
    if |report| == 0x4A0 {
      forall certs, i: nat | BreaksAt(p, chain, certs, root, i)
        ensures Verdict(p, report, chain, root) == Err(BadChain)
      {
        RefusedWalk(p, certs, root, i);
        WalkOkIff(p, certs, root);
        VerdictOf(p, report, chain, certs, root);
      }
    }
  }

  /** Everything else is unreadable input: no fourth error is ever reported. */
  lemma NoOtherError(p: Primitives, report: Bytes, chain: Bytes, root: PubKey)
    ensures Verdict(p, report, chain, root) in {Ok(()), Err(MalformedCert), Err(BadChain), Err(BadSignature)}
  {
    hide Links, ReportSignedBy;
    if Der.Split(chain).Some? {
      WalkErrors(p, Der.Split(chain).value, root);
    }
  }

  /** The padding of the firmware signature decides nothing: reports that differ only there get the
      same verdict. */
  lemma VerdictIgnoresPadding(p: Primitives, a: Bytes, b: Bytes, chain: Bytes, root: PubKey)
    requires |a| == |b| == REPORT_SIZE && a[..SIGNED_LEN] == b[..SIGNED_LEN]
    requires AmdSignature.SameScalars(a[SIGNED_LEN..], b[SIGNED_LEN..])
    ensures Verdict(p, a, chain, root) == Verdict(p, b, chain, root)
  {
    hide Links;
    hide AmdSignature.Decode;
    AmdSignature.SameScalarsDecode(a[SIGNED_LEN..], b[SIGNED_LEN..]);
  }
}
