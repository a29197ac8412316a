/** Verification of the signed, hash-linked audit log, and what a verified log pins down. */
module AuditChain {
  import opened Prelude
  import opened Json
  import opened AuditEvents
  import opened Crypto
  import opened ChainSkeleton

  /** The primitives and the canonical form that signatures and links are taken over.  All results
      hold for every canonical form; `JsonVerifier` uses the log's own. */
  datatype Verifier = Verifier(p: Primitives, canonical: CanonicalForm)

  ghost function JsonVerifier(p: Primitives): Verifier {
    CanonicalIsExact();
    Verifier(p, CanonicalBytes)
  }

  /** The link value of an event: hexadecimal SHA-256 of its canonical bytes. */
  function LinkHash(c: Verifier, e: AuditEvent): Bytes { Hex(c.p.sha256(c.canonical(e))) }

  predicate DecodesTo(c: Verifier, text: Bytes, length: nat)
  {
    c.p.base64Decode(text).Some? && |c.p.base64Decode(text).value| == length
  }

  predicate KeyUsable(c: Verifier, e: AuditEvent)
  {
    DecodesTo(c, e.signer_pubkey_b64, 32) && c.p.ed25519Key(c.p.base64Decode(e.signer_pubkey_b64).value)
  }

  /** The event carries a key and a signature of that key over its canonical bytes. */
  predicate Authentic(c: Verifier, e: AuditEvent)
  {
    && KeyUsable(c, e)
    && DecodesTo(c, e.signature_b64, 64)
    && c.p.ed25519Verify(c.p.base64Decode(e.signer_pubkey_b64).value, c.canonical(e),
                       c.p.base64Decode(e.signature_b64).value)
  }

  function SignatureFault(c: Verifier, e: AuditEvent): (r: Option<Reason>)
    ensures r.None? <==> Authentic(c, e)
  {
    if !KeyUsable(c, e) then Some(MalformedPubkey)
    else if !DecodesTo(c, e.signature_b64, 64) then Some(MalformedSignature)
    else if !Authentic(c, e) then Some(BadSignature)
    else None
  }

  function NodeOf(c: Verifier, e: AuditEvent): Node {
    Node(SignatureFault(c, e), e.chain_index, e.prev_hash_hex, LinkHash(c, e))
  }

  function Skeleton(c: Verifier, s: seq<AuditEvent>): (r: seq<Node>)
    ensures |r| == |s| && forall i :: 0 <= i < |s| ==> r[i] == NodeOf(c, s[i])
  {
    seq(|s|, i requires 0 <= i < |s| => NodeOf(c, s[i]))
  }

  /** The verdict on a list of events. */
  function Verification(c: Verifier, s: seq<AuditEvent>): ChainVerification { Verdict(Skeleton(c, s)) }

  // ---------------------------------------------------------------- what a verdict says of the events

  /** The key text does not decode to 32 bytes that are an Ed25519 key. */
  predicate BadKeyText(c: Verifier, e: AuditEvent)
  {
    var key := c.p.base64Decode(e.signer_pubkey_b64);
    key.None? || |key.value| != 32 || !c.p.ed25519Key(key.value)
  }

  /** The signature text does not decode to 64 bytes. */
  predicate BadSignatureText(c: Verifier, e: AuditEvent)
  {
    var sig := c.p.base64Decode(e.signature_b64);
    sig.None? || |sig.value| != 64
  }

  /** Ed25519 refuses the signature over the canonical bytes. */
  predicate Refused(c: Verifier, e: AuditEvent)
  {
    var key, sig := c.p.base64Decode(e.signer_pubkey_b64), c.p.base64Decode(e.signature_b64);
    key.Some? && sig.Some? && !c.p.ed25519Verify(key.value, c.canonical(e), sig.value)
  }

  /** The event does not carry the hash of the event before it, or, in front with index 0, not 64 zeros. */
  predicate Unlinked(c: Verifier, prev: Option<AuditEvent>, e: AuditEvent)
  {
    match prev
    case Some(p) => e.prev_hash_hex != Hex(c.p.sha256(c.canonical(p)))
    case None => e.chain_index == 0 && e.prev_hash_hex != Repeat(48, 64)
  }

  predicate OutOfSequence(prev: Option<AuditEvent>, e: AuditEvent)
  {
    prev.Some? && e.chain_index != prev.value.chain_index + 1
  }

  /** When each reason applies to an event: the first of five tests that it fails. */
  predicate Explains(c: Verifier, prev: Option<AuditEvent>, e: AuditEvent, reason: Reason)
  {
    match reason
    case MalformedPubkey => BadKeyText(c, e)
    case MalformedSignature => !BadKeyText(c, e) && BadSignatureText(c, e)
    case BadSignature => !BadKeyText(c, e) && !BadSignatureText(c, e) && Refused(c, e)
    case NonSequentialIndex =>
      !BadKeyText(c, e) && !BadSignatureText(c, e) && !Refused(c, e) && OutOfSequence(prev, e)
    case BrokenLink =>
      && !BadKeyText(c, e) && !BadSignatureText(c, e) && !Refused(c, e)
      && !OutOfSequence(prev, e) && Unlinked(c, prev, e)
  }

  predicate Sound(c: Verifier, prev: Option<AuditEvent>, e: AuditEvent)
  {
    && !BadKeyText(c, e) && !BadSignatureText(c, e) && !Refused(c, e)
    && !OutOfSequence(prev, e) && !Unlinked(c, prev, e)
  }

  function Before(s: seq<AuditEvent>, i: nat): Option<AuditEvent>
    requires i <= |s|
  {
    if i == 0 then None else Some(s[i - 1])
  }

  /** `error` is about position `i`, the first that is not sound. */
  predicate Blames(c: Verifier, s: seq<AuditEvent>, i: nat, error: ChainError)
  {
    && i < |s|
    && (forall j :: 0 <= j < i ==> Sound(c, Before(s, j), s[j]))
    && error.index == s[i].chain_index
    && Explains(c, Before(s, i), s[i], error.reason)
  }

  /** Every field of the verdict in terms of the events. */
  ghost predicate Reports(c: Verifier, s: seq<AuditEvent>, v: ChainVerification)
  {
    && v.count == |s|
    && v.first_index == (if s == [] then None else Some(s[0].chain_index))
    && v.last_index == (if s == [] then None else Some(s[|s| - 1].chain_index))
    && v.root_hex == (if v.ok && s != [] then Some(Hex(c.p.sha256(c.canonical(s[|s| - 1])))) else None)
    && (v.ok <==> v.first_error.None?)
    && (v.ok ==> forall i :: 0 <= i < |s| ==> Sound(c, Before(s, i), s[i]))
    && (!v.ok ==> exists i: nat :: Blames(c, s, i, v.first_error.value))
  }

  lemma FaultExplains(c: Verifier, s: seq<AuditEvent>, i: nat)
    requires i < |s|
    ensures Fault(Skeleton(c, s), i).None? <==> Sound(c, Before(s, i), s[i])
    ensures Fault(Skeleton(c, s), i).Some? ==> Explains(c, Before(s, i), s[i], Fault(Skeleton(c, s), i).value)
  {
    hide Hex;
    FaultAt(c, s, i);
  }

  lemma ReasonUnique(c: Verifier, prev: Option<AuditEvent>, e: AuditEvent, a: Reason, b: Reason)
    requires Explains(c, prev, e, a)
    ensures !Sound(c, prev, e)
    ensures Explains(c, prev, e, b) ==> a == b
  {
    hide BadKeyText, BadSignatureText, Refused, Unlinked, OutOfSequence;
  }

  lemma BlameUnique(c: Verifier, s: seq<AuditEvent>, i: nat, a: ChainError, j: nat, b: ChainError)
    requires Blames(c, s, i, a) && Blames(c, s, j, b)
    ensures i == j && a == b
  {
    hide Explains, Sound;
    ReasonUnique(c, Before(s, i), s[i], a.reason, b.reason);
    ReasonUnique(c, Before(s, j), s[j], b.reason, a.reason);
  }

  /** The node sequence says of each position what the events say. */
  lemma NodesMirror(c: Verifier, s: seq<AuditEvent>, i: nat)
    requires i < |s|
    ensures Fault(Skeleton(c, s), i).None? <==> Sound(c, Before(s, i), s[i])
    ensures Fault(Skeleton(c, s), i).Some? ==> Explains(c, Before(s, i), s[i], Fault(Skeleton(c, s), i).value)
    ensures Skeleton(c, s)[i].index == s[i].chain_index
    ensures Skeleton(c, s)[i].hash == Hex(c.p.sha256(c.canonical(s[i])))
  {
    hide Fault, Explains, Sound, Hex;
    FaultExplains(c, s, i);
  }

  lemma VerificationReports(c: Verifier, s: seq<AuditEvent>)
    ensures Reports(c, s, Verification(c, s))
  {
    hide Explains, Sound, Fault, Hex, NodeOf, Verdict, Skeleton;
    var nodes := Skeleton(c, s);
    var p := FirstFault(nodes, 0);
    forall j | 0 <= j < p ensures Sound(c, Before(s, j), s[j]) {
      NodesMirror(c, s, j);
    }
    if s == [] {
      CleanStart(nodes);
    } else {
      NodesMirror(c, s, 0);
      NodesMirror(c, s, |s| - 1);
      if p == |s| {
        VerdictOfClean(nodes);
      } else {
        NodesMirror(c, s, p);
        VerdictOfFault(nodes, p);
        assert Blames(c, s, p, ChainError(s[p].chain_index, Fault(nodes, p).value));
      }
    }
  }

  /** The verdict is the one, and the only one, that reports on the events: it is clean exactly when all
      events are sound, and otherwise names the index of the first unsound event and its reason. */
  lemma VerificationExact(c: Verifier, s: seq<AuditEvent>, v: ChainVerification)
    ensures v == Verification(c, s) <==> Reports(c, s, v)
  {
    hide Verification, Explains, Sound;
    VerificationReports(c, s);
    var w := Verification(c, s);
    if Reports(c, s, v) {
      if v.ok && !w.ok {
        var i: nat :| Blames(c, s, i, w.first_error.value);
        ReasonUnique(c, Before(s, i), s[i], w.first_error.value.reason, w.first_error.value.reason);
      } else if !v.ok && w.ok {
        var i: nat :| Blames(c, s, i, v.first_error.value);
        ReasonUnique(c, Before(s, i), s[i], v.first_error.value.reason, v.first_error.value.reason);
      } else if !v.ok {
        var i: nat, j: nat :| Blames(c, s, i, v.first_error.value) && Blames(c, s, j, w.first_error.value);
        BlameUnique(c, s, i, v.first_error.value, j, w.first_error.value);
      }
    }
  }

  /** At the first unsound position the reported reason is exactly the test that the event fails first. */
  lemma ReasonExact(c: Verifier, s: seq<AuditEvent>, i: nat, reason: Reason)
    requires i < |s| && !Sound(c, Before(s, i), s[i])
    requires forall j :: 0 <= j < i ==> Sound(c, Before(s, j), s[j])
    ensures Verification(c, s).first_error == Some(ChainError(s[i].chain_index, reason)) <==>
            Explains(c, Before(s, i), s[i], reason)
  {
    hide Verification, Explains, Sound;
    VerificationReports(c, s);
    var error := Verification(c, s).first_error.value;
    var k: nat :| Blames(c, s, k, error);
    ReasonUnique(c, Before(s, k), s[k], error.reason, reason);
    assert k == i;
  }

  // ---------------------------------------------------------------- the verifier

  method CheckSignature(c: Verifier, e: AuditEvent, canon: Bytes) returns (fault: Option<Reason>)
    requires canon == c.canonical(e)
    ensures fault == SignatureFault(c, e)
    ensures fault == Some(MalformedPubkey) <==> BadKeyText(c, e)
    ensures fault == Some(MalformedSignature) <==> !BadKeyText(c, e) && BadSignatureText(c, e)
    ensures fault == Some(BadSignature) <==> !BadKeyText(c, e) && !BadSignatureText(c, e) && Refused(c, e)
    ensures fault.Some? ==> fault.value in {MalformedPubkey, MalformedSignature, BadSignature}
  {
    var key := c.p.base64Decode(e.signer_pubkey_b64);
    if key.None? || |key.value| != 32 || !c.p.ed25519Key(key.value) {
      return Some(MalformedPubkey);
    }
    var sig := c.p.base64Decode(e.signature_b64);
    if sig.None? || |sig.value| != 64 {
      return Some(MalformedSignature);
    }
    if !c.p.ed25519Verify(key.value, canon, sig.value) {
      return Some(BadSignature);
    }
    return None;
  }

  function OptionalNode(c: Verifier, e: Option<AuditEvent>): Option<Node> {
    match e case None => None case Some(p) => Some(NodeOf(c, p))
  }

  method CheckLink(c: Verifier, prev: Option<AuditEvent>, e: AuditEvent) returns (fault: Option<Reason>)
    ensures fault == LinkFault(OptionalNode(c, prev), NodeOf(c, e))
    ensures fault == Some(NonSequentialIndex) <==> OutOfSequence(prev, e)
    ensures fault == Some(BrokenLink) <==> !OutOfSequence(prev, e) && Unlinked(c, prev, e)
    ensures fault.Some? ==> fault.value in {NonSequentialIndex, BrokenLink}
  {
    match prev {
      case None =>
        if e.chain_index == 0 && e.prev_hash_hex != GENESIS_PREV_HASH {
          return Some(BrokenLink);
        }
      case Some(p) =>
        if p.chain_index == U64_MAX || p.chain_index + 1 != e.chain_index {
          return Some(NonSequentialIndex);
        }
        if e.prev_hash_hex != Hex(c.p.sha256(c.canonical(p))) {
          return Some(BrokenLink);
        }
    }
    return None;
  }

  lemma FaultAt(c: Verifier, s: seq<AuditEvent>, i: nat)
    requires i < |s|
    ensures Fault(Skeleton(c, s), i) ==
            if SignatureFault(c, s[i]).Some? then SignatureFault(c, s[i])
            else LinkFault(OptionalNode(c, if i == 0 then None else Some(s[i - 1])), NodeOf(c, s[i]))
  {
  }

  /** One pass over the events, stopping at the first fault. */
  method VerifyChain(c: Verifier, events: seq<AuditEvent>) returns (result: ChainVerification)
    ensures result == Verification(c, events)
    ensures Reports(c, events, result)
  {
    VerificationReports(c, events);
    hide Reports, BadKeyText, BadSignatureText, Refused, OutOfSequence, Unlinked;
    hide Verdict;
    hide CleanUpTo;
    hide Fault;
    hide LinkFault;
    hide SignatureFault;
    CleanStart(Skeleton(c, events));
    result := ChainVerification(
      true, |events|,
      if events == [] then None else Some(events[0].chain_index),
      if events == [] then None else Some(events[|events| - 1].chain_index),
      None, None);
    if events == [] {
      return;
    }
    var prev: Option<AuditEvent> := None;
    for pos := 0 to |events|
      invariant CleanUpTo(Skeleton(c, events), pos)
      invariant prev == if pos == 0 then None else Some(events[pos - 1])
      invariant result == ChainVerification(
                  true, |events|, Some(events[0].chain_index), Some(events[|events| - 1].chain_index),
                  if pos < |events| then None else Some(LinkHash(c, events[|events| - 1])), None)
    {
      var e := events[pos];
      var canon := c.canonical(e);
      var fault := CheckSignature(c, e, canon);
      if fault.None? {
        fault := CheckLink(c, prev, e);
      }
      FaultAt(c, events, pos);
      if fault.Some? {
        VerdictOfFault(Skeleton(c, events), pos);
        return result.(ok := false, first_error := Some(ChainError(e.chain_index, fault.value)));
      }
      if pos == |events| - 1 {
        result := result.(root_hex := Some(Hex(c.p.sha256(canon))));
      }
      prev := Some(e);
      CleanStep(Skeleton(c, events), pos);
    }
    VerdictOfClean(Skeleton(c, events));
  }

  // ---------------------------------------------------------------- valid chains

  predicate Follows(c: Verifier, p: AuditEvent, e: AuditEvent)
  {
    e.chain_index == p.chain_index + 1 && e.prev_hash_hex == LinkHash(c, p)
  }

  /** Every event is authentic, every event follows the one before it, and an event of index 0 at
      the front carries the genesis link. */
  ghost predicate ValidChain(c: Verifier, s: seq<AuditEvent>)
  {
    && (forall i :: 0 <= i < |s| ==> Authentic(c, s[i]))
    && (forall i, j :: 0 <= i < j < |s| && j == i + 1 ==> Follows(c, s[i], s[j]))
    && (s != [] && s[0].chain_index == 0 ==> s[0].prev_hash_hex == GENESIS_PREV_HASH)
  }

  lemma NodeMeans(c: Verifier, p: AuditEvent, e: AuditEvent)
    ensures NodeOf(c, e).signatureFault.None? <==> Authentic(c, e)
    ensures Linked(NodeOf(c, p), NodeOf(c, e)) <==> Follows(c, p, e)
    ensures Rooted(NodeOf(c, e)) <==> (e.chain_index == 0 ==> e.prev_hash_hex == GENESIS_PREV_HASH)
  {
  }

  /** A clean verdict is given exactly to valid chains. */
  lemma VerifiedIffValid(c: Verifier, s: seq<AuditEvent>)
    ensures Verification(c, s).ok <==> ValidChain(c, s)
  {
    var nodes := Skeleton(c, s);
    CleanIffValid(nodes);
    forall i | 0 <= i < |s| ensures nodes[i].signatureFault.None? <==> Authentic(c, s[i]) {
      NodeMeans(c, s[i], s[i]);
    }
    forall i, j | 0 <= i < j < |s| && j == i + 1
      ensures Linked(nodes[i], nodes[j]) <==> Follows(c, s[i], s[j])
    {
      NodeMeans(c, s[i], s[j]);
    }
    if s != [] {
      NodeMeans(c, s[0], s[0]);
    }
  }

  lemma SkeletonConcat(c: Verifier, a: seq<AuditEvent>, b: seq<AuditEvent>)
    ensures Skeleton(c, a + b) == Skeleton(c, a) + Skeleton(c, b)
  {
  }

  /** Joining two exports verifies exactly when both verify and the junction links. */
  lemma JoinVerifies(c: Verifier, a: seq<AuditEvent>, b: seq<AuditEvent>)
    requires a != [] && b != []
    ensures Verification(c, a + b).ok <==>
            Verification(c, a).ok && Verification(c, b).ok && Follows(c, a[|a| - 1], b[0])
  {
    var x, y := Skeleton(c, a), Skeleton(c, b);
    SkeletonConcat(c, a, b);
    CleanIffValid(x + y);
    CleanIffValid(x);
    CleanIffValid(y);
    JoinIff(x, y);
    NodeMeans(c, a[|a| - 1], b[0]);
  }

  /** Of all the ways to pick, repeat, drop and reorder events of a verified chain, exactly the
      contiguous runs verify. */
  lemma OnlyContiguousRunsVerify(c: Verifier, s: seq<AuditEvent>, at: seq<nat>)
    requires Verification(c, s).ok
    requires forall i :: 0 <= i < |at| ==> at[i] < |s|
    ensures Verification(c, Draw(s, at)).ok <==> ConsecutiveAscending(at)
  {
    var nodes := Skeleton(c, s);
    assert Skeleton(c, Draw(s, at)) == Draw(nodes, at);
    CleanIffValid(nodes);
    CleanIffValid(Draw(nodes, at));
    DrawIff(nodes, at);
  }

  /** Cutting a non-empty block out of the middle is reported as a sequence gap at the first event
      after the cut. */
  lemma CutIsReported(c: Verifier, s: seq<AuditEvent>, lo: nat, hi: nat)
    requires Verification(c, s).ok && 0 < lo < hi < |s|
    ensures Verification(c, s[..lo] + s[hi..]).first_error
         == Some(ChainError(s[hi].chain_index, NonSequentialIndex))
  {
    var nodes := Skeleton(c, s);
    assert Skeleton(c, s[..lo] + s[hi..]) == nodes[..lo] + nodes[hi..];
    CleanIffValid(nodes);
    CutFault(nodes, lo, hi);
  }

  // ---------------------------------------------------------------- the root pins the history

  /** Two events, one of each list, whose canonical bytes collide under SHA-256. */
  ghost predicate CollisionBetween(c: Verifier, a: seq<AuditEvent>, b: seq<AuditEvent>)
  {
    exists i, j :: 0 <= i < |a| && 0 <= j < |b| &&
      Collides(c.p.sha256, c.canonical(a[i]), c.canonical(b[j]))
  }

  lemma LinkHashPins(c: Verifier, d: AuditEvent, e: AuditEvent)
    requires LinkHash(c, d) == LinkHash(c, e)
    ensures SameSigned(d, e) || Collides(c.p.sha256, c.canonical(d), c.canonical(e))
  {
    HexInjective(c.p.sha256(c.canonical(d)), c.p.sha256(c.canonical(e)));
  }

  /** Events of the two lists that have the same hash are the same event. */
  ghost predicate HashesPin(a: seq<AuditEvent>, b: seq<AuditEvent>, x: seq<Node>, y: seq<Node>)
    requires |x| == |a| && |y| == |b|
  {
    forall i, j :: 0 <= i < |a| && 0 <= j < |b| && x[i].hash == y[j].hash ==> SameSigned(a[i], b[j])
  }

  lemma NoCollisionPins(c: Verifier, a: seq<AuditEvent>, b: seq<AuditEvent>)
    requires !CollisionBetween(c, a, b)
    ensures HashesPin(a, b, Skeleton(c, a), Skeleton(c, b))
  {
    forall i, j | 0 <= i < |a| && 0 <= j < |b| && Skeleton(c, a)[i].hash == Skeleton(c, b)[j].hash
      ensures SameSigned(a[i], b[j])
    {
      LinkHashPins(c, a[i], b[j]);
    }
  }

  /** The last `n` events agree in everything but their signatures. */
  ghost predicate SameTail(a: seq<AuditEvent>, b: seq<AuditEvent>, n: nat)
  {
    forall i, j :: 0 <= i < |a| && 0 <= j < |b| && |a| - i == |b| - j <= n ==> SameSigned(a[i], b[j])
  }

  ghost predicate CarriesLinks(a: seq<AuditEvent>, x: seq<Node>)
  {
    |x| == |a| && forall i, j :: 0 <= i < j < |a| && j == i + 1 ==> a[j].prev_hash_hex == x[i].hash
  }

  lemma {:induction false} TailsAgree(a: seq<AuditEvent>, b: seq<AuditEvent>, x: seq<Node>, y: seq<Node>, n: nat)
    requires CarriesLinks(a, x) && CarriesLinks(b, y) && HashesPin(a, b, x, y)
    requires 0 < n <= |a| && n <= |b| && x[|a| - 1].hash == y[|b| - 1].hash
    ensures SameTail(a, b, n)
  {
    if n > 1 {
      TailsAgree(a, b, x, y, n - 1);
      var i, j := |a| - n, |b| - n;
      assert SameSigned(a[i + 1], b[j + 1]);
      assert x[i].hash == y[j].hash;
    }
  }

  lemma RootAndLinks(c: Verifier, s: seq<AuditEvent>)
    requires Verification(c, s).ok && s != []
    ensures CarriesLinks(s, Skeleton(c, s))
    ensures Verification(c, s).root_hex == Some(Skeleton(c, s)[|s| - 1].hash)
  {
    var nodes := Skeleton(c, s);
    CleanIffValid(nodes);
    forall i, j | 0 <= i < j < |s| && j == i + 1 ensures s[j].prev_hash_hex == nodes[i].hash {
      assert Linked(nodes[i], nodes[j]);
    }
  }

  /** Two verified exports with one root share their whole common history: the shorter is a suffix
      of the longer, or the two lists contain a SHA-256 collision. */
  lemma RootPinsHistory(c: Verifier, a: seq<AuditEvent>, b: seq<AuditEvent>)
    requires Verification(c, a).ok && Verification(c, b).ok && a != [] && b != []
    requires Verification(c, a).root_hex == Verification(c, b).root_hex
    ensures SameTail(a, b, Min(|a|, |b|)) || CollisionBetween(c, a, b)
  {
    if !CollisionBetween(c, a, b) {
      NoCollisionPins(c, a, b);
      RootAndLinks(c, a);
      RootAndLinks(c, b);
      TailsAgree(a, b, Skeleton(c, a), Skeleton(c, b), Min(|a|, |b|));
    }
  }

  /** Same events, position by position, up to signatures. */
  predicate SameEvents(a: seq<AuditEvent>, b: seq<AuditEvent>)
  {
    |a| == |b| && forall i :: 0 <= i < |a| ==> SameSigned(a[i], b[i])
  }

  lemma LastIndex(c: Verifier, s: seq<AuditEvent>)
    requires Verification(c, s).ok && s != []
    ensures s[|s| - 1].chain_index == s[0].chain_index + |s| - 1
  {
    CleanIffValid(Skeleton(c, s));
    IndexOffset(Skeleton(c, s), |s| - 1);
  }

  /** Equal roots and equal first indices mean equal logs; in particular two full logs (both from
      index 0) with one root are the same log. */
  lemma RootAndStartPinLog(c: Verifier, a: seq<AuditEvent>, b: seq<AuditEvent>)
    requires Verification(c, a).ok && Verification(c, b).ok && a != [] && b != []
    requires Verification(c, a).root_hex == Verification(c, b).root_hex
    requires a[0].chain_index == b[0].chain_index
    ensures SameEvents(a, b) || CollisionBetween(c, a, b)
  {
    RootPinsHistory(c, a, b);
    LastIndex(c, a);
    LastIndex(c, b);
    assert CollisionBetween(c, a, b) || SameSigned(a[|a| - 1], b[|b| - 1]);
  }

  /** Dropping events from the end always changes the root. */
  lemma TruncationChangesRoot(c: Verifier, s: seq<AuditEvent>, k: nat)
    requires Verification(c, s).ok && 0 < k < |s|
    ensures Verification(c, s[..k]).ok
    ensures Verification(c, s[..k]).root_hex != Verification(c, s).root_hex || CollisionBetween(c, s[..k], s)
  {
    assert s[..k] + s[k..] == s;
    JoinVerifies(c, s[..k], s[k..]);
    if Verification(c, s[..k]).root_hex == Verification(c, s).root_hex {
      RootAndStartPinLog(c, s[..k], s);
    }
  }

  /** `RootPinsHistory` for the log's own canonical form: any disagreement on the common suffix comes with
      two JSON texts that collide. */
  lemma JsonRootPinsHistory(p: Primitives, a: seq<AuditEvent>, b: seq<AuditEvent>)
    requires Verification(JsonVerifier(p), a).ok && Verification(JsonVerifier(p), b).ok && a != [] && b != []
    requires Verification(JsonVerifier(p), a).root_hex == Verification(JsonVerifier(p), b).root_hex
    ensures || SameTail(a, b, Min(|a|, |b|))
            || exists i, j :: 0 <= i < |a| && 0 <= j < |b| &&
                 Collides(p.sha256, CanonicalBytes(a[i]), CanonicalBytes(b[j]))
  {
    hide CanonicalBytes;
    hide Verification;
    RootPinsHistory(JsonVerifier(p), a, b);
    if CollisionBetween(JsonVerifier(p), a, b) {
      var i, j :| 0 <= i < |a| && 0 <= j < |b| &&
                  Collides(p.sha256, JsonVerifier(p).canonical(a[i]), JsonVerifier(p).canonical(b[j]));
      assert Collides(p.sha256, CanonicalBytes(a[i]), CanonicalBytes(b[j]));
    }
  }
}
