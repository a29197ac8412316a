/** Audit events and the canonical bytes that are signed and chained. */
module AuditEvents {
  import opened Prelude
  import opened Json
  import opened SortedObject

  /** One event of the audit log.  The event type is given by its wire name. */
  datatype AuditEvent = AuditEvent(
    event_id: Bytes,
    timestamp_ms: u64,
    event_type: Bytes,
    workspace_id: Option<Bytes>,
    payload: Value,
    chain_index: u64,
    prev_hash_hex: Bytes,
    signature_b64: Bytes,
    signer_pubkey_b64: Bytes
  )

  /** Equality in every field except the signature. */
  predicate SameSigned(a: AuditEvent, b: AuditEvent) { a == b.(signature_b64 := a.signature_b64) }

  const AUDIT_TAG: Bytes := Ascii("ne-enclave-audit-v1")

  const CTX: Bytes := Ascii("ctx")
  const PAYLOAD: Bytes := Ascii("payload")
  const EVENT_ID: Bytes := Ascii("event_id")
  const EVENT_TYPE: Bytes := Ascii("event_type")
  const CHAIN_INDEX: Bytes := Ascii("chain_index")
  const TIMESTAMP_MS: Bytes := Ascii("timestamp_ms")
  const WORKSPACE_ID: Bytes := Ascii("workspace_id")
  const PREV_HASH_HEX: Bytes := Ascii("prev_hash_hex")
  const SIGNATURE_B64: Bytes := Ascii("signature_b64")
  const SIGNER_PUBKEY_B64: Bytes := Ascii("signer_pubkey_b64")

  function OptionalString(s: Option<Bytes>): Value {
    match s case None => Null case Some(t) => String(t)
  }

  /** The event's fields, in declaration order. */
  function EventFields(e: AuditEvent): seq<Member> {
    [Member(EVENT_ID, String(e.event_id)),
     Member(TIMESTAMP_MS, Number(e.timestamp_ms)),
     Member(EVENT_TYPE, String(e.event_type)),
     Member(WORKSPACE_ID, OptionalString(e.workspace_id)),
     Member(PAYLOAD, e.payload),
     Member(CHAIN_INDEX, Number(e.chain_index)),
     Member(PREV_HASH_HEX, String(e.prev_hash_hex)),
     Member(SIGNATURE_B64, String(e.signature_b64)),
     Member(SIGNER_PUBKEY_B64, String(e.signer_pubkey_b64))]
  }

  /** The event's object with the signature stripped and the domain tag added. */
  function CanonicalMembers(e: AuditEvent): seq<Member> {
    Insert(Remove(Build(EventFields(e)), SIGNATURE_B64), CTX, String(AUDIT_TAG))
  }

  /** The bytes an event is signed and chained over. */
  function CanonicalBytes(e: AuditEvent): Bytes {
    Print(Object(CanonicalMembers(e)))
  }

  lemma KeysDistinct(e: AuditEvent)
    ensures DistinctKeys(EventFields(e))
    ensures forall i :: 0 <= i < 9 ==> EventFields(e)[i].key != CTX
    ensures forall i :: 0 <= i < 9 && i != 7 ==> EventFields(e)[i].key != SIGNATURE_B64
  {
    assert TIMESTAMP_MS[0] == 't' as int && WORKSPACE_ID[0] == 'w' as int;
    assert PREV_HASH_HEX[0] == 'p' as int && SIGNATURE_B64[0] == 's' as int;
  }

  /** The tag and all fields but the signature. */
  predicate HoldsSigned(f: seq<Member>, v: map<Bytes, Value>)
    requires |f| == 9
  {
    && CTX in v && v[CTX] == String(AUDIT_TAG)
    && (forall i :: 0 <= i < 9 && i != 7 ==> f[i].key in v && v[f[i].key] == f[i].value)
    && (forall k :: k in v ==> k == CTX || exists i :: 0 <= i < 9 && i != 7 && f[i].key == k)
  }

  lemma StripAndTag(f: seq<Member>, v: map<Bytes, Value>)
    requires |f| == 9 && DistinctKeys(f) && Holds(f, v) && forall i :: 0 <= i < 9 ==> f[i].key != CTX
    ensures HoldsSigned(f, (v - {f[7].key})[CTX := String(AUDIT_TAG)])
  {
  }

  /** The canonical object is sorted, carries the tag and every field, and omits the signature. */
  lemma CanonicalView(e: AuditEvent)
    ensures Sorted(CanonicalMembers(e)) && HoldsSigned(EventFields(e), View(CanonicalMembers(e)))
    ensures SIGNATURE_B64 !in View(CanonicalMembers(e))
  {
    KeysDistinct(e);
    CanonicalViewOf(EventFields(e));
  }

  lemma CanonicalViewOf(f: seq<Member>)
    requires |f| == 9 && DistinctKeys(f) && forall i :: 0 <= i < 9 ==> f[i].key != CTX
    ensures var ms := Insert(Remove(Build(f), f[7].key), CTX, String(AUDIT_TAG));
            Sorted(ms) && HoldsSigned(f, View(ms)) && f[7].key !in View(ms)
  {
    BuildView(f);
    RemoveSorted(Build(f), f[7].key);
    RemoveView(Build(f), f[7].key);
    InsertSorted(Remove(Build(f), f[7].key), CTX, String(AUDIT_TAG));
    InsertView(Remove(Build(f), f[7].key), CTX, String(AUDIT_TAG));
    StripAndTag(f, View(Build(f)));
  }

  /** The canonical members written out: each value under its own name, the tag under `ctx`, names in byte
      order, no signature. */
  function CanonicalList(e: AuditEvent): seq<Member> {
    [Member(Ascii("chain_index"), Number(e.chain_index)),
     Member(Ascii("ctx"), String(Ascii("ne-enclave-audit-v1"))),
     Member(Ascii("event_id"), String(e.event_id)),
     Member(Ascii("event_type"), String(e.event_type)),
     Member(Ascii("payload"), e.payload),
     Member(Ascii("prev_hash_hex"), String(e.prev_hash_hex)),
     Member(Ascii("signer_pubkey_b64"), String(e.signer_pubkey_b64)),
     Member(Ascii("timestamp_ms"), Number(e.timestamp_ms)),
     Member(Ascii("workspace_id"), if e.workspace_id.Some? then String(e.workspace_id.value) else Null)]
  }

  lemma NamesAscend()
    ensures Less(Ascii("chain_index"), Ascii("ctx")) && Less(Ascii("ctx"), Ascii("event_id"))
    ensures Less(Ascii("event_id"), Ascii("event_type")) && Less(Ascii("event_type"), Ascii("payload"))
    ensures Less(Ascii("payload"), Ascii("prev_hash_hex"))
    ensures Less(Ascii("prev_hash_hex"), Ascii("signer_pubkey_b64"))
    ensures Less(Ascii("signer_pubkey_b64"), Ascii("timestamp_ms"))
    ensures Less(Ascii("timestamp_ms"), Ascii("workspace_id"))
  {
    hide Less;
    LessAt(Ascii("chain_index"), Ascii("ctx"), 1);
    LessAt(Ascii("ctx"), Ascii("event_id"), 0);
    LessAt(Ascii("event_id"), Ascii("event_type"), 6);
    LessAt(Ascii("event_type"), Ascii("payload"), 0);
    LessAt(Ascii("payload"), Ascii("prev_hash_hex"), 1);
    LessAt(Ascii("prev_hash_hex"), Ascii("signer_pubkey_b64"), 0);
    LessAt(Ascii("signer_pubkey_b64"), Ascii("timestamp_ms"), 0);
    LessAt(Ascii("timestamp_ms"), Ascii("workspace_id"), 0);
  }

  lemma CanonicalListAscends(e: AuditEvent)
    ensures Ascending(CanonicalList(e))
  {
    hide Less, Ascii;
    NamesAscend();
  }

  lemma ReorderHolds(f: seq<Member>, list: seq<Member>, v: map<Bytes, Value>)
    requires |f| == 9 && HoldsSigned(f, v)
    requires list == [f[5], Member(CTX, String(AUDIT_TAG)), f[0], f[2], f[4], f[6], f[8], f[1], f[3]]
    ensures Holds(list, v)
  {
    hide Ascii;
    assert list[0] == f[5] && list[2] == f[0] && list[3] == f[2] && list[4] == f[4] && list[5] == f[6];
    assert list[6] == f[8] && list[7] == f[1] && list[8] == f[3];
    forall k | k in v ensures exists i :: 0 <= i < |list| && list[i].key == k {
      assert k == CTX ==> list[1].key == k;
    }
  }

  lemma CanonicalListIs(e: AuditEvent)
    ensures var f := EventFields(e);
            CanonicalList(e) == [f[5], Member(CTX, String(AUDIT_TAG)), f[0], f[2], f[4], f[6], f[8], f[1], f[3]]
  {
    hide Ascii;
  }

  lemma CanonicalMembersAre(e: AuditEvent)
    ensures CanonicalMembers(e) == CanonicalList(e)
  {
    hide CanonicalMembers, View, Sorted, Ascending, Holds, HoldsSigned, Ascii;
    CanonicalView(e);
    CanonicalListAscends(e);
    CanonicalListIs(e);
    ReorderHolds(EventFields(e), CanonicalList(e), View(CanonicalMembers(e)));
    SortedIs(CanonicalMembers(e), CanonicalList(e));
  }

  /** The exact bytes that are signed and chained. */
  lemma CanonicalExact(e: AuditEvent)
    ensures CanonicalBytes(e) == Print(Object(
              [Member(Ascii("chain_index"), Number(e.chain_index)),
               Member(Ascii("ctx"), String(Ascii("ne-enclave-audit-v1"))),
               Member(Ascii("event_id"), String(e.event_id)),
               Member(Ascii("event_type"), String(e.event_type)),
               Member(Ascii("payload"), e.payload),
               Member(Ascii("prev_hash_hex"), String(e.prev_hash_hex)),
               Member(Ascii("signer_pubkey_b64"), String(e.signer_pubkey_b64)),
               Member(Ascii("timestamp_ms"), Number(e.timestamp_ms)),
               Member(Ascii("workspace_id"), if e.workspace_id.Some? then String(e.workspace_id.value) else Null)]))
  {
    hide Print, Ascii, CanonicalMembers;
    CanonicalMembersAre(e);
  }

  /** The canonical object as an association: these nine names and no others, each with its own value. */
  lemma CanonicalAssociation(e: AuditEvent)
    ensures View(CanonicalMembers(e)) == map[
              Ascii("workspace_id") := if e.workspace_id.Some? then String(e.workspace_id.value) else Null,
              Ascii("timestamp_ms") := Number(e.timestamp_ms),
              Ascii("signer_pubkey_b64") := String(e.signer_pubkey_b64),
              Ascii("prev_hash_hex") := String(e.prev_hash_hex),
              Ascii("payload") := e.payload,
              Ascii("event_type") := String(e.event_type),
              Ascii("event_id") := String(e.event_id),
              Ascii("ctx") := String(Ascii("ne-enclave-audit-v1")),
              Ascii("chain_index") := Number(e.chain_index)]
  {
    hide CanonicalMembers, Ascii;
    CanonicalMembersAre(e);
    var list := CanonicalList(e);
    assert list[0..] == list && View(list[9..]) == map[];
    hide View;
    ViewFrom(list, 0);
    ViewFrom(list, 1);
    ViewFrom(list, 2);
    ViewFrom(list, 3);
    ViewFrom(list, 4);
    ViewFrom(list, 5);
    ViewFrom(list, 6);
    ViewFrom(list, 7);
    ViewFrom(list, 8);
  }

  lemma FieldsDetermineEvent(a: AuditEvent, b: AuditEvent)
    requires forall i :: 0 <= i < 9 && i != 7 ==> EventFields(a)[i].value == EventFields(b)[i].value
    ensures SameSigned(a, b)
  {
    var x, y := EventFields(a), EventFields(b);
    assert x[0].value == y[0].value && x[1].value == y[1].value && x[2].value == y[2].value;
    assert x[3].value == y[3].value && x[4].value == y[4].value && x[5].value == y[5].value;
    assert x[6].value == y[6].value && x[8].value == y[8].value;
  }

  lemma SameSignedValues(f: seq<Member>, g: seq<Member>, v: map<Bytes, Value>)
    requires |f| == |g| == 9 && forall i :: 0 <= i < 9 ==> f[i].key == g[i].key
    requires HoldsSigned(f, v) && HoldsSigned(g, v)
    ensures forall i :: 0 <= i < 9 && i != 7 ==> f[i].value == g[i].value
  {
  }

  lemma SameKeys(a: AuditEvent, b: AuditEvent)
    ensures forall i :: 0 <= i < 9 ==> EventFields(a)[i].key == EventFields(b)[i].key
  {
  }

  lemma MembersDetermineEvent(a: AuditEvent, b: AuditEvent)
    requires CanonicalMembers(a) == CanonicalMembers(b)
    ensures SameSigned(a, b)
  {
    CanonicalView(a);
    CanonicalView(b);
    SameKeys(a, b);
    SameSignedValues(EventFields(a), EventFields(b), View(CanonicalMembers(a)));
    FieldsDetermineEvent(a, b);
  }

  /** Equal canonical bytes mean equal events, up to the signature. */
  lemma CanonicalInjective(a: AuditEvent, b: AuditEvent)
    requires CanonicalBytes(a) == CanonicalBytes(b)
    ensures SameSigned(a, b)
  {
    PrintInjective(Object(CanonicalMembers(a)), Object(CanonicalMembers(b)));
    MembersDetermineEvent(a, b);
  }

  lemma SameSignedSameBytes(a: AuditEvent, b: AuditEvent)
    requires SameSigned(a, b)
    ensures CanonicalBytes(a) == CanonicalBytes(b)
  {
    CanonicalView(a);
    CanonicalView(b);
    SameFieldsSameView(EventFields(a), EventFields(b), View(CanonicalMembers(a)), View(CanonicalMembers(b)));
    SortedUnique(CanonicalMembers(a), CanonicalMembers(b));
  }

  lemma SameFieldsSameView(f: seq<Member>, g: seq<Member>, v: map<Bytes, Value>, w: map<Bytes, Value>)
    requires |f| == |g| == 9 && forall i :: 0 <= i < 9 && i != 7 ==> f[i] == g[i]
    requires HoldsSigned(f, v) && HoldsSigned(g, w)
    ensures v == w
  {
    assert forall k :: k in v ==> k in w && v[k] == w[k];
    assert forall k :: k in w ==> k in v;
  }

  /** Equality of canonical bytes is equality up to the signature, and nothing else. */
  ghost predicate Exact(f: AuditEvent -> Bytes) { forall a, b :: f(a) == f(b) <==> SameSigned(a, b) }

  lemma CanonicalIsExact()
    ensures Exact(CanonicalBytes)
  {
    forall a, b ensures CanonicalBytes(a) == CanonicalBytes(b) <==> SameSigned(a, b) {
      if SameSigned(a, b) {
        SameSignedSameBytes(a, b);
      } else if CanonicalBytes(a) == CanonicalBytes(b) {
        CanonicalInjective(a, b);
      }
    }
  }

  /** The canonical forms a chain can be built over.  `CanonicalBytes` is one of them. */
  type CanonicalForm = f: AuditEvent -> Bytes | Exact(f)
    ghost witness (CanonicalIsExact(); CanonicalBytes)
}
