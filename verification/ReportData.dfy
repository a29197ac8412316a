/** The canonical report data that every attestation proof covers. */
module ReportData {
  import opened Prelude
  import opened Json
  import opened SortedObject
  import AuditEvents

  datatype ProviderType = Software | SevSnp

  /** What an evidence states about a workspace. */
  datatype Statement = Statement(
    provider_type: ProviderType,
    workspace_id: Bytes,
    measurement: Bytes,
    nonce: Bytes,
    issued_at: i64
  )

  const ATTESTATION_TAG: Bytes := Ascii("ne-enclave-attestation-v1")

  const PROVIDER_TYPE: Bytes := Ascii("provider_type")
  const MEASUREMENT: Bytes := Ascii("measurement")
  const NONCE: Bytes := Ascii("nonce")
  const ISSUED_AT: Bytes := Ascii("issued_at")

  function ProviderName(t: ProviderType): Bytes {
    match t case Software => Ascii("software") case SevSnp => Ascii("sev_snp")
  }

  function StatementFields(s: Statement): seq<Member> {
    [Member(AuditEvents.CTX, String(ATTESTATION_TAG)),
     Member(PROVIDER_TYPE, String(ProviderName(s.provider_type))),
     Member(AuditEvents.WORKSPACE_ID, String(s.workspace_id)),
     Member(MEASUREMENT, String(Hex(s.measurement))),
     Member(NONCE, String(Hex(s.nonce))),
     Member(ISSUED_AT, Number(s.issued_at))]
  }

  /** The statement as a JSON object with sorted keys. */
  function CanonicalReportData(s: Statement): Bytes { Print(Object(Build(StatementFields(s)))) }

  lemma KeysDistinct(s: Statement)
    ensures DistinctKeys(StatementFields(s))
  {
    var f := StatementFields(s);
    assert |f[0].key| == 3 && |f[1].key| == 13 && |f[2].key| == 12;
    assert |f[3].key| == 11 && |f[4].key| == 5 && |f[5].key| == 9;
  }

  lemma SameViewSameValues(f: seq<Member>, g: seq<Member>, v: map<Bytes, Value>)
    requires |f| == |g| && forall i :: 0 <= i < |f| ==> f[i].key == g[i].key
    requires Holds(f, v) && Holds(g, v)
    ensures forall i :: 0 <= i < |f| ==> f[i].value == g[i].value
  {
  }

  lemma SameKeys(a: Statement, b: Statement)
    ensures forall i :: 0 <= i < 6 ==> StatementFields(a)[i].key == StatementFields(b)[i].key
  {
  }

  lemma FieldsDetermineStatement(a: Statement, b: Statement)
    requires forall i :: 0 <= i < 6 ==> StatementFields(a)[i].value == StatementFields(b)[i].value
    ensures a == b
  {
    var x, y := StatementFields(a), StatementFields(b);
    assert x[1].value == y[1].value && x[2].value == y[2].value && x[3].value == y[3].value;
    assert x[4].value == y[4].value && x[5].value == y[5].value;
    HexInjective(a.measurement, b.measurement);
    HexInjective(a.nonce, b.nonce);
    assert |Ascii("software")| == 8 && |Ascii("sev_snp")| == 7;
  }

  /** Equal report data means an equal statement: provider, workspace, measurement, nonce and time. */
  lemma ReportDataInjective(a: Statement, b: Statement)
    requires CanonicalReportData(a) == CanonicalReportData(b)
    ensures a == b
  {
    PrintInjective(Object(Build(StatementFields(a))), Object(Build(StatementFields(b))));
    KeysDistinct(a);
    KeysDistinct(b);
    BuildView(StatementFields(a));
    BuildView(StatementFields(b));
    SameKeys(a, b);
    SameViewSameValues(StatementFields(a), StatementFields(b), View(Build(StatementFields(a))));
    FieldsDetermineStatement(a, b);
  }

  lemma StatementListAscends(list: seq<Member>)
    requires |list| == 6
    requires list[0].key == Ascii("ctx") && list[1].key == Ascii("issued_at") && list[2].key == Ascii("measurement")
    requires list[3].key == Ascii("nonce") && list[4].key == Ascii("provider_type")
    requires list[5].key == Ascii("workspace_id")
    ensures Ascending(list)
  {
    hide Less;
    LessAt(list[0].key, list[1].key, 0);
    LessAt(list[1].key, list[2].key, 0);
    LessAt(list[2].key, list[3].key, 0);
    LessAt(list[3].key, list[4].key, 0);
    LessAt(list[4].key, list[5].key, 0);
  }

  lemma ReorderHolds(f: seq<Member>, list: seq<Member>, v: map<Bytes, Value>)
    requires |f| == 6 && Holds(f, v) && list == [f[0], f[5], f[3], f[4], f[1], f[2]]
    ensures Holds(list, v)
  {
    forall k | k in v ensures exists i :: 0 <= i < |list| && list[i].key == k {
      var j :| 0 <= j < |f| && f[j].key == k;
      assert list[[0, 4, 5, 2, 3, 1][j]] == f[j];
    }
    forall i | 0 <= i < |list| ensures list[i].key in v && v[list[i].key] == list[i].value {
      assert list[i] == f[[0, 5, 3, 4, 1, 2][i]];
    }
  }

  /** The exact bytes: each value under its own name, names in byte order. */
  lemma ReportDataExact(s: Statement)
    ensures CanonicalReportData(s) == Print(Object(
              [Member(Ascii("ctx"), String(Ascii("ne-enclave-attestation-v1"))),
               Member(Ascii("issued_at"), Number(s.issued_at)),
               Member(Ascii("measurement"), String(Hex(s.measurement))),
               Member(Ascii("nonce"), String(Hex(s.nonce))),
               Member(Ascii("provider_type"),
                      String(if s.provider_type.Software? then Ascii("software") else Ascii("sev_snp"))),
               Member(Ascii("workspace_id"), String(s.workspace_id))]))
  {
    hide Print, Hex, Build, View, Sorted, Ascending, Holds, DistinctKeys, Ascii;
    var f := StatementFields(s);
    var list := [f[0], f[5], f[3], f[4], f[1], f[2]];
    KeysDistinct(s);
    BuildView(f);
    StatementListAscends(list);
    ReorderHolds(f, list, View(Build(f)));
    SortedIs(Build(f), list);
  }

  /** Signatures of the two kinds cannot be exchanged: no report data is the canonical form of an
      audit event. */
  lemma NeverAnAuditEvent(s: Statement, e: AuditEvents.AuditEvent)
    ensures CanonicalReportData(s) != AuditEvents.CanonicalBytes(e)
  {
    AuditEvents.CanonicalView(e);
    KeysDistinct(s);
    BuildView(StatementFields(s));
    TagOf(StatementFields(s), View(Build(StatementFields(s))));
    assert |ATTESTATION_TAG| == 25 && |AuditEvents.AUDIT_TAG| == 19;
    if CanonicalReportData(s) == AuditEvents.CanonicalBytes(e) {
      PrintInjective(Object(Build(StatementFields(s))), Object(AuditEvents.CanonicalMembers(e)));
    }
  }

  lemma TagOf(f: seq<Member>, v: map<Bytes, Value>)
    requires f != [] && Holds(f, v)
    ensures f[0].key in v && v[f[0].key] == f[0].value
  {
  }

  lemma ReportDataNotEmpty(s: Statement)
    ensures CanonicalReportData(s) != []
  {
  }

  /** The two facts the attestation protocol relies on. */
  ghost predicate Faithful(f: Statement -> Bytes) {
    (forall a, b :: f(a) == f(b) ==> a == b) && (forall a :: f(a) != [])
  }

  lemma ReportDataIsFaithful()
    ensures Faithful(CanonicalReportData)
  {
    forall a, b | CanonicalReportData(a) == CanonicalReportData(b) ensures a == b {
      ReportDataInjective(a, b);
    }
    forall a ensures CanonicalReportData(a) != [] {
      ReportDataNotEmpty(a);
    }
  }

  /** The encodings evidence can be built over.  `CanonicalReportData` is one of them. */
  type ReportForm = f: Statement -> Bytes | Faithful(f)
    ghost witness (ReportDataIsFaithful(); CanonicalReportData)
}
