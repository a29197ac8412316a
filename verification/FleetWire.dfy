/** Wire types of the fleet poll protocol and their validators. */
module FleetWire {
  import opened Prelude

  type Uuid = n: int | 0 <= n < 0x1_0000_0000_0000_0000_0000_0000_0000_0000

  datatype ValidationError =
    | InvalidContractId
    | InvalidContractVersion
    | CapacityOutOfRange
    | InconsistentCapacity
    | InvalidGeneration
    | InvalidSequence
    | TooManyEntries
    | DuplicateAttemptOperation
    | InvalidPayloadDigest
    | InvalidPollDelay
    | InvalidReplayResponse

  const FLEET_PROTOCOL_V1: u16 := 1
  const MAX_RUNNER_WORKSPACES: u32 := 1_000_000
  const MAX_CPU_MILLICORES: u64 := 1_000_000_000
  const MAX_MEMORY_BYTES: u64 := 0x4_0000_0000_0000

  datatype ProtocolRange = ProtocolRange(min_version: u16, max_version: u16)

  datatype ExecutionProfile = Standard | ConfidentialAzure

  datatype Operation =
    | Create | Destroy | Execute | WriteFile | ReadFile | Pause | Resume
    | Snapshot | Restore | Fork | WarmPool | Ingress | Attest

  datatype RunnerCapacity = RunnerCapacity(
    revision: u64,
    configured_workspace_ceiling: u32,
    registered_workspaces: u32,
    resident_workspaces: u32,
    runnable_workspaces: u32,
    allocated_cpu_millicores: u64,
    allocated_memory_bytes: u64,
    warm_pool_reserved_slots: u32,
    profiles: seq<ExecutionProfile>,
    operations: seq<Operation>
  )

  datatype JobContract = JobContract(id: Bytes, version: Bytes)

  datatype Session = Session(session_id: Uuid, generation: u64)

  /** A renewal, release or terminal report, reduced to the attempt it is about. */
  datatype Attempt = Attempt(lease_id: Uuid, attempt_generation: u32)

  datatype PollRequest = PollRequest(
    protocol: ProtocolRange,
    process_instance_id: Uuid,
    session: Option<Session>,
    request_id: Uuid,
    sequence: u64,
    capacity: RunnerCapacity,
    supported_contracts: seq<JobContract>,
    renewals: seq<Attempt>,
    releases: seq<Attempt>,
    terminal_reports: seq<Attempt>
  )

  datatype LeaseHeader = LeaseHeader(
    job_id: Bytes,
    lease_id: Uuid,
    attempt_generation: u32,
    lease_expires_at_unix_ms: i64,
    contract: JobContract,
    payload_digest: Bytes
  )

  datatype ReplayStatus = Fresh | Replayed | ReceiptObsolete | SuspendedAcknowledgement

  datatype PollResponse = PollResponse(
    protocol_version: u16,
    session: Session,
    request_id: Uuid,
    accepted_sequence: u64,
    server_time_unix_ms: i64,
    poll_after_ms: u32,
    replay_status: ReplayStatus,
    leases: seq<LeaseHeader>
  )

  // ---------------------------------------------------------------- grammars

  predicate IsLower(b: byte) { 97 <= b <= 122 }

  predicate IsContractId(s: Bytes) {
    && 1 <= |s| <= 64
    && IsLower(s[0])
    && forall i :: 0 <= i < |s| ==> IsLower(s[i]) || IsDigit(s[i]) || s[i] in {46, 95, 45}
  }

  predicate IsContractVersion(s: Bytes) {
    1 <= |s| <= 32 && forall i :: 0 <= i < |s| ==> 33 <= s[i] <= 126
  }

  function ContractFault(c: JobContract): Option<ValidationError> {
    if !IsContractId(c.id) then Some(InvalidContractId)
    else if !IsContractVersion(c.version) then Some(InvalidContractVersion)
    else None
  }

  // ---------------------------------------------------------------- duplicates

  ghost predicate Distinct<T(!new)>(s: seq<T>) { forall i, j :: 0 <= i < j < |s| ==> s[i] != s[j] }

  function SetOf<T(==)>(s: seq<T>): set<T> { set x | x in s }

  /** Whether some value repeats an earlier one. */
  predicate HasDuplicates<T(==)>(s: seq<T>) {
    s != [] && (s[|s| - 1] in s[..|s| - 1] || HasDuplicates(s[..|s| - 1]))
  }

  lemma {:induction false} HasDuplicatesMeans<T(!new)>(s: seq<T>)
    ensures HasDuplicates(s) <==> !Distinct(s)
  {
    if s != [] {
      var n := |s| - 1;
      HasDuplicatesMeans(s[..n]);
      assert forall i :: 0 <= i < n ==> s[..n][i] == s[i];
      if s[n] in s[..n] {
        var i :| 0 <= i < n && s[..n][i] == s[n];
        assert s[i] == s[n];
      }
    }
  }

  lemma {:induction false} PrefixDuplicates<T(!new)>(s: seq<T>, k: nat)
    requires k <= |s| && HasDuplicates(s[..k])
    ensures HasDuplicates(s)
  {
    HasDuplicatesMeans(s[..k]);
    HasDuplicatesMeans(s);
    var i, j :| 0 <= i < j < k && s[..k][i] == s[..k][j];
    assert s[i] == s[j];
  }

  method FindDuplicates<T(==, !new)>(values: seq<T>) returns (found: bool)
    ensures found <==> HasDuplicates(values)
    ensures found <==> !Distinct(values)
  {
    HasDuplicatesMeans(values);
    var seen: set<T> := {};
    for k := 0 to |values|
      invariant seen == SetOf(values[..k])
      invariant !HasDuplicates(values[..k])
    {
      assert values[..k + 1][..k] == values[..k];
      if values[k] in seen {
        PrefixDuplicates(values, k + 1);
        return true;
      }
      seen := seen + {values[k]};
    }
    assert values[..|values|] == values;
    return false;
  }

  // ---------------------------------------------------------------- capacity

  /** Every count within its limit. */
  predicate WithinLimits(c: RunnerCapacity) {
    && c.configured_workspace_ceiling <= MAX_RUNNER_WORKSPACES
    && c.registered_workspaces <= MAX_RUNNER_WORKSPACES
    && c.resident_workspaces <= MAX_RUNNER_WORKSPACES
    && c.runnable_workspaces <= MAX_RUNNER_WORKSPACES
    && c.warm_pool_reserved_slots <= MAX_RUNNER_WORKSPACES
    && c.allocated_cpu_millicores <= MAX_CPU_MILLICORES
    && c.allocated_memory_bytes <= MAX_MEMORY_BYTES
  }

  function CapacityFault(c: RunnerCapacity): Option<ValidationError> {
    if !WithinLimits(c) then Some(CapacityOutOfRange)
    else if || c.runnable_workspaces > c.registered_workspaces
            || c.registered_workspaces > c.resident_workspaces
            || c.registered_workspaces + c.warm_pool_reserved_slots > c.configured_workspace_ceiling
            || HasDuplicates(c.profiles)
            || HasDuplicates(c.operations) then Some(InconsistentCapacity)
    else None
  }

  /** The limits, written out. */
  predicate CapacityInRange(c: RunnerCapacity) {
    && c.configured_workspace_ceiling <= 1_000_000
    && c.registered_workspaces <= 1_000_000
    && c.resident_workspaces <= 1_000_000
    && c.runnable_workspaces <= 1_000_000
    && c.warm_pool_reserved_slots <= 1_000_000
    && c.allocated_cpu_millicores <= 1_000_000_000
    && c.allocated_memory_bytes <= 0x4_0000_0000_0000
  }

  ghost predicate CapacityConsistent(c: RunnerCapacity) {
    && c.runnable_workspaces <= c.registered_workspaces <= c.resident_workspaces
    && c.registered_workspaces + c.warm_pool_reserved_slots <= c.configured_workspace_ceiling
    && Distinct(c.profiles) && Distinct(c.operations)
  }

  /** What a valid capacity is. */
  ghost predicate ValidCapacity(c: RunnerCapacity) { CapacityInRange(c) && CapacityConsistent(c) }

  lemma CapacityAcceptedIffValid(c: RunnerCapacity)
    ensures CapacityFault(c).None? <==> ValidCapacity(c)
    ensures CapacityFault(c) == Some(CapacityOutOfRange) <==> !CapacityInRange(c)
    ensures CapacityFault(c) == Some(InconsistentCapacity) <==> CapacityInRange(c) && !CapacityConsistent(c)
  {
    HasDuplicatesMeans(c.profiles);
    HasDuplicatesMeans(c.operations);
  }

  // ---------------------------------------------------------------- requests

  function ProtocolFault(p: ProtocolRange): Option<ValidationError> {
    if p.min_version == 0 || p.min_version > p.max_version then Some(CapacityOutOfRange) else None
  }

  function SessionFault(s: Session): Option<ValidationError> {
    if s.generation == 0 then Some(InvalidGeneration) else None
  }

  function ContractsFault(cs: seq<JobContract>): Option<ValidationError> {
    if cs == [] then None
    else if ContractFault(cs[0]).Some? then ContractFault(cs[0])
    else ContractsFault(cs[1..])
  }

  /** All attempt operations of a request, in the order they are checked. */
  function Attempts(r: PollRequest): seq<Attempt> { r.renewals + r.releases + r.terminal_reports }

  /** The first operation with generation 0, or that repeats an earlier attempt, decides. */
  function AttemptsFault(ops: seq<Attempt>, seen: set<Attempt>): Option<ValidationError> {
    if ops == [] then None
    else if ops[0].attempt_generation == 0 then Some(InvalidGeneration)
    else if ops[0] in seen then Some(DuplicateAttemptOperation)
    else AttemptsFault(ops[1..], seen + {ops[0]})
  }

  function RequestFault(r: PollRequest): Option<ValidationError> {
    if ProtocolFault(r.protocol).Some? then ProtocolFault(r.protocol)
    else if r.sequence == 0 || (r.session.None? && r.sequence != 1) then Some(InvalidSequence)
    else if r.session.Some? && SessionFault(r.session.value).Some? then SessionFault(r.session.value)
    else if CapacityFault(r.capacity).Some? then CapacityFault(r.capacity)
    else if || |r.supported_contracts| > 32
            || |r.renewals| + |r.releases| + |r.terminal_reports| > 64
            || HasDuplicates(r.supported_contracts) then Some(TooManyEntries)
    else if ContractsFault(r.supported_contracts).Some? then ContractsFault(r.supported_contracts)
    else AttemptsFault(Attempts(r), {})
  }

  lemma {:induction false} AttemptsFaultAppend(a: seq<Attempt>, b: seq<Attempt>, seen: set<Attempt>)
    ensures AttemptsFault(a + b, seen) ==
            if AttemptsFault(a, seen).Some? then AttemptsFault(a, seen)
            else AttemptsFault(b, seen + SetOf(a))
  {
    if a == [] {
      assert a + b == b && seen + SetOf(a) == seen;
    } else {
      assert (a + b)[1..] == a[1..] + b;
      AttemptsFaultAppend(a[1..], b, seen + {a[0]});
      assert seen + SetOf(a) == seen + {a[0]} + SetOf(a[1..]);
    }
  }

  method CheckAttempts(ops: seq<Attempt>, before: set<Attempt>)
    returns (fault: Option<ValidationError>, seen: set<Attempt>)
    ensures fault == AttemptsFault(ops, before)
    ensures fault.None? ==> seen == before + SetOf(ops)
  {
    seen := before;
    for k := 0 to |ops|
      invariant seen == before + SetOf(ops[..k])
      invariant AttemptsFault(ops, before) == AttemptsFault(ops[k..], seen)
    {
      assert ops[k..][1..] == ops[k + 1..];
      if ops[k].attempt_generation == 0 {
        return Some(InvalidGeneration), seen;
      }
      if ops[k] in seen {
        return Some(DuplicateAttemptOperation), seen;
      }
      seen := seen + {ops[k]};
    }
    return None, seen;
  }

  /** The request validator: three loops share one set of the attempts seen. */
  method ValidateRequest(r: PollRequest) returns (fault: Option<ValidationError>)
    ensures fault == RequestFault(r)
  {
    fault := ProtocolFault(r.protocol);
    if fault.Some? {
      return;
    }
    if r.sequence == 0 || (r.session.None? && r.sequence != 1) {
      return Some(InvalidSequence);
    }
    if r.session.Some? && SessionFault(r.session.value).Some? {
      return SessionFault(r.session.value);
    }
    fault := CapacityFault(r.capacity);
    if fault.Some? {
      return;
    }
    var repeated := FindDuplicates(r.supported_contracts);
    if |r.supported_contracts| > 32
       || |r.renewals| + |r.releases| + |r.terminal_reports| > 64
       || repeated
    {
      return Some(TooManyEntries);
    }
    for k := 0 to |r.supported_contracts|
      invariant ContractsFault(r.supported_contracts) == ContractsFault(r.supported_contracts[k..])
    {
      assert r.supported_contracts[k..][1..] == r.supported_contracts[k + 1..];
      if ContractFault(r.supported_contracts[k]).Some? {
        return ContractFault(r.supported_contracts[k]);
      }
    }
    fault := ValidateAttempts(r);
  }

  method ValidateAttempts(r: PollRequest) returns (fault: Option<ValidationError>)
    ensures fault == AttemptsFault(Attempts(r), {})
  {
    var seen: set<Attempt> := {};
    AttemptsFaultAppend(r.renewals, r.releases, seen);
    AttemptsFaultAppend(r.renewals + r.releases, r.terminal_reports, seen);
    assert seen + SetOf(r.renewals + r.releases) == seen + SetOf(r.renewals) + SetOf(r.releases);
    fault, seen := CheckAttempts(r.renewals, seen);
    if fault.Some? {
      return;
    }
    fault, seen := CheckAttempts(r.releases, seen);
    if fault.Some? {
      return;
    }
    fault, seen := CheckAttempts(r.terminal_reports, seen);
  }

  /** A lower-case letter, then lower-case letters, digits, dots, underscores and hyphens, 64 bytes at most. */
  predicate WellFormedId(s: Bytes) {
    && 1 <= |s| <= 64 && 97 <= s[0] <= 122
    && forall i :: 0 <= i < |s| ==>
         97 <= s[i] <= 122 || 48 <= s[i] <= 57 || s[i] == 46 || s[i] == 95 || s[i] == 45
  }

  /** Visible ASCII characters, 32 at most. */
  predicate WellFormedVersion(s: Bytes) { 1 <= |s| <= 32 && forall i :: 0 <= i < |s| ==> 33 <= s[i] <= 126 }

  lemma ContractMeans(c: JobContract)
    ensures IsContractId(c.id) <==> WellFormedId(c.id)
    ensures IsContractVersion(c.version) <==> WellFormedVersion(c.version)
  {
  }

  /** What a valid request is. */
  ghost predicate ValidRequest(r: PollRequest) {
    && 0 < r.protocol.min_version <= r.protocol.max_version
    && 0 < r.sequence
    && (r.session.None? ==> r.sequence == 1)
    && (r.session.Some? ==> r.session.value.generation > 0)
    && ValidCapacity(r.capacity)
    && |r.supported_contracts| <= 32
    && Distinct(r.supported_contracts)
    && (forall c :: c in r.supported_contracts ==> WellFormedId(c.id) && WellFormedVersion(c.version))
    && var attempts := r.renewals + r.releases + r.terminal_reports;
    && |attempts| <= 64
    && Distinct(attempts)
    && forall o :: o in attempts ==> o.attempt_generation > 0
  }

  lemma {:induction false} ContractsFaultMeans(cs: seq<JobContract>)
    ensures ContractsFault(cs).None? <==> forall c :: c in cs ==> WellFormedId(c.id) && WellFormedVersion(c.version)
  {
    if cs != [] {
      ContractMeans(cs[0]);
      hide IsContractId, IsContractVersion, WellFormedId, WellFormedVersion;
      ContractsFaultMeans(cs[1..]);
      assert cs == [cs[0]] + cs[1..];
    }
  }

  ghost predicate CleanAttempts(ops: seq<Attempt>, seen: set<Attempt>) {
    Distinct(ops) && forall o :: o in ops ==> o.attempt_generation > 0 && o !in seen
  }

  lemma {:induction false} AttemptsFaultMeans(ops: seq<Attempt>, seen: set<Attempt>)
    ensures AttemptsFault(ops, seen).None? <==> CleanAttempts(ops, seen)
  {
    if ops != [] {
      var head, rest := ops[0], ops[1..];
      AttemptsFaultMeans(rest, seen + {head});
      assert ops == [head] + rest;
      assert head in ops && forall o :: o in rest ==> o in ops;
      assert Distinct(ops) <==> head !in rest && Distinct(rest) by {
        assert forall i :: 0 <= i < |rest| ==> rest[i] == ops[i + 1];
        if head !in rest && Distinct(rest) {
          forall i, j | 0 <= i < j < |ops| ensures ops[i] != ops[j] {
            assert ops[j] == rest[j - 1];
            assert i > 0 ==> ops[i] == rest[i - 1];
          }
        }
      }
    }
  }

  /** The validator accepts exactly the valid requests; in particular no two operations of one
      request, of whatever kind, target the same attempt. */
  lemma RequestAcceptedIffValid(r: PollRequest)
    ensures RequestFault(r).None? <==> ValidRequest(r)
  {
    hide CapacityFault;
    hide ValidCapacity;
    CapacityAcceptedIffValid(r.capacity);
    HasDuplicatesMeans(r.supported_contracts);
    ContractsFaultMeans(r.supported_contracts);
    AttemptsFaultMeans(Attempts(r), {});
  }

  // ---------------------------------------------------------------- which error is returned

  /** For each contract its name, then its version. */
  ghost function ContractRequirements(cs: seq<JobContract>): (reqs: seq<Requirement<ValidationError>>)
    ensures |reqs| == 2 * |cs|
  {
    seq(2 * |cs|, i requires 0 <= i < 2 * |cs| =>
      if i % 2 == 0 then Requirement(WellFormedId(cs[i / 2].id), InvalidContractId)
      else Requirement(WellFormedVersion(cs[i / 2].version), InvalidContractVersion))
  }

  /** For each operation its generation, then that no earlier one is about the same attempt. */
  ghost function AttemptRequirements(ops: seq<Attempt>): seq<Requirement<ValidationError>> {
    seq(2 * |ops|, i requires 0 <= i < 2 * |ops| =>
      if i % 2 == 0 then Requirement(ops[i / 2].attempt_generation > 0, InvalidGeneration)
      else Requirement(ops[i / 2] !in ops[..i / 2], DuplicateAttemptOperation))
  }

  ghost function HeadRequirements(r: PollRequest): (reqs: seq<Requirement<ValidationError>>)
    ensures |reqs| == 6
  {
    [Requirement(0 < r.protocol.min_version <= r.protocol.max_version, CapacityOutOfRange),
     Requirement(0 < r.sequence && (r.session.None? ==> r.sequence == 1), InvalidSequence),
     Requirement(r.session.Some? ==> r.session.value.generation > 0, InvalidGeneration),
     Requirement(CapacityInRange(r.capacity), CapacityOutOfRange),
     Requirement(CapacityConsistent(r.capacity), InconsistentCapacity),
     Requirement(&& |r.supported_contracts| <= 32 && Distinct(r.supported_contracts)
                 && |r.renewals| + |r.releases| + |r.terminal_reports| <= 64, TooManyEntries)]
  }

  /** What a request must meet, in the order in which it is reported. */
  ghost function RequestRequirements(r: PollRequest): seq<Requirement<ValidationError>> {
    HeadRequirements(r) + (ContractRequirements(r.supported_contracts)
    + AttemptRequirements(r.renewals + r.releases + r.terminal_reports))
  }

  lemma {:induction false} ContractsMissed(cs: seq<JobContract>, j: nat, k: nat)
    requires FirstMissed(ContractRequirements(cs), k) && 2 * j <= k
    ensures ContractsFault(cs[j..]) == Some(ContractRequirements(cs)[k].reason)
    decreases |cs| - j
  {
    hide IsContractId, IsContractVersion, WellFormedId, WellFormedVersion;
    var reqs := ContractRequirements(cs);
    ContractMeans(cs[j]);
    assert cs[j..][0] == cs[j] && cs[j..][1..] == cs[j + 1..];
    assert k > 2 * j ==> reqs[2 * j].met;
    if k >= 2 * j + 2 {
      assert reqs[2 * j + 1].met;
      ContractsMissed(cs, j + 1, k);
    }
  }

  lemma {:induction false} AttemptsMissed(ops: seq<Attempt>, j: nat, k: nat)
    requires FirstMissed(AttemptRequirements(ops), k) && 2 * j <= k
    ensures AttemptsFault(ops[j..], SetOf(ops[..j])) == Some(AttemptRequirements(ops)[k].reason)
    decreases |ops| - j
  {
    var reqs := AttemptRequirements(ops);
    assert ops[j..][0] == ops[j] && ops[j..][1..] == ops[j + 1..];
    assert ops[j] in SetOf(ops[..j]) <==> ops[j] in ops[..j];
    assert k > 2 * j ==> reqs[2 * j].met;
    if k >= 2 * j + 2 {
      assert reqs[2 * j + 1].met;
      AttemptsMissed(ops, j + 1, k);
      assert ops[..j + 1] == ops[..j] + [ops[j]];
      assert SetOf(ops[..j + 1]) == SetOf(ops[..j]) + {ops[j]};
    }
  }

  lemma HeadMissed(r: PollRequest, k: nat)
    requires FirstMissed(HeadRequirements(r), k)
    ensures RequestFault(r) == Some(HeadRequirements(r)[k].reason)
  {
    hide CapacityFault, CapacityInRange, CapacityConsistent;
    var reqs := HeadRequirements(r);
    CapacityAcceptedIffValid(r.capacity);
    HasDuplicatesMeans(r.supported_contracts);
    assert k > 0 ==> reqs[0].met;
    assert k > 1 ==> reqs[1].met;
    assert k > 2 ==> reqs[2].met;
    assert k > 3 ==> reqs[3].met;
    assert k > 4 ==> reqs[4].met;
  }

  lemma HeadAllMet(r: PollRequest)
    requires forall i :: 0 <= i < 6 ==> HeadRequirements(r)[i].met
    ensures RequestFault(r) ==
            if ContractsFault(r.supported_contracts).Some? then ContractsFault(r.supported_contracts)
            else AttemptsFault(r.renewals + r.releases + r.terminal_reports, {})
  {
    hide CapacityFault, CapacityInRange, CapacityConsistent;
    var reqs := HeadRequirements(r);
    CapacityAcceptedIffValid(r.capacity);
    HasDuplicatesMeans(r.supported_contracts);
    assert reqs[0].met && reqs[1].met && reqs[2].met && reqs[3].met && reqs[4].met && reqs[5].met;
  }

  lemma ContractAt(cs: seq<JobContract>, i: nat)
    requires i < |cs|
    ensures ContractRequirements(cs)[2 * i].met == WellFormedId(cs[i].id)
    ensures ContractRequirements(cs)[2 * i + 1].met == WellFormedVersion(cs[i].version)
  {
    hide WellFormedId, WellFormedVersion;
  }

  lemma ContractsAllMet(cs: seq<JobContract>)
    requires forall i :: 0 <= i < 2 * |cs| ==> ContractRequirements(cs)[i].met
    ensures ContractsFault(cs).None?
  {
    ContractsFaultMeans(cs);
    hide WellFormedId, WellFormedVersion, ContractRequirements;
    forall c | c in cs ensures WellFormedId(c.id) && WellFormedVersion(c.version) {
      var i :| 0 <= i < |cs| && cs[i] == c;
      ContractAt(cs, i);
    }
  }

  /** An invalid request is refused for the first requirement it misses. */
  lemma FirstMissedInRequest(r: PollRequest, k: nat)
    requires FirstMissed(RequestRequirements(r), k)
    ensures RequestFault(r) == Some(RequestRequirements(r)[k].reason)
  {
    hide RequestFault, HeadRequirements, ContractRequirements, AttemptRequirements, FirstMissed;
    var head, cs := HeadRequirements(r), ContractRequirements(r.supported_contracts);
    var ops := r.renewals + r.releases + r.terminal_reports;
    var attempts := AttemptRequirements(ops);
    MissedInPart(head, cs + attempts, k);
    if k < |head| {
      HeadMissed(r, k);
    } else {
      RequestTailMissed(r, k - |head|);
    }
  }

  lemma RequestTailMissed(r: PollRequest, k: nat)
    requires forall i :: 0 <= i < 6 ==> HeadRequirements(r)[i].met
    requires FirstMissed(ContractRequirements(r.supported_contracts)
                         + AttemptRequirements(r.renewals + r.releases + r.terminal_reports), k)
    ensures RequestFault(r) == Some((ContractRequirements(r.supported_contracts)
                                     + AttemptRequirements(r.renewals + r.releases + r.terminal_reports))[k].reason)
  {
    hide RequestFault, HeadRequirements, ContractsFault, AttemptsFault;
    var cs := ContractRequirements(r.supported_contracts);
    var ops := r.renewals + r.releases + r.terminal_reports;
    HeadAllMet(r);
    MissedInPart(cs, AttemptRequirements(ops), k);
    if k < |cs| {
      ContractsMissed(r.supported_contracts, 0, k);
      assert r.supported_contracts[0..] == r.supported_contracts;
    } else {
      ContractsAllMet(r.supported_contracts);
      AttemptsMissed(ops, 0, k - |cs|);
      assert ops[0..] == ops && SetOf(ops[..0]) == {};
    }
  }

  // ---------------------------------------------------------------- responses

  function LeaseFault(l: LeaseHeader): Option<ValidationError> {
    if l.attempt_generation == 0 then Some(InvalidGeneration)
    else if |l.payload_digest| != 32 then Some(InvalidPayloadDigest)
    else ContractFault(l.contract)
  }

  function LeasesFault(ls: seq<LeaseHeader>): Option<ValidationError> {
    if ls == [] then None
    else if LeaseFault(ls[0]).Some? then LeaseFault(ls[0])
    else LeasesFault(ls[1..])
  }

  function ResponseFault(r: PollResponse): Option<ValidationError> {
    if r.protocol_version == 0 || r.accepted_sequence == 0 then Some(InvalidSequence)
    else if !(5_000 <= r.poll_after_ms <= 60_000) then Some(InvalidPollDelay)
    else if SessionFault(r.session).Some? then SessionFault(r.session)
    else if |r.leases| > 16 then Some(TooManyEntries)
    else if (r.replay_status.ReceiptObsolete? || r.replay_status.SuspendedAcknowledgement?) && r.leases != [] then
      Some(InvalidReplayResponse)
    else LeasesFault(r.leases)
  }

  predicate ValidLease(l: LeaseHeader) {
    && l.attempt_generation > 0 && |l.payload_digest| == 32
    && WellFormedId(l.contract.id) && WellFormedVersion(l.contract.version)
  }

  /** What a valid response is. */
  ghost predicate ValidResponse(r: PollResponse) {
    && 0 < r.protocol_version && 0 < r.accepted_sequence && 0 < r.session.generation
    && 5_000 <= r.poll_after_ms <= 60_000
    && |r.leases| <= 16
    && (r.leases != [] ==> r.replay_status.Fresh? || r.replay_status.Replayed?)
    && (forall l :: l in r.leases ==> ValidLease(l))
  }

  lemma {:induction false} LeasesFaultMeans(ls: seq<LeaseHeader>)
    ensures LeasesFault(ls).None? <==> forall l :: l in ls ==> ValidLease(l)
  {
    if ls != [] {
      LeasesFaultMeans(ls[1..]);
      assert ls == [ls[0]] + ls[1..];
      assert LeaseFault(ls[0]).None? <==> ValidLease(ls[0]) by {
        ContractMeans(ls[0].contract);
      }
    }
  }

  /** The validator accepts exactly the valid responses. */
  lemma ResponseAcceptedIffValid(r: PollResponse)
    ensures ResponseFault(r).None? <==> ValidResponse(r)
  {
    LeasesFaultMeans(r.leases);
  }

  /** For each lease its generation, its digest, and its contract's name and version. */
  ghost function LeaseRequirements(ls: seq<LeaseHeader>): seq<Requirement<ValidationError>> {
    seq(4 * |ls|, i requires 0 <= i < 4 * |ls| =>
      if i % 4 == 0 then Requirement(ls[i / 4].attempt_generation > 0, InvalidGeneration)
      else if i % 4 == 1 then Requirement(|ls[i / 4].payload_digest| == 32, InvalidPayloadDigest)
      else if i % 4 == 2 then Requirement(WellFormedId(ls[i / 4].contract.id), InvalidContractId)
      else Requirement(WellFormedVersion(ls[i / 4].contract.version), InvalidContractVersion))
  }

  /** What a response must meet, in the order in which it is reported. */
  ghost function ResponseRequirements(r: PollResponse): seq<Requirement<ValidationError>> {
    [Requirement(r.protocol_version > 0 && r.accepted_sequence > 0, InvalidSequence),
     Requirement(5_000 <= r.poll_after_ms <= 60_000, InvalidPollDelay),
     Requirement(r.session.generation > 0, InvalidGeneration),
     Requirement(|r.leases| <= 16, TooManyEntries),
     Requirement(r.leases != [] ==> r.replay_status.Fresh? || r.replay_status.Replayed?, InvalidReplayResponse)]
    + LeaseRequirements(r.leases)
  }

  lemma {:induction false} LeasesMissed(ls: seq<LeaseHeader>, j: nat, k: nat)
    requires FirstMissed(LeaseRequirements(ls), k) && 4 * j <= k
    ensures LeasesFault(ls[j..]) == Some(LeaseRequirements(ls)[k].reason)
    decreases |ls| - j
  {
    hide IsContractId, IsContractVersion, WellFormedId, WellFormedVersion;
    var reqs := LeaseRequirements(ls);
    ContractMeans(ls[j].contract);
    assert ls[j..][0] == ls[j] && ls[j..][1..] == ls[j + 1..];
    assert k > 4 * j ==> reqs[4 * j].met;
    assert k > 4 * j + 1 ==> reqs[4 * j + 1].met;
    assert k > 4 * j + 2 ==> reqs[4 * j + 2].met;
    if k >= 4 * j + 4 {
      assert reqs[4 * j + 3].met;
      LeasesMissed(ls, j + 1, k);
    }
  }

  /** An invalid response is refused for the first requirement it misses. */
  lemma FirstMissedInResponse(r: PollResponse, k: nat)
    requires FirstMissed(ResponseRequirements(r), k)
    ensures ResponseFault(r) == Some(ResponseRequirements(r)[k].reason)
  {
    hide LeasesFault, LeaseRequirements;
    var reqs := ResponseRequirements(r);
    assert k > 0 ==> reqs[0].met;
    assert k > 1 ==> reqs[1].met;
    assert k > 2 ==> reqs[2].met;
    assert k > 3 ==> reqs[3].met;
    assert k > 4 ==> reqs[4].met;
    if k >= 5 {
      MissedInPart(reqs[..5], LeaseRequirements(r.leases), k);
      LeasesMissed(r.leases, 0, k - 5);
      assert r.leases[0..] == r.leases;
    }
  }
}
