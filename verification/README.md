# ne-enclave verification model

A Dafny model of the parts of NeuronEdge Enclave that decide what is trusted, with proofs about every
input, every run or every interleaving. `dafny verify dfyconfig.toml` checks all of it.

## What is modelled

**The signed audit log.** `Json`, `SortedObject` and `AuditEvents` give the canonical bytes of an event
concretely, write them out, and prove them injective; `JsonRead` is a reader written from RFC 8259 alone that
reads every printed value back. `ChainSkeleton` and `AuditChain` give chain verification, each verdict in terms
of the events, and what a verified chain pins down. `JsonLex` and `LogFile` are the log file as bytes, `AuditLog` is the supervisor's
signing log over it, with writes that fail at any point, and `AuditExport` the manifest. A reader of one line
is any function that reads back what was written and accepts only text whose strings and brackets close.
The chain theorems hold for every canonical form that is exact in the sense of
`AuditEvents.CanonicalIsExact`; the JSON form is one, and `AuditChain.JsonVerifier` is that instance.

**The fleet poll client.** `FleetWire` and `FleetJson` are the wire validators, `FleetClient` the polling
state, `FleetLoop` whole runs. The network is arbitrary: each iteration may see any reply, any failure
and any capacity snapshot. Request ids are supplied from outside, jitter is any factor from 80 to 120 per cent.

**The attestation pipeline.** `ReportData`, `SnpReport`, `AmdSignature`, `Der`, `Tpm`, `VcekChain` and
`VcekCache` are the encoders, parsers and the certificate walk. The report, certificate and TPM parsers have
printers and are proved to accept exactly what these produce; the signature decoder ignores its padding,
which is characterised instead. `Attestation` is verification, `Binding` what two verified
evidences share, `Providers` the three generators and their completeness. These theorems hold for every
encoding that is faithful in the sense of `ReportData.ReportDataIsFaithful`; the JSON form is one.

**The policy front ends.** `DnsNames`, `DnsFilter`, `IngressHost`, `IngressRegistry`, `IngressRouter` and
`CappedReader`.

Cryptography, Base64, JWK and X.509 key decoding are arbitrary functions (`Crypto`), so every theorem holds
for all of them. No hash is assumed collision free: conclusions that rest on one name the colliding pair,
and both members of the pair come from the inputs. Text is bytes. Loops over buffers, cursors, hash sets
and maps in the source are methods or classes here, proved against functions.

## Where the code and its comments differ

The model follows the code.

- `crates/ne-protocol/src/audit.rs:78-80` describes `root_hex` as the hash of the last event that verified.
  The code sets it only when the whole slice verifies; `AuditChain.VerificationExact` states this.
- `crates/ne-attestation/src/tpm_attest.rs:42-45` says that verification asserts the quote type. The code
  does not look at the type: `Providers.AnyTypeVerifies` gives such evidence, and `Binding.VerifiedQuoteTypeIff`
  the exact condition a caller can look at.
- `crates/ne-attestation/src/tpm_attest.rs:60-68` promises both the raw and the size-prefixed form. The parser
  accepts both, but the signature is checked over the whole message (`crates/ne-attestation/src/lib.rs:707`)
  and covers only the structure: `Providers.AzureVerifiedIff` states that only the raw form is verified.
- `crates/ne-dns-filter/src/lib.rs:79-82` describes the allowlist as matching by suffix of the hostname. A wire
  label may itself contain a dot; `DnsNames.AgreesIff` states exactly when the test is label-wise.
- `crates/ne-supervisor/src/audit.rs:117-118` describes emission as signing and appending. A write can fail
  after it has reached the file; `AuditLog.EveryRunVerifies` states exactly when the log then still verifies.

## Model

| member | source | states |
|---|---|---|
| Json.DecimalRoundTrip | crates/ne-protocol/src/audit.rs:297-311 | printing a natural number in decimal and reading it back gives the number, with no leading zero |
| Json.IntegerUnique | crates/ne-protocol/src/audit.rs:297-311 | a printed integer is determined by any text that starts with it and does not continue with a digit |
| Json.HexInjective | crates/ne-protocol/src/audit.rs:242 | equal hexadecimal texts come from equal bytes |
| Json.HexAt | crates/ne-protocol/src/audit.rs:242 | byte i of the input is the two lower-case digits at position 2i, high half first |
| Json.EscapeUnique | crates/ne-protocol/src/audit.rs:297-311 | escaped string contents up to the closing quote determine the string (section 7 of RFC 8259) |
| Json.PrintUnique | crates/ne-protocol/src/audit.rs:297-311 | a printed JSON value is self-delimiting: two values followed by admissible remainders print alike only if both value and remainder are equal, at any nesting depth |
| Json.PrintInjective | crates/ne-protocol/src/audit.rs:297-311 | different JSON values have different printed forms |
| JsonRead.ReadsBack | crates/ne-protocol/src/audit.rs:297-311 | a reader of JSON text written from sections 2 to 7 of RFC 8259, and not from the printer, reads every printed value back and stops exactly at its end, at any nesting depth |
| SortedObject.InsertSorted | crates/ne-protocol/src/audit.rs:301-306 | inserting into an object with keys in byte order keeps that order |
| SortedObject.InsertView | crates/ne-protocol/src/audit.rs:304-306 | inserting a member sets exactly that key of the association and no other |
| SortedObject.RemoveView | crates/ne-protocol/src/audit.rs:300 | removing a key from a sorted object removes exactly that key of the association |
| SortedObject.SortedUnique | crates/ne-protocol/src/audit.rs:301-303 | a sorted object is determined by the association it holds, so insertion order leaves no trace in the bytes |
| SortedObject.BuildView | crates/ne-protocol/src/audit.rs:298 | building from fields with distinct keys gives a sorted object that holds exactly those fields |
| AuditEvents.CanonicalAssociation | crates/ne-protocol/src/audit.rs:297-311 | the canonical object associates these nine names and no others with values: the tag under ctx and each field but the signature under its own name, a missing workspace as null |
| AuditEvents.CanonicalExact | crates/ne-protocol/src/audit.rs:297-311 | the canonical bytes are the printed object with exactly these nine members in byte order of their names, written out |
| AuditEvents.CanonicalInjective | crates/ne-protocol/src/audit.rs:297-311 | equal canonical bytes mean events equal in every field except the signature |
| AuditEvents.SameSignedSameBytes | crates/ne-protocol/src/audit.rs:288-297 | events that differ only in the signature have the same canonical bytes |
| AuditEvents.CanonicalIsExact | crates/ne-protocol/src/audit.rs:297-311 | both directions together: canonical bytes are equal exactly for events equal up to the signature |
| AuditChain.SignatureFault | crates/ne-protocol/src/audit.rs:135-185 | an event passes the signature steps exactly when it carries a usable key and a signature of that key over its canonical bytes |
| AuditChain.CheckSignature | crates/ne-protocol/src/audit.rs:135-185 | malformed key exactly when the key text does not decode to 32 bytes that are a key; otherwise malformed signature exactly when the signature text does not decode to 64 bytes; otherwise bad signature exactly when Ed25519 refuses it over the canonical bytes |
| AuditChain.CheckLink | crates/ne-protocol/src/audit.rs:187-238 | a sequence gap exactly when there is a predecessor and the index is not one more than its index; otherwise a broken link exactly when the link differs from the hexadecimal hash of the predecessor, or from 64 zeros on a first event of index 0 |
| AuditChain.VerifyChain | crates/ne-protocol/src/audit.rs:102-249 | the loop returns count, first and last index, root and first error as they follow from the events: the error names the first unsound event and the first of the five tests it fails |
| AuditChain.VerificationExact | crates/ne-protocol/src/audit.rs:102-249 | the verdict is the one and only result that reports on the events: clean exactly when every event is sound, with the last hash as root; otherwise no root, and the index and reason of the first unsound event, stated in event fields and the primitives alone |
| AuditChain.ReasonExact | crates/ne-protocol/src/audit.rs:135-238 | at the first unsound position each of the five reasons is reported exactly when its test is the first that the event fails |
| ChainSkeleton.CleanIffValid | crates/ne-protocol/src/audit.rs:121-248 | no fault is found exactly when all signatures hold, every link and index follows its predecessor, and an event of index 0 at the front has the genesis link |
| AuditChain.VerifiedIffValid | crates/ne-protocol/src/audit.rs:102-249 | a list of events verifies exactly when it is a valid chain |
| AuditChain.JoinVerifies | crates/ne-protocol/src/audit.rs:187-238 | for non-empty a and b, a followed by b verifies exactly when a verifies, b verifies and the junction links |
| AuditChain.OnlyContiguousRunsVerify | crates/ne-protocol/src/audit.rs:90-100 | of all selections from a verified chain, in any order and with repetition, exactly those with consecutive ascending positions verify |
| AuditChain.CutIsReported | crates/ne-protocol/src/audit.rs:187-238 | cutting out a non-empty interior block is reported as a sequence gap at the first event after the cut |
| AuditChain.RootPinsHistory | crates/ne-protocol/src/audit.rs:240-243 | two verified non-empty lists with one root agree on their whole common suffix up to signatures, or contain two events whose canonical bytes collide under SHA-256 |
| AuditChain.JsonRootPinsHistory | crates/ne-protocol/src/audit.rs:240-243 | the same for the log's own JSON form, with the two colliding JSON texts named |
| AuditChain.RootAndStartPinLog | crates/ne-protocol/src/audit.rs:240-243 | equal roots and equal first indices mean the same events position by position, or such a collision; in particular for two logs that start at index 0 |
| AuditChain.TruncationChangesRoot | crates/ne-protocol/src/audit.rs:619-629 | dropping events from the end leaves a verifying list whose root differs, or a collision |
| JsonLex.ObjectCompletes | crates/ne-supervisor/src/audit.rs:159-160 | a scanner of strings and brackets finds a printed object complete at its end and at no earlier point, so no proper prefix of a log line can be read as JSON |
| JsonLex.PrintHasNoNewline | crates/ne-supervisor/src/audit.rs:159-160 | a printed value has no newline in it, so every event is one line |
| LogFile.WrittenIsRead | crates/ne/src/audit_cli.rs:17-32 | the lines of any events are read back as those events, by a reader that refuses unreadable lines and by one that skips them |
| LogFile.StrictReads | crates/ne/src/audit_cli.rs:28 | a line reader with the two assumed properties exists: it reads what was written and accepts only complete objects or arrays |
| LogFile.TornStays | crates/ne-supervisor/src/audit.rs:161-167 | an event, or the beginning of one, written behind an unfinished line or behind a complete event on the same line leaves that line unreadable for good |
| AuditLog.NextLine | crates/ne-supervisor/src/audit.rs:267-272 | reading a line from where one begins yields the next line of the file, ended by a newline or by the end of the file |
| AuditLog.RecoverHead | crates/ne-supervisor/src/audit.rs:252-287 | reading the log line by line recovers the head its readable lines determine: the index after the last readable event and that event's canonical bytes; unreadable lines are passed over |
| AuditLog.Log.constructor | crates/ne-supervisor/src/audit.rs:89-116 | opening a log leaves the file as it is and recovers that head |
| AuditLog.Log.Emit | crates/ne-supervisor/src/audit.rs:119-172 | emitting writes one event that is signed over its canonical bytes and linked to the head; the head moves on exactly when the write succeeds, while a failed write may leave nothing, a piece of the line, the text without its newline or all of it |
| AuditLog.EveryRunVerifies | crates/ne-supervisor/src/audit.rs:119-172 | over every run of emissions, writes that fail with anything from nothing to the whole line stored, key changes and restarts with honest signers, the log verifies exactly when no write was torn, every event stored by a failed write was found by reopening before anything else was stored, nothing was stored behind an event without its newline, and at most 2^64 events were stored |
| AuditLog.EntriesAreReadBack | crates/ne-supervisor/src/audit.rs:119-172 | over every such run with at most 2^64 stored events, reading the file gives as many events as were stored, the k-th with index k and the id, time, type, workspace, payload and key of the emission that stored it |
| AuditLog.StoredButReportedFailed | crates/ne-supervisor/src/audit.rs:166-170 | the condition is needed: an event that is stored although its write failed makes the next emission reuse its index and the log not verify; with a restart in between it verifies |
| AuditExport.ExportIff | crates/ne/src/audit_cli.rs:114-143 | a manifest is written exactly for a non-empty log that is a valid chain or may be broken, and gives its count, first and last index, whether it is valid, and the last hash exactly when it is |
| AuditExport.AcceptsIff | crates/ne/src/audit_cli.rs:70-107 | a log is accepted exactly when it is a valid chain and, with a manifest, when count, both indices and root are those of its events |
| AuditExport.ManifestPinsLog | crates/ne/src/audit_cli.rs:70-107 | whatever is accepted against a manifest is the exported log event for event, up to signatures, or collides with it; and that log verified when exported |
| AuditExport.FrontTruncation | crates/ne/src/audit_cli.rs:75-82 | a verified log with its front cut off still verifies with the same root, and is refused against the manifest |
| FleetWire.FindDuplicates | crates/ne-protocol/src/fleet.rs:311-317 | the hash-set loop answers whether two positions hold equal values |
| FleetWire.CapacityAcceptedIffValid | crates/ne-protocol/src/fleet.rs:252-278 | a capacity is out of range exactly when one of the seven limits, written out, is exceeded; otherwise inconsistent exactly when runnable, registered and resident workspaces are not ordered, reservations do not fit the ceiling, or profiles or operations repeat; and accepted otherwise |
| FleetWire.ValidateRequest | crates/ne-protocol/src/fleet.rs:616-651 | the validator returns the first fault in source order, its three operation loops sharing one set of attempts |
| FleetWire.CheckAttempts | crates/ne-protocol/src/fleet.rs:907-923 | one operation loop returns the first zero generation or repeated attempt, and otherwise the set grown by exactly its attempts |
| FleetWire.RequestAcceptedIffValid | crates/ne-protocol/src/fleet.rs:616-651 | a request is accepted exactly when all limits, grammars and sequence rules hold, contracts are distinct, and no two operations of any kind target one attempt |
| FleetWire.FirstMissedInRequest | crates/ne-protocol/src/fleet.rs:616-651 | an invalid request is refused with the error of the first requirement it misses, in a list that writes out the head checks, each contract and each operation in order |
| FleetWire.ResponseAcceptedIffValid | crates/ne-protocol/src/fleet.rs:711-736 | a response is accepted exactly when its numbers are positive, its delay is between 5 and 60 seconds, it has at most 16 valid leases, and it has none when it is an obsolete receipt or a suspended acknowledgement |
| FleetWire.FirstMissedInResponse | crates/ne-protocol/src/fleet.rs:711-736 | an invalid response is refused with the error of the first requirement it misses, down to the four checks of each lease |
| FleetJson.RejectDuplicateKeys | crates/ne-protocol/src/fleet.rs:884-904 | the recursive visitor accepts a tree exactly when no object in it repeats a key |
| FleetJson.AtAnyDepth | crates/ne-protocol/src/fleet.rs:788-799 | having no repeated keys is the same as every object occurring anywhere inside the document having distinct keys |
| FleetJson.PoliciesAgree | crates/ne-protocol/src/fleet.rs:788-799 | decoding an accepted document with first-wins and with last-wins members gives the same result |
| FleetJson.PoliciesCanDisagree | crates/ne-protocol/src/fleet.rs:788-799 | a document with a repeated key on which the two decodings differ, so the pass is needed |
| FleetClient.FleetLoopState.constructor | crates/ne-api/src/fleet_client.rs:109-120 | a new client has no session, no pending request and sequence 1 |
| FleetClient.FleetLoopState.PreparePending | crates/ne-api/src/fleet_client.rs:122-144 | an unanswered request is kept as it is; otherwise a request mirroring the state is stored if it validates, and nothing changes if it does not |
| FleetClient.FleetLoopState.ApplyResponse | crates/ne-api/src/fleet_client.rs:150-163 | a response that answers the pending request installs its session, advances the sequence and clears the request; any other response changes nothing |
| FleetClient.FleetLoopState.PollIteration | crates/ne-api/src/fleet_client.rs:216-264 | one iteration moves the state and chooses retry, wait or stop as specified, and from every consistent state exactly as `PollIterates` writes out |
| FleetClient.RequestsAlwaysBuild | crates/ne-api/src/fleet_client.rs:122-144 | in every consistent state the request built from a capacity is valid exactly when the capacity is, so building never fails after a valid snapshot |
| FleetClient.PollKeepsInv | crates/ne-api/src/fleet_client.rs:216-264 | every iteration keeps the invariant (no session exactly at sequence 1, a pending request mirrors the state), never loses or changes the session, and never lowers its generation |
| FleetClient.AcceptedResponses | crates/ne-api/src/fleet_client.rs:165-198 | an accepted response carries no leases, the answered request's id and sequence, protocol version 1 and a delay between 5 and 60 seconds |
| FleetClient.PollIterates | crates/ne-api/src/fleet_client.rs:216-264 | from every consistent state: nothing is sent exactly without a pending request and a valid snapshot; otherwise the pending request, or a new one written out field by field, is sent; the loop waits exactly when the response is valid, has the id and sequence of the request, version 1, no leases and the same session not moved back, below the last sequence; it sends again exactly after five errors and stops exactly after a shutdown, four errors or any other response |
| FleetClient.StopsIff | crates/ne-api/src/fleet_client.rs:236-263 | the loop stops exactly when a request was sent and the reply is a shutdown, one of the four errors PayloadTooLarge, Protocol, IdentityRejected and SessionFenced, or a response that is not acceptable for that request |
| FleetLoop.RunFleetLoop | crates/ne-api/src/fleet_client.rs:297-345 | the loop over any inputs produces the specified trace of requests, sleeps and final status |
| FleetLoop.SequencesAreExactlyOnce | crates/ne-api/src/fleet_client.rs:101-163 | in every run against any network: sequences come in blocks 1, 2, 3, and so on, one sequence always means the identical request, each is accepted at most once, and the counter is one more than the number of acceptances |
| FleetLoop.SessionNeverGoesBack | crates/ne-api/src/fleet_client.rs:183-188 | in every run, once granted, the session keeps its identity and its generation never falls, and the process id never changes |
| FleetLoop.IdsMatchSequences | crates/ne-api/src/fleet_client.rs:122-144 | with fresh identifiers, two transmissions share the request id exactly when they share the sequence |
| FleetLoop.BackoffExact | crates/ne-api/src/fleet_client.rs:282-287 | the delay before jitter of the k-th consecutive retry is min(2^k, 30) seconds for every k, despite the clamped shift and the saturating counter |
| FleetLoop.SleepsArePaced | crates/ne-api/src/fleet_client.rs:272-344 | in every run each sleep lies in 800 ms to 72 s, the k-th consecutive retry sleeps min(2^k, 30) seconds within a fifth, and the other sleeps are, one by one and in order, the delays that the accepted responses asked for, within a fifth |
| FleetLoop.StoppedIsFinal | crates/ne-api/src/fleet_client.rs:297-345 | after a stop nothing is sent, nothing is slept and nothing changes, whatever inputs follow |
| FleetLoop.RequestsAreFormed | crates/ne-api/src/fleet_client.rs:122-144 | in every run each request sent is of this process, offers version 1 only and no contracts or operations, is about a valid capacity, and names the session that the last accepted response granted, none before the first |
| FleetLoop.SleepsAreExact | crates/ne-api/src/fleet_client.rs:272-344 | every run sleeps once after each iteration until it stops, for exactly the backoff of its streak, or the delay its response asked for, times that iteration's jitter in per cent |
| ReportData.ReportDataInjective | crates/ne-attestation/src/lib.rs:234-270 | equal report data means the same provider, workspace id, measurement, nonce and issue time |
| ReportData.ReportDataExact | crates/ne-attestation/src/lib.rs:234-270 | the report data is the printed object with exactly six members in byte order of their names, written out: tag, issue time, measurement and nonce in hexadecimal, provider name and workspace id |
| ReportData.NeverAnAuditEvent | crates/ne-attestation/src/lib.rs:226-243 | no report data is the canonical form of an audit event, so signatures of the two kinds cannot be exchanged |
| ReportData.ReportDataIsFaithful | crates/ne-attestation/src/lib.rs:234-270 | the encoding is injective and never empty, which is all the attestation theorems use |
| SnpReport.Parse | crates/ne-attestation/src/snp_report.rs:81-113 | a report parses exactly when it has the report size, and its byte fields have their lengths |
| SnpReport.SignedThenSignature | crates/ne-attestation/src/snp_report.rs:123-139 | signed region followed by signature is the report, without gap or overlap |
| SnpReport.FieldsAreSigned | crates/ne-attestation/src/snp_report.rs:81-139 | reports that agree on the signed region parse alike, whatever their signatures hold |
| SnpReport.ReportRoundTrip | crates/ne-attestation/src/snp_report.rs:81-139 | every field and the signature are read back from the report laid out in the firmware's order, for all values of the gaps |
| SnpReport.ReportShape | crates/ne-attestation/src/snp_report.rs:81-139 | every buffer of the report size is the layout of its parsed fields and of the bytes between them |
| SnpReport.PrintSplits | crates/ne-attestation/src/snp_report.rs:115-139 | the part in front of the signature does not depend on the signature and has the signed length |
| AmdSignature.ReadScalar | crates/ne-attestation/src/vcek.rs:298-308 | a half that is not 72 bytes is refused, and otherwise its low 48 bytes are returned most significant first |
| AmdSignature.ScalarValue | crates/ne-attestation/src/vcek.rs:294-308 | the decoded scalar is the little-endian field modulo 2^384, and equals it exactly when the padding is zero |
| AmdSignature.DecodeReads | crates/ne-attestation/src/vcek.rs:273-308 | a field is readable exactly when bytes 144 to 511 are zero, and then gives r from bytes 0 to 47 and s from bytes 72 to 119, each turned around |
| AmdSignature.SignatureRoundTrip | crates/ne-attestation/src/vcek.rs:738-757 | what firmware stores for r and s decodes to r and s |
| AmdSignature.DecodeInverts | crates/ne-attestation/src/vcek.rs:273-292 | a decoded field is the encoding of its result exactly when both paddings are zero; the decoder itself checks only the tail |
| AmdSignature.DecodeIff | crates/ne-attestation/src/vcek.rs:273-308 | a readable field decodes like another exactly when they agree on both scalars and the tail, so the padding plays no part |
| AmdSignature.PaddedTwin | crates/ne-attestation/src/vcek.rs:263-272 | every signature has, besides its encoding, a field with non-zero padding that decodes to it |
| Der.DerLen | crates/ne-attestation/src/vcek.rs:311-325 | accumulating the length octets one by one gives the length and content start of the specification, and refuses the same inputs |
| Der.ReadLengthExact | crates/ne-attestation/src/vcek.rs:311-325 | a length is read exactly when the octets at the front encode it in an accepted form (section 8.1.3 of X.690, up to four octets) |
| Der.EncodeLengthEncodes | crates/ne-attestation/src/vcek.rs:311-325 | the shortest encoding of every length below 2^32 is accepted and denotes it |
| Der.ElementIff | crates/ne-attestation/src/vcek.rs:330-344 | bytes are one exact element exactly when they are the tag, an accepted encoding of the content's length, and the content |
| Der.SplitConcatDer | crates/ne-attestation/src/vcek.rs:330-344 | the loop over positions cuts the blob as the specification does, and ends |
| Der.SplitInverts | crates/ne-attestation/src/vcek.rs:330-344 | a split succeeds with a list exactly when the list concatenates to the blob and each part is one exact SEQUENCE element, so the decomposition is unique |
| Der.ShapeReads | crates/ne-attestation/src/vcek.rs:353-389 | a certificate made of an outer header, signed region, algorithm and bit string yields exactly its signed region and signature, whatever the outer length says and whatever follows |
| Der.ReadsShape | crates/ne-attestation/src/vcek.rs:353-389 | only certificates of that shape are accepted, with exactly that signed region and signature |
| Der.CertificateRoundTrip | crates/ne-attestation/src/vcek.rs:353-389 | a certificate built as in section 4.1 of RFC 5280 is one exact element and yields what was signed and the signature |
| VcekChain.VerifyCert | crates/ne-attestation/src/vcek.rs:225-259 | a certificate passes exactly when its signed region and signature verify under the key in the scheme it names; it is malformed exactly when its structure, algorithm or signature value cannot be read; anything else is a bad chain |
| VcekChain.WalkChain | crates/ne-attestation/src/vcek.rs:165-176 | the loop returns the first broken link, and succeeds exactly when the key of each certificate signed the one before it and the root signed the last |
| VcekChain.FirstErrorIsLeast | crates/ne-attestation/src/vcek.rs:165-176 | the error reported by the walk is that of the least broken link |
| VcekChain.VerifyReport | crates/ne-attestation/src/vcek.rs:153-191 | the function returns the specified verdict (unreadable input, then the walk, then the firmware signature), and accepts exactly when there is a signature path |
| VcekChain.AcceptedIffEndorsed | crates/ne-attestation/src/vcek.rs:136-191 | a report is accepted exactly when it has 1184 bytes and the chain is a concatenation of certificates, at least one, such that each one's key signed the one before it, the root signed the last, and the first has an elliptic-curve key that verifies the signature stored in the report over its first 672 bytes |
| VcekChain.BadSignatureIff | crates/ne-attestation/src/vcek.rs:149-191 | a bad firmware signature is reported exactly when the chain is a concatenation of certificates signed up to the root and only the report's own signature fails |
| VcekChain.BadChainIff | crates/ne-attestation/src/vcek.rs:149-176 | a bad chain is reported exactly for a report of the right size with an empty chain, or with certificates whose first unsigned link is between a readable certificate and a readable issuer |
| VcekChain.NoOtherError | crates/ne-attestation/src/vcek.rs:149-191 | every other failure is reported as a malformed certificate, so the three conditions fix the verdict |
| VcekChain.VerdictIgnoresPadding | crates/ne-attestation/src/vcek.rs:153-191 | reports that differ only in the padding of the firmware signature get the same verdict |
| VcekCache.Cache.constructor | crates/ne-attestation/src/vcek.rs:416-421 | a new cache holds nothing and has fetched nothing |
| VcekCache.Cache.Get | crates/ne-attestation/src/vcek.rs:427-442 | a hit answers from the cache without fetching; a miss fetches once and stores only a success |
| VcekCache.GetKeepsInv | crates/ne-attestation/src/vcek.rs:427-442 | every get keeps: only successes are stored, every success is stored, it was the last fetch for its key, and nothing stored is lost or replaced |
| VcekCache.FirstSuccessWins | crates/ne-attestation/src/vcek.rs:402-442 | over any sequence of gets and any failing or changing fetcher, all successes for a key equal the fetcher's first success for it, after which the key is never fetched again |
| VcekCache.FetchesAddUp | crates/ne-attestation/src/vcek.rs:427-442 | over every run the number of fetches is the number of keys stored plus the number of errors answered: no error is remembered or answered from memory, and no success is fetched twice |
| VcekCache.ErrorsAreFetched | crates/ne-attestation/src/vcek.rs:439-440 | every error answered in a run is what the fetcher said to a fetch of that key made in the run |
| VcekCache.DeterministicIsTransparent | crates/ne-attestation/src/vcek.rs:402-442 | over a fetcher that always gives the same answers, every get answers as the fetcher does |
| VcekCache.NestingIsTransparent | crates/ne-attestation/src/vcek.rs:445-452 | a cache behind a cache gives the same answers and makes the same fetches as one cache, for any fetcher |
| VcekCache.NestedDeterministic | crates/ne-attestation/src/vcek.rs:445-452 | two caches in a row over a deterministic fetcher answer as the fetcher does |
| Tpm.AzureAkRsaModulus | crates/ne-attestation/src/lib.rs:740-819 | the parser with a moving offset computes the modulus of the specification |
| Tpm.AreaExact | crates/ne-attestation/src/lib.rs:740-819 | an input reads as a public area exactly when it is that area printed behind its exact length (section 12.2 of the TPM 2.0 Library, Part 2) |
| Tpm.ModulusExact | crates/ne-attestation/src/lib.rs:740-819 | a modulus is returned exactly when the input is the printed RSA-2048 area for it with some name algorithm, attributes, policy and exponent 0 or 65537 |
| Tpm.AttestReads | crates/ne-attestation/src/tpm_attest.rs:69-112 | type and extra data are recovered for every signer name and tail, from the raw form and behind any two size bytes |
| Tpm.ReadsAttest | crates/ne-attestation/src/tpm_attest.rs:69-112 | whatever is accepted is a printed quote, raw or behind two bytes, with that type and extra data (section 10.12 of the TPM 2.0 Library, Part 2) |
| Tpm.FormsAreDisjoint | crates/ne-attestation/src/tpm_attest.rs:70-82 | no message is both a raw quote and a size-prefixed one |
| Tpm.QuoteTypeIff | crates/ne-attestation/src/tpm_attest.rs:92-93 | the type is not checked: what is accepted is a printed structure of the quote type exactly when the two bytes behind the magic are 0x80 0x18 |
| Tpm.StripUnwraps | crates/ne-attestation/src/lib.rs:856-870 | a marshalled RSASSA-SHA256 signature is unwrapped to the raw signature, whatever follows it |
| Tpm.StripKeepsRaw | crates/ne-attestation/src/lib.rs:856-870 | any input that does not start with a complete marshalled signature is kept as it is |
| Attestation.StaleIff | crates/ne-attestation/src/lib.rs:510-513 | despite saturation, evidence is stale exactly when the mathematical distance of the times exceeds the window and the window is below 2^63 - 1 seconds, for all 64-bit times |
| Attestation.SaturationHidesStaleness | crates/ne-attestation/src/lib.rs:510-513 | the bound is needed: a distance above a window of 2^63 - 1 seconds that is accepted |
| Attestation.MaskIff | crates/ne-attestation/src/lib.rs:601-604 | the mask test passes exactly when every bit of the required policy is set in the report's policy |
| Attestation.EnvelopeIff | crates/ne-attestation/src/lib.rs:498-528 | the checks before the proof pass exactly when provider, nonce, measurement and time are as requested and the report data encodes exactly this statement |
| Attestation.FirstMissedRequirement | crates/ne-attestation/src/lib.rs:498-528 | evidence that is not as requested fails with the reason of the first requirement it misses, in mathematical terms and whatever its proof holds |
| Attestation.FirstMissedInProof | crates/ne-attestation/src/lib.rs:530-713 | evidence that is as requested fails with the reason of the first requirement its proof misses, for software, firmware and vTPM proofs, each list in mathematical terms: signer and signature; report data, certificate path, firmware signature and pins; anchoring, keys and quote |
| Attestation.FirmwareIff | crates/ne-attestation/src/lib.rs:595-617 | the firmware checks pass exactly when a signature path leads from the pinned root to the report and its fields meet the pins |
| Attestation.AnchoredIff | crates/ne-attestation/src/lib.rs:652-658 | the two anchoring checks pass exactly when the report data is the digest of the key description followed by 32 zero bytes |
| Attestation.QuoteIff | crates/ne-attestation/src/lib.rs:686-710 | the quote checks pass exactly when the key is a printed area holding the modulus named in the key description, the quote carries the digest of the report data, and it is signed by that key |
| Attestation.VerifiedIff | crates/ne-attestation/src/lib.rs:498-713 | evidence is verified exactly when it is as requested and its proof, of whichever kind, carries it to the pinned anchor |
| Binding.ReportDataBinds | crates/ne-attestation/src/lib.rs:517-528 | two verified evidences have equal report data exactly when they make the same statement |
| Binding.QuoteBinds | crates/ne-attestation/src/lib.rs:697-710 | two verified evidences with one quote message make the same statement, or their report data collide under SHA-256 |
| Binding.JsonQuoteBinds | crates/ne-attestation/src/lib.rs:697-710 | the same for the JSON encoding of statements, with the two colliding JSON texts named |
| Binding.ReportBinds | crates/ne-attestation/src/lib.rs:584-589 | two verified direct evidences with one signed report region make the same statement, or their report data collide under SHA-512 |
| Binding.QuoteKeyIsAnchored | crates/ne-attestation/src/lib.rs:686-694 | the quote key of a verified evidence is the one its anchored key description names |
| Binding.ReportBindsQuoteKey | crates/ne-attestation/src/lib.rs:652-694 | two verified evidences with one signed report region use one quote key, or their key descriptions collide under SHA-256 |
| Binding.TwoLayers | crates/ne-attestation/src/lib.rs:619-713 | a verified evidence has both layers: a path from the root to the report, the report committing to the key description, and that key signing a quote over the digest of exactly this statement |
| Binding.VerifiedQuoteTypeIff | crates/ne-attestation/src/lib.rs:697-710 | a verified evidence carries a structure of the quote type exactly when the two bytes behind the magic of its quote message say so |
| Providers.BlobRoundTrip | crates/ne-attestation/src/snp_source.rs:373-414 | the report and the key description are read back from the stored blob, for every header, request data and tail |
| Providers.BlobShape | crates/ne-attestation/src/snp_source.rs:373-414 | whatever both are extracted from has the stored layout, with exactly that report and key description |
| Providers.BuiltCertificateIsSigned | crates/ne-attestation/src/vcek.rs:225-259 | a certificate built from a region its issuer signed passes under that issuer's key |
| Providers.ReportIsEndorsed | crates/ne-attestation/src/vcek.rs:738-757 | every report that honest firmware lays out and signs is accepted with its certificates |
| Providers.SoftwareAnswers | crates/ne-attestation/src/lib.rs:367-389 | software evidence is always produced, copies workspace, measurement, nonce and time of the request, and signs the report data of exactly that statement |
| Providers.SevSnpAnswers | crates/ne-attestation/src/snp_source.rs:130-176 | firmware evidence is produced exactly when a report over the digest of that report data and its certificates can be had, and answers the request with them |
| Providers.AzureAnswers | crates/ne-attestation/src/snp_source.rs:196-240 | vTPM evidence is produced exactly when blob, report, key description, public area, quote over the digest and certificates can be had, and answers the request with them; otherwise the first of these that fails names the error |
| Providers.SoftwareComplete | crates/ne-attestation/src/lib.rs:367-389 | software evidence from an honest signer is about the requested workspace, measurement, nonce and time, and is verified when the mathematical distance of the times is within the window and stale otherwise |
| Providers.SevSnpComplete | crates/ne-attestation/src/snp_source.rs:130-176 | the same for evidence from honest firmware with the pins met, for every request and every pair of times |
| Providers.AzureEvidence | crates/ne-attestation/src/snp_source.rs:196-240 | over a booted vTPM the provider returns evidence for the statement with the request's workspace, measurement, nonce and the given time, made of its report, chain, key description, public area, quote message and signature over the attestation structure |
| Providers.AzureOutcome | crates/ne-attestation/src/snp_source.rs:196-240 | for every booted vTPM the evidence is stale outside the window, and inside it verified or an invalid quote according to whether the signature over the structure passes for the message |
| Providers.AzureComplete | crates/ne-attestation/src/snp_source.rs:196-240 | with the structure handed over as it is signed, the evidence is verified within the window and stale outside it |
| Providers.AzureVerifiedIff | crates/ne-attestation/src/lib.rs:697-710 | when the signature over a structure does not also pass for that structure behind a size, evidence is verified exactly when it is fresh and no size stands in front of the quote; with a size it is an invalid quote, although the parser accepts it |
| Providers.AnyTypeVerifies | crates/ne-attestation/src/tpm_attest.rs:42-45 | a vTPM that signs a structure which is not a quote yields evidence that is verified within the window |
| DnsFilter.ParseQuery | crates/ne-dns-filter/src/lib.rs:309-349 | the loop over positions returns the dotted name and type of the specification, refusing truncation, compression pointers, zero questions and labels that are not UTF-8 |
| DnsFilter.QueryReads | crates/ne-dns-filter/src/lib.rs:309-349 | a message with a complete first question yields its labels joined by dots and its type |
| DnsFilter.ReadsQuery | crates/ne-dns-filter/src/lib.rs:309-349 | only such messages are accepted (section 4.1.2 of RFC 1035) |
| DnsFilter.ProperPrefixRejected | crates/ne-dns-filter/src/lib.rs:309-349 | every proper prefix of a one-question message is refused |
| DnsNames.NewAllowlist | crates/ne-dns-filter/src/lib.rs:94-107 | the list holds exactly the non-empty normalized patterns |
| DnsNames.NormalizeMeans | crates/ne-dns-filter/src/lib.rs:135-139 | normalizing takes away white space around, then one leading `*.`, then all dots at the end, and lower-cases what is left |
| Text.TrimMeans | crates/ne-dns-filter/src/lib.rs:136 | trimming takes away white space at both ends, all of it and nothing else |
| DnsNames.TextSuffixIsLabelSuffix | crates/ne-dns-filter/src/lib.rs:112-117 | for dot-free labels, the name equalling a pattern or ending in a dot and the pattern is the same as the pattern's label list being a suffix of the labels |
| DnsNames.MatchesCovered | crates/ne-dns-filter/src/lib.rs:112-139 | for every name the textual test is label-wise suffix matching of the name's normalized text cut at its dots |
| DnsNames.AgreesIff | crates/ne-dns-filter/src/lib.rs:112-139 | for all non-empty labels, the textual test on the joined name is label-wise matching whatever the patterns exactly when normalizing the name leaves the lower-cased labels behind the last one that contains a dot |
| DnsNames.AgreesIffPlain | crates/ne-dns-filter/src/lib.rs:112-139 | for labels without dots inside, that is exactly when the name has no space at either end and the first of several labels is not a lone star |
| DnsNames.HostNamesAgree | crates/ne-dns-filter/src/lib.rs:112-139 | it is so for all letter, digit, hyphen and underscore labels |
| DnsNames.DottedLabelDisagrees | crates/ne-dns-filter/src/lib.rs:309-349 | and not for the single label `x.a`, which the pattern `a` matches as text but not as a label |
| DnsFilter.Craft | crates/ne-dns-filter/src/lib.rs:366-386 | rewriting in place keeps the identifier and everything from the question on, sets QR, clears TC and RA, keeps the other flags, stores the code and zeroes the record counts |
| DnsFilter.RcodeResponse | crates/ne-dns-filter/src/lib.rs:366-386 | a reply is crafted exactly for packets with a full header, and answers the query |
| DnsFilter.ReplyIsUnique | crates/ne-dns-filter/src/lib.rs:366-386 | that description determines the reply byte for byte |
| DnsFilter.ReplyKeepsQuestion | crates/ne-dns-filter/src/lib.rs:351-364 | a crafted reply parses to the same question, or like the query to none |
| DnsFilter.Handle | crates/ne-dns-filter/src/lib.rs:179-224 | a packet is forwarded exactly when it is allowed; it is answered with the resolver's answer, or with a name error when it is denied or no answer comes back, or with a format error when it is malformed, and recorded accordingly |
| DnsFilter.DecisionExact | crates/ne-dns-filter/src/lib.rs:179-224 | every complete question goes upstream exactly when some normalized pattern's label list is a suffix of the labels of its normalized name, and is otherwise denied |
| DnsFilter.DecidedByLabelsIff | crates/ne-dns-filter/src/lib.rs:179-224 | a complete question is decided by label-wise matching, whatever the patterns, exactly when normalizing its name leaves its lower-cased labels behind the last one with a dot inside |
| DnsFilter.HostQuestionsAreDecidedByLabels | crates/ne-dns-filter/src/lib.rs:179-224 | every question with letter, digit, hyphen and underscore labels goes upstream exactly when some normalized pattern's label list is a suffix of its lower-cased labels |
| IngressHost.HostRoundTrip | crates/ne-ingress/src/host.rs:38-64 | a printed host parses back to its port and workspace for every spelling of the domain's letters and with or without a port after a colon, for every domain without a colon or a trailing space |
| IngressHost.UnusableDomain | crates/ne-ingress/src/host.rs:38-50 | for any other domain no host at all is accepted, so that condition is exact |
| IngressHost.ParsesIff | crates/ne-ingress/src/host.rs:38-64 | a host is accepted with a port and a workspace exactly when it is some text the number parser reads as that port, a hyphen, the workspace, a dot and the domain up to letter case, without authority port and outer space |
| IngressHost.ParseU16Iff | crates/ne-ingress/src/host.rs:52-58 | a port text reads as n exactly when it is decimal digits of n, with leading zeros or one plus sign |
| IngressHost.MismatchIff | crates/ne-ingress/src/host.rs:38-50 | the domain does not match exactly when the host, without authority port and outer space, is not some text, a dot and the domain up to letter case |
| IngressRegistry.Registry.constructor | crates/ne-ingress/src/registry.rs:73-77 | a new registry has no workspace |
| IngressRegistry.Registry.UpsertWorkspace | crates/ne-ingress/src/registry.rs:85-91 | the workspace's routes are replaced, a later route for a port winning over an earlier one, and no other workspace changes |
| IngressRegistry.Registry.ExposePort | crates/ne-ingress/src/registry.rs:97-102 | one port is set on a registered workspace; an unknown workspace is an error and changes nothing |
| IngressRegistry.Registry.UnexposePort | crates/ne-ingress/src/registry.rs:109-114 | one port is withdrawn; an unknown workspace or port is an error and changes nothing |
| IngressRegistry.Registry.RemoveWorkspace | crates/ne-ingress/src/registry.rs:119-121 | exactly that workspace is dropped |
| IngressRegistry.Registry.Resolve | crates/ne-ingress/src/registry.rs:125-134 | a target is returned exactly when the workspace exposes the port |
| IngressRegistry.TableGuest | crates/ne-ingress/src/registry.rs:85-141 | a workspace is in the table, which is what the second lock asks, exactly when the history upserted it and has not removed it since, and its guest is that of the latest upsert |
| IngressRegistry.ResolveIsHistory | crates/ne-ingress/src/registry.rs:85-134 | resolving in the table gives what the history of operations says: the guest of the latest upsert, and the route last set for the port and neither withdrawn nor removed since |
| IngressRegistry.AnswerIsHistory | crates/ne-ingress/src/registry.rs:97-114 | exposing fails exactly for a workspace that the history does not leave registered; withdrawing also fails exactly for a port it does not leave exposed |
| IngressRouter.NextKeepsInv | crates/ne-ingress/src/router.rs:111-133 | every registry operation and every router step keeps that the decision so far is justified by the history at the resolve instant |
| IngressRouter.ReadHostIff | crates/ne-ingress/src/router.rs:111-122 | the Host header yields a port and a workspace exactly when it spells them; a foreign domain exactly when it has a dot and does not end in the domain; and otherwise it cannot be read |
| IngressRouter.DecisionsAreJustified | crates/ne-ingress/src/router.rs:111-133 | under every interleaving, a request is allowed exactly when at the resolve instant the history left that port exposed on a guest in 169.254.0.0/16, denied by the address guard exactly when on any other guest, denied as unreadable or foreign exactly when the host is, and denied for an unknown workspace or unexposed port exactly when there was no route then |
| IngressRouter.ReasonIsExactIff | crates/ne-ingress/src/router.rs:125-131 | over every run that ends in a denial for a missing route, the reason is the one at the resolve instant exactly when the last upsert or removal of the workspace between the two locks, if any, left it registered or unregistered as it was |
| IngressRouter.ReasonCanBeStale | crates/ne-ingress/src/router.rs:125-131 | with an operation in between it need not be: a run that is denied as an unexposed port although the workspace was unknown when resolved and the port is exposed when the reason is chosen |
| CappedReader.ReadCapped | crates/ne-guest-agent/src/linux_main.rs:51-76 | however the stream is cut into reads, the first min(cap, total) bytes are kept, truncation is reported exactly when there were more, every read up to the end is made, and a failed read is an error |
| CappedReader.StreamOfChunks | crates/ne-guest-agent/src/linux_main.rs:51-76 | cutting bytes into any non-empty chunks delivers exactly those bytes |

## Left out

- gRPC and REST handlers, TLS loading, the CLI's file handling, the image builder and SDK configuration: plumbing.
- Cryptographic algorithms, Base64, JWK and X.509 key decoding: arbitrary functions of the model.
- The `/dev/sev-guest` ioctl, `tpm2` processes, certificate download, vsock and the file system: parameters of the model.
- The mapping of HTTP error responses to client errors (`crates/ne-api/src/fleet_client.rs:529-590`) and error-code tables: case tables; the loop is proved for every client error.
- Names of audit event types and providers beyond those used here: an event type is represented by its wire name.
- Floating-point numbers in audit payloads: payload numbers are integers.
- UTF-8 validation, Unicode case folding and Unicode white space: host names, patterns and domains are treated as ASCII, and the validity test of DNS labels is an arbitrary predicate.
- The serialization failure of `canonical_bytes`: it cannot occur for events of this form, so its two branches in the chain loop have no counterpart.
- Blank lines in the audit log file, which the CLI skips: no run produces one.
- A torn write that splits a multi-byte character: the source then fails to open the log, where the model passes over the line; the log is refused either way.
- The privacy router, capacity accounting, workspace lifecycle and snapshots: separate subsystems.
- Header rewriting in the ingress proxy: field copying.
- The manifest's signer, time and version fields: copied on export and compared with nothing.
- AuditLog.RecoverHead: reopening computes the next index modulo 2^64, as a release build does; a debug build would stop at the last index instead.
- FleetLoop.RunFleetLoop: a shutdown during a sleep or a snapshot ends the list of inputs; a shutdown while a reply is awaited is the reply `Cancelled`.
- FleetClient.FleetLoopState.PollIteration: includes the capacity check that the loop makes on each snapshot.
- DnsFilter.ParseQuery: reads the class field only as two bytes that must be present, as the source does.
- Der.SplitConcatDer: lengths are unbounded integers, so the overflow test on 64-bit positions has no counterpart; it cannot trigger for lengths below 2^32.
