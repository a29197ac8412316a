/** The supervisor's signing log: emission, recovery of the chain head on reopening, and what every
    run of the two leaves on disk. */
module AuditLog {
  import opened Prelude
  import opened Json
  import opened AuditEvents
  import opened Crypto
  import opened ChainSkeleton
  import opened AuditChain
  import opened JsonLex
  import opened LogFile

  /** A signing key: its public half as text, and signing as text. */
  datatype Signer = Signer(pubkey_b64: Bytes, sign_b64: Bytes -> Bytes)

  /** The signer's key decodes and everything it signs verifies under that key. */
  ghost predicate Honest(v: Verifier, k: Signer)
  {
    && DecodesTo(v, k.pubkey_b64, 32)
    && v.p.ed25519Key(v.p.base64Decode(k.pubkey_b64).value)
    && forall m: Bytes :: DecodesTo(v, k.sign_b64(m), 64) &&
         v.p.ed25519Verify(v.p.base64Decode(k.pubkey_b64).value, m, v.p.base64Decode(k.sign_b64(m)).value)
  }

  /** Where the next event attaches. */
  datatype Head = Head(next_index: u64, last_canonical: Option<Bytes>)

  /** What the caller and the clock supply for one event. */
  datatype Entry =
    Entry(event_id: Bytes, timestamp_ms: u64, event_type: Bytes, workspace_id: Option<Bytes>, payload: Value)

  function PrevHash(v: Verifier, h: Head): Bytes {
    match h.last_canonical
    case None => GENESIS_PREV_HASH
    case Some(bytes) => Hex(v.p.sha256(bytes))
  }

  function Unsigned(v: Verifier, k: Signer, h: Head, x: Entry): AuditEvent {
    AuditEvent(x.event_id, x.timestamp_ms, x.event_type, x.workspace_id, x.payload,
               h.next_index, PrevHash(v, h), [], k.pubkey_b64)
  }

  function SignedEvent(v: Verifier, k: Signer, h: Head, x: Entry): AuditEvent {
    var e := Unsigned(v, k, h, x);
    e.(signature_b64 := k.sign_b64(v.canonical(e)))
  }

  function SaturatingNext(n: u64): u64 { if n == U64_MAX then n else n + 1 }

  /** The head that a log determines: one past the index of its last event. */
  function RecoveredHead(v: Verifier, log: seq<AuditEvent>): Head {
    if log == [] then Head(0, None)
    else
      var last := log[|log| - 1];
      Head((last.chain_index + 1) % 0x1_0000_0000_0000_0000, Some(v.canonical(last)))
  }

  // ---------------------------------------------------------------- writing

  /** What a failed write left in the file: nothing, a piece of the event's text, the text without its
      newline, or all of it. */
  datatype Stored = Nothing | Torn(n: nat) | Unterminated | WholeLine

  datatype Write = Written | Failed(stored: Stored)

  function CutAt(n: nat, length: nat): (r: nat)
    requires length > 1
    ensures 0 < r < length
  {
    if n == 0 then 1 else if n >= length then length - 1 else n
  }

  /** The bytes that reach the file. */
  function Reached(text: Bytes, w: Write): Bytes
    requires |text| > 1
  {
    match w
    case Written => text + [NEWLINE]
    case Failed(Nothing) => []
    case Failed(Torn(n)) => text[..CutAt(n, |text|)]
    case Failed(Unterminated) => text
    case Failed(WholeLine) => text + [NEWLINE]
  }

  datatype LogState = LogState(file: Bytes, head: Head)

  function AfterEmit(v: Verifier, k: Signer, s: LogState, x: Entry, w: Write): LogState {
    var e := SignedEvent(v, k, s.head, x);
    TextStarts(e);
    LogState(s.file + Reached(EventText(e), w),
             if w.Written? then Head(SaturatingNext(s.head.next_index), Some(v.canonical(Unsigned(v, k, s.head, x))))
             else s.head)
  }

  /** The head after reopening: lines that cannot be read are skipped. */
  function Reopened(v: Verifier, read: Reader, file: Bytes): Head {
    RecoveredHead(v, Readable(read, SplitLines(file).Texts()))
  }

  /** The log file together with the head kept in memory. */
  class Log {
    const verifier: Verifier
    const signer: Signer
    var next_index: u64
    var last_canonical: Option<Bytes>
    var file: Bytes

    function State(): LogState
      reads this
    {
      LogState(file, Head(next_index, last_canonical))
    }

    /** Opens an existing log. */
    constructor (v: Verifier, k: Signer, read: Reader, onDisk: Bytes)
      ensures verifier == v && signer == k
      ensures State() == LogState(onDisk, Reopened(v, read, onDisk))
    {
      verifier := v;
      signer := k;
      file := onDisk;
      var head := RecoverHead(v, read, onDisk);
      next_index := head.next_index;
      last_canonical := head.last_canonical;
    }

    /** Signs and appends one event.  The head moves on only when the write succeeds, whatever a failed
        one has left in the file. */
    method Emit(x: Entry, w: Write) returns (r: Result<u64, ()>)
      modifies this
      ensures State() == AfterEmit(verifier, signer, old(State()), x, w)
      ensures r == if w.Written? then Ok(old(next_index)) else Err(())
      ensures next_index == if w.Written? then Min(old(next_index) + 1, 0xFFFF_FFFF_FFFF_FFFF) else old(next_index)
    {
      hide EventText;
      hide Reached;
      var chain_index := next_index;
      var prev_hash_hex :=
        match last_canonical
        case None => GENESIS_PREV_HASH
        case Some(bytes) => Hex(verifier.p.sha256(bytes));
      var event := AuditEvent(x.event_id, x.timestamp_ms, x.event_type, x.workspace_id, x.payload,
                              chain_index, prev_hash_hex, [], signer.pubkey_b64);
      var toSign := verifier.canonical(event);
      event := event.(signature_b64 := signer.sign_b64(toSign));
      TextStarts(event);
      file := file + Reached(EventText(event), w);
      if w.Failed? {
        return Err(());
      }
      next_index := if chain_index == U64_MAX then chain_index else chain_index + 1;
      last_canonical := Some(toSign);
      r := Ok(chain_index);
    }
  }

  function IndexOfLast(events: seq<AuditEvent>): Option<u64> {
    if events == [] then None else Some(events[|events| - 1].chain_index)
  }

  function CanonicalOfLast(v: Verifier, events: seq<AuditEvent>): Option<Bytes> {
    if events == [] then None else Some(v.canonical(events[|events| - 1]))
  }

  /** Reads the file line by line; lines that cannot be read are passed over. */
  method RecoverHead(v: Verifier, read: Reader, file: Bytes) returns (head: Head)
    ensures head == Reopened(v, read, file)
  {
    var lastIndex: Option<u64> := None;
    var lastCanonical: Option<Bytes> := None;
    var pos := 0;
    ghost var seen: seq<AuditEvent> := [];
    NothingRead(read, file);
    hide SplitLines;
    hide Readable;
    while pos < |file|
      invariant pos <= |file| && (pos == |file| || SplitLines(file[..pos]).tail == [])
      invariant seen == Readable(read, SplitLines(file[..pos]).Texts())
      invariant lastIndex == IndexOfLast(seen) && lastCanonical == CanonicalOfLast(v, seen)
    {
      var line, next := NextLine(file, pos);
      ReadableSnoc(read, SplitLines(file[..pos]).Texts(), line);
      var event := read(line);
      if event.Some? {
        lastIndex := Some(event.value.chain_index);
        lastCanonical := Some(v.canonical(event.value));
        seen := seen + [event.value];
      } else {
        assert seen + [] == seen;
      }
      pos := next;
    }
    assert file[..pos] == file;
    head := Head(if lastIndex.None? then 0 else (lastIndex.value + 1) % 0x1_0000_0000_0000_0000, lastCanonical);
  }

  lemma NothingRead(read: Bytes -> Option<AuditEvent>, file: Bytes)
    ensures SplitLines(file[..0]).tail == [] && Readable(read, SplitLines(file[..0]).Texts()) == []
  {
  }

  /** The line at a position where a line begins, and the position behind it. */
  method NextLine(file: Bytes, pos: nat) returns (line: Bytes, next: nat)
    requires pos < |file| && SplitLines(file[..pos]).tail == []
    ensures pos < next <= |file| && (next == |file| || SplitLines(file[..next]).tail == [])
    ensures SplitLines(file[..next]).Texts() == SplitLines(file[..pos]).Texts() + [line]
  {
    hide SplitLines;
    var end := pos;
    while end < |file| && file[end] != NEWLINE
      invariant pos <= end <= |file| && NEWLINE !in file[pos..end]
    {
      assert file[pos..end + 1] == file[pos..end] + [file[end]];
      end := end + 1;
    }
    line := file[pos..end];
    if end < |file| {
      LineEnds(file, pos, end);
      next := end + 1;
    } else {
      assert file[pos..end] == file[pos..];
      LineIsLast(file, pos);
      next := end;
    }
  }

  lemma LineEnds(file: Bytes, pos: nat, end: nat)
    requires pos <= end < |file| && SplitLines(file[..pos]).tail == []
    requires file[end] == NEWLINE && NEWLINE !in file[pos..end]
    ensures SplitLines(file[..end + 1]).tail == []
    ensures SplitLines(file[..end + 1]).Texts() == SplitLines(file[..pos]).Texts() + [file[pos..end]]
  {
    hide SplitLines;
    var line := file[pos..end];
    assert file[..end + 1] == file[..pos] + (line + [NEWLINE]);
    SplitFinish(file[..pos], line);
    assert [] + line == line;
  }

  lemma LineIsLast(file: Bytes, pos: nat)
    requires pos < |file| && SplitLines(file[..pos]).tail == [] && NEWLINE !in file[pos..]
    ensures SplitLines(file[..|file|]).Texts() == SplitLines(file[..pos]).Texts() + [file[pos..]]
  {
    hide SplitLines;
    var line := file[pos..];
    assert file[..|file|] == file[..pos] + line;
    SplitExtend(file[..pos], line);
    assert [] + line == line;
  }

  lemma ReadableSnoc(read: Bytes -> Option<AuditEvent>, texts: seq<Bytes>, line: Bytes)
    ensures Readable(read, texts + [line]) ==
            Readable(read, texts) + if read(line).Some? then [read(line).value] else []
  {
    assert (texts + [line])[..|texts|] == texts;
  }

  // ---------------------------------------------------------------- runs

  /** One step of the host: emit (with whatever key is configured), or restart and reopen. */
  datatype Op = Emit(k: Signer, x: Entry, w: Write) | Reopen

  function Step(v: Verifier, read: Reader, s: LogState, op: Op): LogState {
    match op
    case Emit(k, x, w) => AfterEmit(v, k, s, x, w)
    case Reopen => LogState(s.file, Reopened(v, read, s.file))
  }

  function Run(v: Verifier, read: Reader, ops: seq<Op>): LogState {
    if ops == [] then LogState([], Head(0, None))
    else Step(v, read, Run(v, read, ops[..|ops| - 1]), ops[|ops| - 1])
  }

  ghost predicate HonestRun(v: Verifier, ops: seq<Op>)
  {
    forall i :: 0 <= i < |ops| && ops[i].Emit? ==> Honest(v, ops[i].k)
  }

  /** The file can be read as a whole and its events verify. */
  predicate Verifies(v: Verifier, read: Reader, file: Bytes) {
    var events := ReadAll(read, SplitLines(file).Texts());
    events.Some? && Verification(v, events.value).ok
  }

  const CAPACITY: nat := 0x1_0000_0000_0000_0000

  // ---------------------------------------------------------------- what a run asks for

  /** The step leaves something in the file. */
  predicate Stores(op: Op) { op.Emit? && op.w != Failed(Nothing) }

  predicate Tears(op: Op) { op.Emit? && op.w.Failed? && op.w.stored.Torn? }

  /** The step stores an event that the head does not know of. */
  predicate Hides(op: Op) { op.Emit? && op.w == Failed(WholeLine) }

  /** The step leaves an event without its newline. */
  predicate Opens(op: Op) { op.Emit? && op.w == Failed(Unterminated) }

  /** The steps that leave something in the file, in order. */
  function StoredOps(ops: seq<Op>): seq<Op> {
    if ops == [] then []
    else StoredOps(ops[..|ops| - 1]) + if Stores(ops[|ops| - 1]) then [ops[|ops| - 1]] else []
  }

  function StoredCount(ops: seq<Op>): nat { |StoredOps(ops)| }

  ghost predicate ReopenBetween(ops: seq<Op>, i: int, j: int) {
    exists r :: 0 <= i < r < j <= |ops| && ops[r].Reopen?
  }

  /** No write was torn; an event stored by a failed write is found by reopening before anything else is
      stored; and nothing is stored behind an event without its newline. */
  ghost predicate Intact(ops: seq<Op>) {
    && (forall i :: 0 <= i < |ops| ==> !Tears(ops[i]))
    && (forall i, j :: 0 <= i < j < |ops| && Hides(ops[i]) && Stores(ops[j]) ==> ReopenBetween(ops, i, j))
    && (forall i, j :: 0 <= i < j < |ops| && Opens(ops[i]) ==> !Stores(ops[j]))
  }

  ghost predicate Hidden(ops: seq<Op>) {
    exists i :: 0 <= i < |ops| && Hides(ops[i]) && !ReopenBetween(ops, i, |ops|)
  }

  ghost predicate Open(ops: seq<Op>) { exists i :: 0 <= i < |ops| && Opens(ops[i]) }

  lemma BetweenSnoc(ops: seq<Op>, op: Op, i: int, j: int)
    requires 0 <= i < j <= |ops|
    ensures ReopenBetween(ops + [op], i, j) <==> ReopenBetween(ops, i, j)
    ensures ReopenBetween(ops + [op], i, |ops| + 1) <==> ReopenBetween(ops, i, |ops|) || (i < |ops| && op.Reopen?)
  {
    var more := ops + [op];
    assert more[|ops|] == op;
    if ReopenBetween(ops, i, j) {
      var r :| 0 <= i < r < j <= |ops| && ops[r].Reopen?;
      assert more[r].Reopen?;
    }
    if ReopenBetween(ops, i, |ops|) {
      var r :| 0 <= i < r < |ops| && ops[r].Reopen?;
      assert more[r].Reopen?;
    }
  }

  lemma HiddenSnoc(ops: seq<Op>, op: Op)
    ensures Hidden(ops + [op]) <==> Hides(op) || (Hidden(ops) && !op.Reopen?)
  {
    var more := ops + [op];
    assert more[|ops|] == op;
    forall i | 0 <= i < |ops|
      ensures more[i] == ops[i]
      ensures ReopenBetween(more, i, |more|) <==> ReopenBetween(ops, i, |ops|) || op.Reopen?
    {
      BetweenSnoc(ops, op, i, |ops|);
    }
    assert !ReopenBetween(more, |ops|, |more|);
    if Hidden(ops) && !op.Reopen? {
      var i :| 0 <= i < |ops| && Hides(ops[i]) && !ReopenBetween(ops, i, |ops|);
      assert Hides(more[i]);
    }
    if Hides(op) {
      assert Hides(more[|ops|]);
    }
  }

  lemma OpenSnoc(ops: seq<Op>, op: Op)
    ensures Open(ops + [op]) <==> Opens(op) || Open(ops)
  {
    var more := ops + [op];
    assert more[|ops|] == op;
    if Open(ops) {
      var i :| 0 <= i < |ops| && Opens(ops[i]);
      assert Opens(more[i]);
    }
  }

  lemma IntactFront(ops: seq<Op>, op: Op)
    requires Intact(ops + [op])
    ensures Intact(ops) && !Tears(op) && (Stores(op) ==> !Hidden(ops) && !Open(ops))
  {
    var more := ops + [op];
    assert more[|ops|] == op && forall i :: 0 <= i < |ops| ==> more[i] == ops[i];
    forall i, j | 0 <= i < j < |ops| && Hides(ops[i]) && Stores(ops[j]) ensures ReopenBetween(ops, i, j) {
      assert Hides(more[i]) && Stores(more[j]);
      BetweenSnoc(ops, op, i, j);
    }
    if Stores(op) {
      forall i | 0 <= i < |ops| && Hides(ops[i]) ensures ReopenBetween(ops, i, |ops|) {
        assert Hides(more[i]) && Stores(more[|ops|]);
        BetweenSnoc(ops, op, i, |ops|);
      }
      assert Stores(more[|ops|]);
      forall i | 0 <= i < |ops| ensures !Opens(ops[i]) {
        assert Opens(more[i]) == Opens(ops[i]);
      }
    }
  }

  lemma IntactExtends(ops: seq<Op>, op: Op)
    requires Intact(ops) && !Tears(op) && (Stores(op) ==> !Hidden(ops) && !Open(ops))
    ensures Intact(ops + [op])
  {
    var more := ops + [op];
    assert more[|ops|] == op && forall i :: 0 <= i < |ops| ==> more[i] == ops[i];
    forall i, j | 0 <= i < j < |more| && Hides(more[i]) && Stores(more[j]) ensures ReopenBetween(more, i, j) {
      assert Hides(ops[i]);
      BetweenSnoc(ops, op, i, j);
    }
    forall i, j | 0 <= i < j < |more| && Opens(more[i]) ensures !Stores(more[j]) {
      assert Opens(ops[i]);
    }
  }

  // ---------------------------------------------------------------- sound files

  /** The file holds exactly these events, which form a chain from index 0; the head is the one they
      determine, or still that of the last of them while it is hidden. */
  ghost predicate Holds(v: Verifier, s: LogState, es: seq<AuditEvent>, hidden: bool, open: bool) {
    && SplitLines(s.file).Texts() == EventTexts(es)
    && (SplitLines(s.file).tail != [] <==> open)
    && ValidChain(v, es) && (es != [] ==> es[0].chain_index == 0) && |es| <= CAPACITY
    && (hidden ==> es != [] && s.head.next_index == es[|es| - 1].chain_index)
    && (!hidden && !open && |es| < CAPACITY ==> s.head == RecoveredHead(v, es))
  }

  /** What an honest signer signs carries its signature, and signing does not change what is signed. */
  lemma SignedIsAuthentic(v: Verifier, k: Signer, head: Head, x: Entry)
    requires Honest(v, k)
    ensures var e := SignedEvent(v, k, head, x);
            Authentic(v, e) && v.canonical(e) == v.canonical(Unsigned(v, k, head, x))
  {
    assert SameSigned(SignedEvent(v, k, head, x), Unsigned(v, k, head, x));
  }

  lemma HeadFits(v: Verifier, head: Head, es: seq<AuditEvent>)
    requires ValidChain(v, es) && (es != [] ==> es[0].chain_index == 0) && |es| < CAPACITY
    requires head == RecoveredHead(v, es)
    ensures head.next_index == |es|
    ensures PrevHash(v, head) == if es == [] then GENESIS_PREV_HASH else LinkHash(v, es[|es| - 1])
    ensures es != [] ==> es[|es| - 1].chain_index + 1 == |es|
  {
    if es != [] {
      VerifiedIffValid(v, es);
      LastIndex(v, es);
    }
  }

  lemma SignedEventFits(v: Verifier, k: Signer, head: Head, es: seq<AuditEvent>, x: Entry)
    requires Honest(v, k) && ValidChain(v, es) && (es != [] ==> es[0].chain_index == 0) && |es| < CAPACITY
    requires head == RecoveredHead(v, es)
    ensures var e := SignedEvent(v, k, head, x);
            && ValidChain(v, es + [e]) && (es + [e])[0].chain_index == 0 && e.chain_index == head.next_index
            && v.canonical(e) == v.canonical(Unsigned(v, k, head, x))
            && (|es| + 1 < CAPACITY ==>
                  Head(SaturatingNext(head.next_index), Some(v.canonical(e))) == RecoveredHead(v, es + [e]))
  {
    hide ValidChain;
    hide Authentic;
    hide Honest;
    hide LinkHash;
    hide PrevHash;
    SignedIsAuthentic(v, k, head, x);
    HeadFits(v, head, es);
    AppendValid(v, es, SignedEvent(v, k, head, x));
  }

  lemma AppendValid(v: Verifier, s: seq<AuditEvent>, e: AuditEvent)
    requires ValidChain(v, s) && Authentic(v, e)
    requires s != [] ==> Follows(v, s[|s| - 1], e)
    requires s == [] ==> e.prev_hash_hex == GENESIS_PREV_HASH
    ensures ValidChain(v, s + [e])
  {
  }

  lemma LinesAfter(file: Bytes, e: AuditEvent, w: Write)
    requires |EventText(e)| > 1
    ensures var lines, text := SplitLines(file), EventText(e);
            SplitLines(file + Reached(text, w)) ==
            match w
            case Written => Lines(lines.ended + [lines.tail + text], [])
            case Failed(Nothing) => lines
            case Failed(Torn(n)) => Lines(lines.ended, lines.tail + text[..CutAt(n, |text|)])
            case Failed(Unterminated) => Lines(lines.ended, lines.tail + text)
            case Failed(WholeLine) => Lines(lines.ended + [lines.tail + text], [])
  {
    hide EventText;
    hide SplitLines;
    var text := EventText(e);
    TextIsOneLine(e);
    match w
    case Written => SplitFinish(file, text);
    case Failed(Nothing) => assert file + [] == file;
    case Failed(Torn(n)) => SplitExtend(file, text[..CutAt(n, |text|)]);
    case Failed(Unterminated) => SplitExtend(file, text);
    case Failed(WholeLine) => SplitFinish(file, text);
  }

  lemma EventTextsSnoc(es: seq<AuditEvent>, e: AuditEvent)
    ensures EventTexts(es + [e]) == EventTexts(es) + [EventText(e)]
  {
    hide EventText;
  }

  lemma StoreHolds(v: Verifier, k: Signer, s: LogState, es: seq<AuditEvent>, x: Entry, w: Write)
    requires Holds(v, s, es, false, false) && Honest(v, k) && |es| < CAPACITY
    requires w != Failed(Nothing) && !(w.Failed? && w.stored.Torn?)
    ensures Holds(v, AfterEmit(v, k, s, x, w), es + [SignedEvent(v, k, s.head, x)],
                  w == Failed(WholeLine), w == Failed(Unterminated))
  {
    hide EventText;
    hide SplitLines;
    hide Reached;
    hide RecoveredHead;
    hide ValidChain;
    hide SignedEvent;
    hide Unsigned;
    var e := SignedEvent(v, k, s.head, x);
    TextStarts(e);
    SignedEventFits(v, k, s.head, es, x);
    LinesAfter(s.file, e, w);
    EventTextsSnoc(es, e);
    assert [] + EventText(e) == EventText(e);
  }

  lemma ReopenHolds(v: Verifier, read: Reader, s: LogState, es: seq<AuditEvent>, hidden: bool, open: bool)
    requires Holds(v, s, es, hidden, open)
    ensures Holds(v, LogState(s.file, Reopened(v, read, s.file)), es, false, open)
  {
    hide EventText;
    hide SplitLines;
    hide RecoveredHead;
    hide ValidChain;
    WrittenIsRead(read, es);
  }

  // ---------------------------------------------------------------- lost files

  /** Why a file will never verify again: an ended line that cannot be read, an unfinished line that
      cannot become readable, or events that do not form a chain (in ended lines, or up to an event
      without its newline). */
  datatype Loss = BadLine(i: nat) | StuckTail | BadFront(es: seq<AuditEvent>) | BadEnd(es: seq<AuditEvent>)

  ghost predicate LostBy(v: Verifier, read: Reader, lines: Lines, why: Loss) {
    match why
    case BadLine(i) => i < |lines.ended| && read(lines.ended[i]).None?
    case StuckTail => lines.tail != [] && Stuck(Scan(Start, lines.tail))
    case BadFront(es) => EventTexts(es) <= lines.ended && !ValidChain(v, es)
    case BadEnd(es) => lines.Texts() == EventTexts(es) && lines.tail != [] && !ValidChain(v, es)
  }

  ghost predicate Lost(v: Verifier, read: Reader, file: Bytes) { exists why :: LostBy(v, read, SplitLines(file), why) }

  lemma PrefixValid(v: Verifier, a: seq<AuditEvent>, b: seq<AuditEvent>)
    requires a <= b && ValidChain(v, b)
    ensures ValidChain(v, a)
  {
    forall i, j | 0 <= i < j < |a| && j == i + 1 ensures Follows(v, a[i], a[j]) {
      assert Follows(v, b[i], b[j]);
    }
  }

  lemma LostFails(v: Verifier, read: Reader, lines: Lines, why: Loss)
    requires LostBy(v, read, lines, why)
    ensures var events := ReadAll(read, lines.Texts()); events.None? || !Verification(v, events.value).ok
  {
    hide EventText;
    hide ValidChain;
    hide Verification;
    var texts := lines.Texts();
    if ReadAll(read, texts).Some? {
      VerifiedIffValid(v, ReadAll(read, texts).value);
    }
    match why
    case BadLine(i) => UnreadableLine(read, texts, i);
    case StuckTail =>
      StuckIsUnreadable(read, lines.tail);
      UnreadableLine(read, texts, |lines.ended|);
    case BadEnd(es) => WrittenIsRead(read, es);
    case BadFront(es) =>
      WrittenIsRead(read, es);
      if ReadAll(read, texts).Some? {
        assert texts[..|es|] == EventTexts(es);
        ReadPrefix(read, texts, |es|);
        if ValidChain(v, ReadAll(read, texts).value) {
          PrefixValid(v, es, ReadAll(read, texts).value);
        }
      }
  }

  /** Text behind an unfinished line, or behind an event without its newline, leaves a lost file. */
  lemma MergedIsLost(v: Verifier, read: Reader, file: Bytes, e: AuditEvent, w: Write)
    requires |EventText(e)| > 1 && w != Failed(Nothing)
    requires var s := Scan(Start, SplitLines(file).tail);
             SplitLines(file).tail != [] && (Stuck(s) || s == Done)
    ensures Lost(v, read, file + Reached(EventText(e), w))
  {
    hide EventText;
    hide SplitLines;
    hide Reached;
    var lines, text := SplitLines(file), EventText(e);
    var n := match w case Failed(Torn(n)) => CutAt(n, |text|) case _ => |text|;
    LinesAfter(file, e, w);
    TornStays(Scan(Start, lines.tail), e, n);
    ScanConcat(Start, lines.tail, text[..n]);
    assert text[..|text|] == text;
    var after := SplitLines(file + Reached(text, w));
    if w == Written || w == Failed(WholeLine) {
      StuckIsUnreadable(read, lines.tail + text);
      assert after.ended[|lines.ended|] == lines.tail + text;
      assert LostBy(v, read, after, BadLine(|lines.ended|));
    } else {
      assert LostBy(v, read, after, StuckTail);
    }
  }

  lemma LastTextIsDone(es: seq<AuditEvent>, lines: Lines)
    requires lines.Texts() == EventTexts(es) && lines.tail != []
    ensures es != [] && Scan(Start, lines.tail) == Done
  {
    hide EventText;
    assert lines.Texts()[|lines.ended|] == lines.tail;
    EventTextCompletes(es[|es| - 1]);
  }

  /** A lost file stays lost, whatever is written behind it. */
  lemma LostStays(v: Verifier, read: Reader, file: Bytes, e: AuditEvent, w: Write)
    requires Lost(v, read, file) && |EventText(e)| > 1
    ensures Lost(v, read, file + Reached(EventText(e), w))
  {
    hide EventText;
    hide SplitLines;
    hide Reached;
    hide ValidChain;
    var lines := SplitLines(file);
    var why :| LostBy(v, read, lines, why);
    LinesAfter(file, e, w);
    var after := SplitLines(file + Reached(EventText(e), w));
    if w == Failed(Nothing) {
      assert LostBy(v, read, after, why);
    } else if why.StuckTail? {
      MergedIsLost(v, read, file, e, w);
    } else if why.BadEnd? {
      LastTextIsDone(why.es, lines);
      MergedIsLost(v, read, file, e, w);
    } else {
      assert lines.ended <= after.ended;
      assert LostBy(v, read, after, why);
    }
  }

  lemma TornIsLost(v: Verifier, read: Reader, file: Bytes, e: AuditEvent, n: nat)
    requires |EventText(e)| > 1 && SplitLines(file).tail == []
    ensures Lost(v, read, file + Reached(EventText(e), Failed(Torn(n))))
  {
    hide EventText;
    hide SplitLines;
    hide Reached;
    var text := EventText(e);
    LinesAfter(file, e, Failed(Torn(n)));
    FirstText(e, CutAt(n, |text|));
    assert [] + text[..CutAt(n, |text|)] == text[..CutAt(n, |text|)];
    assert LostBy(v, read, SplitLines(file + Reached(text, Failed(Torn(n)))), StuckTail);
  }

  /** An event that does not continue the chain loses the file. */
  lemma MisfitIsLost(v: Verifier, read: Reader, file: Bytes, es: seq<AuditEvent>, e: AuditEvent, w: Write)
    requires |EventText(e)| > 1 && w != Failed(Nothing) && !(w.Failed? && w.stored.Torn?)
    requires SplitLines(file).tail == [] && SplitLines(file).Texts() == EventTexts(es)
    requires es != [] && !Follows(v, es[|es| - 1], e)
    ensures Lost(v, read, file + Reached(EventText(e), w))
  {
    hide EventText;
    hide SplitLines;
    hide Reached;
    hide Follows;
    var text := EventText(e);
    var all := es + [e];
    var after := SplitLines(file + Reached(text, w));
    LinesAfter(file, e, w);
    EventTextsSnoc(es, e);
    assert [] + text == text;
    assert all[|es| - 1] == es[|es| - 1] && all[|es|] == e;
    assert !ValidChain(v, all);
    if w == Failed(Unterminated) {
      assert LostBy(v, read, after, BadEnd(all));
    } else {
      assert LostBy(v, read, after, BadFront(all));
    }
  }

  /** From a sound file: tearing a write, or storing anything while the last event is hidden, unterminated
      or the last that can be numbered, loses the file. */
  lemma StoreLoses(v: Verifier, read: Reader, k: Signer, s: LogState, es: seq<AuditEvent>, x: Entry, w: Write,
                   hidden: bool, open: bool)
    requires Holds(v, s, es, hidden, open) && w != Failed(Nothing)
    requires (w.Failed? && w.stored.Torn?) || hidden || open || |es| == CAPACITY
    ensures Lost(v, read, AfterEmit(v, k, s, x, w).file)
  {
    hide EventText;
    hide SplitLines;
    hide Reached;
    hide RecoveredHead;
    var e := SignedEvent(v, k, s.head, x);
    TextStarts(e);
    if open {
      LastTextIsDone(es, SplitLines(s.file));
      MergedIsLost(v, read, s.file, e, w);
    } else if w.Failed? && w.stored.Torn? {
      TornIsLost(v, read, s.file, e, w.stored.n);
    } else {
      VerifiedIffValid(v, es);
      LastIndex(v, es);
      MisfitIsLost(v, read, s.file, es, e, w);
    }
  }

  // ---------------------------------------------------------------- every run

  /** The event is the one emitted by `op`, under its key, as number `k`. */
  predicate CarriesEntry(e: AuditEvent, op: Op, k: nat) {
    && op.Emit?
    && e.event_id == op.x.event_id
    && e.timestamp_ms == op.x.timestamp_ms
    && e.event_type == op.x.event_type
    && e.workspace_id == op.x.workspace_id
    && e.payload == op.x.payload
    && e.signer_pubkey_b64 == op.k.pubkey_b64
    && e.chain_index == k
  }

  /** Event by event, what the storing steps emitted. */
  predicate CarriesEntries(es: seq<AuditEvent>, stored: seq<Op>) {
    |es| == |stored| && forall k :: 0 <= k < |es| ==> CarriesEntry(es[k], stored[k], k)
  }

  lemma SignedCarries(v: Verifier, s: LogState, es: seq<AuditEvent>, op: Op)
    requires Holds(v, s, es, false, false) && |es| < CAPACITY && op.Emit?
    ensures CarriesEntry(SignedEvent(v, op.k, s.head, op.x), op, |es|)
  {
    hide SplitLines, ValidChain, RecoveredHead, EventTexts;
    HeadFits(v, s.head, es);
  }

  /** A run keeps the file sound exactly as long as it is intact and indices last. */
  ghost predicate Sound(v: Verifier, s: LogState, ops: seq<Op>) {
    exists es :: CarriesEntries(es, StoredOps(ops)) && Holds(v, s, es, Hidden(ops), Open(ops))
  }

  lemma StepSound(v: Verifier, read: Reader, s: LogState, ops: seq<Op>, op: Op)
    requires Sound(v, s, ops) && (op.Emit? ==> Honest(v, op.k)) && StoredCount(ops) <= CAPACITY && Intact(ops)
    ensures var more := ops + [op];
            if Intact(more) && StoredCount(more) <= CAPACITY then Sound(v, Step(v, read, s, op), more)
            else Lost(v, read, Step(v, read, s, op).file)
  {
    hide Holds;
    hide Hidden;
    hide Open;
    hide Intact;
    hide Lost;
    hide Honest;
    hide Reopened;
    hide SignedEvent;
    hide EventText;
    hide Reached;
    hide CarriesEntry;
    var es :| CarriesEntries(es, StoredOps(ops)) && Holds(v, s, es, Hidden(ops), Open(ops));
    var more := ops + [op];
    assert more[..|ops|] == ops;
    HiddenSnoc(ops, op);
    OpenSnoc(ops, op);
    if Intact(more) {
      IntactFront(ops, op);
    } else if !Tears(op) && (Stores(op) ==> !Hidden(ops) && !Open(ops)) {
      IntactExtends(ops, op);
    }
    if op.Reopen? {
      ReopenHolds(v, read, s, es, Hidden(ops), Open(ops));
      assert Holds(v, Step(v, read, s, op), es, Hidden(more), Open(more));
    } else if !Stores(op) {
      SameFile(v, op.k, s, op.x);
      assert Holds(v, Step(v, read, s, op), es, Hidden(more), Open(more));
    } else {
      hide AfterEmit;
      StoreStep(v, read, s, es, op, Hidden(ops), Open(ops));
      if !(Tears(op) || Hidden(ops) || Open(ops) || |es| == CAPACITY) {
        var e := SignedEvent(v, op.k, s.head, op.x);
        assert Holds(v, Step(v, read, s, op), es + [e], Hidden(more), Open(more));
        AtMostCapacity(v, s, es, false, false);
        SignedCarries(v, s, es, op);
        assert StoredOps(more) == StoredOps(ops) + [op];
        assert CarriesEntries(es + [e], StoredOps(more));
      }
    }
  }

  lemma StoreStep(v: Verifier, read: Reader, s: LogState, es: seq<AuditEvent>, op: Op, hidden: bool, open: bool)
    requires Holds(v, s, es, hidden, open) && Stores(op) && Honest(v, op.k)
    ensures var t := Step(v, read, s, op);
            if Tears(op) || hidden || open || |es| == CAPACITY then Lost(v, read, t.file)
            else Holds(v, t, es + [SignedEvent(v, op.k, s.head, op.x)], Hides(op), Opens(op))
  {
    hide Lost;
    hide AfterEmit;
    if Tears(op) || hidden || open || |es| == CAPACITY {
      StoreLoses(v, read, op.k, s, es, op.x, op.w, hidden, open);
    } else {
      AtMostCapacity(v, s, es, hidden, open);
      hide Holds;
      StoreHolds(v, op.k, s, es, op.x, op.w);
    }
  }

  lemma AtMostCapacity(v: Verifier, s: LogState, es: seq<AuditEvent>, hidden: bool, open: bool)
    requires Holds(v, s, es, hidden, open)
    ensures |es| <= CAPACITY
  {
  }

  lemma SameFile(v: Verifier, k: Signer, s: LogState, x: Entry)
    ensures AfterEmit(v, k, s, x, Failed(Nothing)) == s
  {
    assert s.file + [] == s.file;
  }

  lemma LostStep(v: Verifier, read: Reader, s: LogState, op: Op)
    requires Lost(v, read, s.file)
    ensures Lost(v, read, Step(v, read, s, op).file)
  {
    hide EventText;
    hide Reached;
    hide Lost;
    if op.Emit? {
      TextStarts(SignedEvent(v, op.k, s.head, op.x));
      LostStays(v, read, s.file, SignedEvent(v, op.k, s.head, op.x), op.w);
    }
  }

  lemma {:induction false} RunSoundOrLost(v: Verifier, read: Reader, ops: seq<Op>)
    requires HonestRun(v, ops)
    ensures if Intact(ops) && StoredCount(ops) <= CAPACITY then Sound(v, Run(v, read, ops), ops)
            else Lost(v, read, Run(v, read, ops).file)
    decreases |ops|
  {
    hide Sound;
    hide Lost;
    hide Intact;
    if ops == [] {
      StartIsSound(v, read);
    } else {
      var front, op := ops[..|ops| - 1], ops[|ops| - 1];
      assert ops == front + [op];
      RunSoundOrLost(v, read, front);
      if Intact(front) && StoredCount(front) <= CAPACITY {
        StepSound(v, read, Run(v, read, front), front, op);
      } else {
        LostStep(v, read, Run(v, read, front), op);
        if Intact(ops) {
          IntactFront(front, op);
        }
      }
    }
  }

  lemma StartIsSound(v: Verifier, read: Reader)
    ensures Sound(v, Run(v, read, []), []) && Intact([])
  {
    assert EventTexts([]) == [];
    assert Holds(v, Run(v, read, []), [], Hidden([]), Open([]));
  }

  /** Over every run of emissions, writes that fail with anything from nothing to the whole line stored,
      key changes and restarts: the log verifies exactly when no write was torn, every event stored by a
      failed write was found by reopening before anything else was stored, nothing was stored behind an
      event without its newline, and at most 2^64 events were stored. */
  lemma EveryRunVerifies(v: Verifier, read: Reader, ops: seq<Op>)
    requires HonestRun(v, ops)
    ensures Verifies(v, read, Run(v, read, ops).file) <==>
            Intact(ops) && StoredCount(ops) <= 0x1_0000_0000_0000_0000
  {
    hide Intact;
    hide Verification;
    var s := Run(v, read, ops);
    RunSoundOrLost(v, read, ops);
    if Intact(ops) && StoredCount(ops) <= CAPACITY {
      var es :| CarriesEntries(es, StoredOps(ops)) && Holds(v, s, es, Hidden(ops), Open(ops));
      WrittenIsRead(read, es);
      VerifiedIffValid(v, es);
    } else {
      var why :| LostBy(v, read, SplitLines(s.file), why);
      LostFails(v, read, SplitLines(s.file), why);
    }
  }

  /** What such a log holds: as many events as were stored, each with the index, the key and the five fields of
      the emission that stored it. */
  lemma EntriesAreReadBack(v: Verifier, read: Reader, ops: seq<Op>)
    requires HonestRun(v, ops) && Intact(ops) && StoredCount(ops) <= 0x1_0000_0000_0000_0000
    ensures var events := ReadAll(read, SplitLines(Run(v, read, ops).file).Texts());
            events.Some? && CarriesEntries(events.value, StoredOps(ops))
  {
    hide Intact, CarriesEntry, ValidChain, EventText, RecoveredHead, SplitLines;
    RunSoundOrLost(v, read, ops);
    var es :| CarriesEntries(es, StoredOps(ops)) && Holds(v, Run(v, read, ops), es, Hidden(ops), Open(ops));
    WrittenIsRead(read, es);
  }

  /** A write that fails after storing the line makes the next emission reuse its index, and the log does
      not verify; with a restart in between it does. */
  lemma StoredButReportedFailed(v: Verifier, read: Reader, k: Signer, x: Entry, y: Entry)
    requires Honest(v, k)
    ensures !Verifies(v, read, Run(v, read, [Emit(k, x, Failed(WholeLine)), Emit(k, y, Written)]).file)
    ensures Verifies(v, read, Run(v, read, [Emit(k, x, Failed(WholeLine)), Reopen, Emit(k, y, Written)]).file)
  {
    hide Verifies;
    hide Run;
    var first, second := Emit(k, x, Failed(WholeLine)), Emit(k, y, Written);
    var bad, good := [first, second], [first, Reopen, second];
    EveryRunVerifies(v, read, bad);
    EveryRunVerifies(v, read, good);
    assert Hides(bad[0]) && Stores(bad[1]) && !ReopenBetween(bad, 0, 1);
    RestoredIsIntact(first, second);
  }

  lemma RestoredIsIntact(first: Op, second: Op)
    requires Hides(first) && second.Emit? && second.w == Written
    ensures Intact([first, Reopen, second]) && StoredCount([first, Reopen, second]) <= CAPACITY
  {
    var ops := [first, Reopen, second];
    assert ops[1].Reopen? && ReopenBetween(ops, 0, 2);
    CountAtMost(ops);
  }

  lemma {:induction false} CountAtMost(ops: seq<Op>)
    ensures StoredCount(ops) <= |ops|
    decreases |ops|
  {
    if ops != [] {
      CountAtMost(ops[..|ops| - 1]);
    }
  }
}

/** Exported logs and the manifest that pins them. */
module AuditExport {
  import opened Prelude
  import opened Json
  import opened AuditEvents
  import opened ChainSkeleton
  import opened AuditChain

  datatype Manifest = Manifest(
    count: nat, first_index: Option<u64>, last_index: Option<u64>, root_hex: Option<Bytes>, verified: bool)

  /** Exporting refuses an empty log, and a broken one unless told otherwise. */
  function Export(v: Verifier, events: seq<AuditEvent>, allowBroken: bool): Option<Manifest> {
    var r := Verification(v, events);
    if events == [] || (!r.ok && !allowBroken) then None
    else Some(Manifest(r.count, r.first_index, r.last_index, r.root_hex, r.ok))
  }

  /** Re-verification of a log against an optional manifest. */
  predicate Accepts(v: Verifier, events: seq<AuditEvent>, manifest: Option<Manifest>) {
    var r := Verification(v, events);
    && r.ok
    && (manifest.Some? ==>
          && manifest.value.root_hex == r.root_hex
          && manifest.value.count == r.count
          && manifest.value.first_index == r.first_index
          && manifest.value.last_index == r.last_index)
  }

  /** An export is made of every log but the empty one and, unless told otherwise, invalid ones; the manifest
      describes exactly the events exported. */
  lemma ExportIff(v: Verifier, events: seq<AuditEvent>, allowBroken: bool, m: Manifest)
    ensures Export(v, events, allowBroken) == Some(m) <==>
            && events != [] && (ValidChain(v, events) || allowBroken)
            && m.count == |events| && (m.verified <==> ValidChain(v, events))
            && m.first_index == Some(events[0].chain_index)
            && m.last_index == Some(events[|events| - 1].chain_index)
            && m.root_hex == (if m.verified then Some(Hex(v.p.sha256(v.canonical(events[|events| - 1])))) else None)
  {
    hide Verification, ValidChain, Hex;
    VerifiedIffValid(v, events);
    VerificationReports(v, events);
  }

  /** A log is accepted exactly when it is a valid chain and, with a manifest, when that describes it. */
  lemma AcceptsIff(v: Verifier, events: seq<AuditEvent>, m: Manifest)
    ensures Accepts(v, events, None) <==> ValidChain(v, events)
    ensures Accepts(v, events, Some(m)) <==>
            && ValidChain(v, events)
            && m.count == |events|
            && m.first_index == (if events == [] then None else Some(events[0].chain_index))
            && m.last_index == (if events == [] then None else Some(events[|events| - 1].chain_index))
            && m.root_hex == (if events == [] then None
                              else Some(Hex(v.p.sha256(v.canonical(events[|events| - 1])))))
  {
    hide Verification, ValidChain, Hex;
    VerifiedIffValid(v, events);
    VerificationReports(v, events);
  }

  /** A manifest admits one log: whatever is accepted against it is the exported log, event for
      event up to signatures, or collides with it. */
  lemma ManifestPinsLog(v: Verifier, exported: seq<AuditEvent>, allowBroken: bool, events: seq<AuditEvent>)
    requires Export(v, exported, allowBroken).Some?
    requires Accepts(v, events, Export(v, exported, allowBroken))
    ensures Verification(v, exported).ok
    ensures SameEvents(exported, events) || CollisionBetween(v, exported, events)
  {
    RootOnlyWhenClean(v, exported);
    RootOnlyWhenClean(v, events);
    RootAndStartPinLog(v, exported, events);
  }

  lemma RootOnlyWhenClean(v: Verifier, s: seq<AuditEvent>)
    ensures Verification(v, s).root_hex.Some? <==> s != [] && Verification(v, s).ok
    ensures Verification(v, s).count == |s|
    ensures s != [] ==> Verification(v, s).first_index == Some(s[0].chain_index)
  {
  }

  lemma SuffixKeepsRoot(v: Verifier, s: seq<AuditEvent>, k: nat)
    requires Verification(v, s).ok && 0 < k < |s|
    ensures Verification(v, s[k..]).ok && Verification(v, s[k..]).root_hex == Verification(v, s).root_hex
  {
    assert Skeleton(v, s[k..]) == Skeleton(v, s)[k..];
    SuffixVerdict(Skeleton(v, s), k);
  }

  /** The root alone does not show that the front is complete: every non-empty suffix of a verified
      log verifies with the same root.  The manifest does show it. */
  lemma FrontTruncation(v: Verifier, s: seq<AuditEvent>, k: nat, allowBroken: bool)
    requires Verification(v, s).ok && 0 < k < |s|
    ensures Verification(v, s[k..]).root_hex == Verification(v, s).root_hex
    ensures Accepts(v, s[k..], None) && !Accepts(v, s[k..], Export(v, s, allowBroken))
  {
    SuffixKeepsRoot(v, s, k);
  }
}
