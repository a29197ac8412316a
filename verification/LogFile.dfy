/** The audit log file: one event per line, what readers make of it, and what torn writes do to it. */
module LogFile {
  import opened Prelude
  import opened Json
  import opened JsonLex
  import opened AuditEvents

  // ---------------------------------------------------------------- lines

  /** The lines that end in a newline, and what follows the last newline. */
  datatype Lines = Lines(ended: seq<Bytes>, tail: Bytes) {
    /** What a reader sees one after another. */
    function Texts(): seq<Bytes> { if tail == [] then ended else ended + [tail] }
  }

  function SplitLines(file: Bytes): Lines {
    if file == [] then Lines([], [])
    else
      var before, last := SplitLines(file[..|file| - 1]), file[|file| - 1];
      if last == NEWLINE then Lines(before.ended + [before.tail], [])
      else Lines(before.ended, before.tail + [last])
  }

  /** Appending text without a newline extends the unfinished line. */
  lemma {:induction false} SplitExtend(file: Bytes, text: Bytes)
    requires NEWLINE !in text
    ensures SplitLines(file + text) == Lines(SplitLines(file).ended, SplitLines(file).tail + text)
    decreases |text|
  {
    var prior := SplitLines(file);
    if text == [] {
      assert file + text == file && prior.tail + text == prior.tail;
    } else {
      var front, last := text[..|text| - 1], text[|text| - 1];
      SplitExtend(file, front);
      assert (file + text)[..|file + text| - 1] == file + front;
      assert prior.tail + front + [last] == prior.tail + text;
    }
  }

  /** Appending text and a newline finishes the line. */
  lemma SplitFinish(file: Bytes, text: Bytes)
    requires 10 !in text
    ensures SplitLines(file + (text + [10])) ==
            Lines(SplitLines(file).ended + [SplitLines(file).tail + text], [])
  {
    var all := file + (text + [NEWLINE]);
    assert all[..|all| - 1] == file + text && all[|all| - 1] == NEWLINE;
    SplitExtend(file, text);
  }

  // ---------------------------------------------------------------- events as lines

  /** The text of an event in the log, without its newline. */
  function EventText(e: AuditEvent): Bytes { Print(Object(EventFields(e))) }

  lemma EventTextInjective(a: AuditEvent, b: AuditEvent)
    requires EventText(a) == EventText(b)
    ensures a == b
  {
    PrintInjective(Object(EventFields(a)), Object(EventFields(b)));
    var x, y := EventFields(a), EventFields(b);
    assert x[0] == y[0] && x[1] == y[1] && x[2] == y[2] && x[3] == y[3] && x[4] == y[4];
    assert x[5] == y[5] && x[6] == y[6] && x[7] == y[7] && x[8] == y[8];
  }

  /** A reader of one line: it reads what was written, and accepts nothing but complete objects or arrays
      (blanks around them do not matter). */
  ghost predicate Reads(read: Bytes -> Option<AuditEvent>) {
    && (forall e :: read(EventText(e)) == Some(e))
    && (forall t: Bytes :: read(t).Some? ==> Scan(Start, t) == Done)
  }

  /** The reader that accepts printed events only. */
  ghost function Strict(t: Bytes): (r: Option<AuditEvent>)
    ensures r.Some? ==> EventText(r.value) == t
    ensures r.None? ==> forall e: AuditEvent :: EventText(e) != t
  {
    if e: AuditEvent :| EventText(e) == t then Some(e) else None
  }

  lemma EventTextCompletes(e: AuditEvent)
    ensures Scan(Start, EventText(e)) == Done
  {
    hide Print;
    ObjectCompletes(EventFields(e), |EventText(e)|);
    assert EventText(e)[..|EventText(e)|] == EventText(e);
  }

  type Reader = read: Bytes -> Option<AuditEvent> | Reads(read)
    ghost witness (StrictReads(); Strict)

  lemma StrictReads()
    ensures Reads(Strict)
  {
    hide EventText;
    forall e ensures Strict(EventText(e)) == Some(e) {
      EventTextInjective(e, Strict(EventText(e)).value);
    }
    forall t: Bytes | Strict(t).Some? ensures Scan(Start, t) == Done {
      EventTextCompletes(Strict(t).value);
    }
  }

  /** All events of a file, if every line can be read. */
  function ReadAll(read: Bytes -> Option<AuditEvent>, texts: seq<Bytes>): Option<seq<AuditEvent>> {
    if texts == [] then Some([])
    else
      var front :- ReadAll(read, texts[..|texts| - 1]);
      var last :- read(texts[|texts| - 1]);
      Some(front + [last])
  }

  /** The events of the lines that can be read; the other lines are skipped. */
  function Readable(read: Bytes -> Option<AuditEvent>, texts: seq<Bytes>): seq<AuditEvent> {
    if texts == [] then []
    else
      var last := read(texts[|texts| - 1]);
      Readable(read, texts[..|texts| - 1]) + if last.Some? then [last.value] else []
  }

  function EventTexts(es: seq<AuditEvent>): (r: seq<Bytes>)
    ensures |r| == |es| && forall i :: 0 <= i < |es| ==> r[i] == EventText(es[i])
  {
    seq(|es|, i requires 0 <= i < |es| => EventText(es[i]))
  }

  lemma {:induction false} WrittenIsRead(read: Reader, es: seq<AuditEvent>)
    ensures ReadAll(read, EventTexts(es)) == Some(es) && Readable(read, EventTexts(es)) == es
    decreases |es|
  {
    hide EventText;
    if es != [] {
      var front := es[..|es| - 1];
      WrittenIsRead(read, front);
      assert EventTexts(es)[..|es| - 1] == EventTexts(front);
      assert es == front + [es[|es| - 1]];
    }
  }

  /** One line that cannot be read makes the whole file unreadable. */
  lemma {:induction false} UnreadableLine(read: Bytes -> Option<AuditEvent>, texts: seq<Bytes>, i: nat)
    requires i < |texts| && read(texts[i]).None?
    ensures ReadAll(read, texts).None?
    decreases |texts|
  {
    if i < |texts| - 1 {
      UnreadableLine(read, texts[..|texts| - 1], i);
    }
  }

  /** What is read from a file starts with what is read from its front. */
  lemma {:induction false} ReadPrefix(read: Bytes -> Option<AuditEvent>, texts: seq<Bytes>, n: nat)
    requires n <= |texts| && ReadAll(read, texts).Some?
    ensures ReadAll(read, texts[..n]).Some? && ReadAll(read, texts[..n]).value <= ReadAll(read, texts).value
    decreases |texts|
  {
    if n == |texts| {
      assert texts[..n] == texts;
    } else {
      var front := texts[..|texts| - 1];
      ReadPrefix(read, front, n);
      assert front[..n] == texts[..n];
    }
  }

  // ---------------------------------------------------------------- torn lines

  /** No text that follows on the same line can make it readable. */
  predicate Stuck(s: State) { AtLeast(s, 1) }

  lemma TextStarts(e: AuditEvent)
    ensures |EventText(e)| > 3 && EventText(e)[..3] == [OPEN_BRACE, QUOTE, 101]
  {
    hide Print;
    hide Quoted;
    var ms := EventFields(e);
    var key := ms[0].key;
    assert |key| == 8 && key[0] == 101;
    MembersStart(ms);
    QuotedStarts(key);
    ThirdByte(EventText(e), Quoted(key));
  }

  lemma ThirdByte(text: Bytes, q: Bytes)
    requires |q| > 2 && q[..2] == [QUOTE, 101] && |text| > 1 + |q| && text[0] == OPEN_BRACE && text[1..1 + |q|] == q
    ensures text[..3] == [OPEN_BRACE, QUOTE, 101]
  {
    assert text[1] == text[1..1 + |q|][0] == q[..2][0];
    assert text[2] == text[1..1 + |q|][1] == q[..2][1];
  }

  lemma MembersStart(ms: seq<Member>)
    requires ms != []
    ensures |Print(Object(ms))| > 1 + |Quoted(ms[0].key)| && Print(Object(ms))[0] == OPEN_BRACE
    ensures Print(Object(ms))[1..1 + |Quoted(ms[0].key)|] == Quoted(ms[0].key)
  {
    var more := [COLON] + Print(ms[0].value);
    var rest := PrintMembers(ms[1..], false);
    MembersFirst(ms);
    hide Print, Quoted, PrintMembers;
    StartsAt(Quoted(ms[0].key), more, rest);
  }

  lemma MembersFirst(ms: seq<Member>)
    requires ms != []
    ensures Print(Object(ms)) ==
            [OPEN_BRACE] + ([] + (Quoted(ms[0].key) + ([COLON] + Print(ms[0].value))) + PrintMembers(ms[1..], false))
  {
    hide Quoted;
    assert PrintMembers(ms, true) == [] + PrintMember(ms[0]) + PrintMembers(ms[1..], false);
  }

  lemma StartsAt(q: Bytes, more: Bytes, rest: Bytes)
    requires more != []
    ensures var all: Bytes := [OPEN_BRACE] + ([] + (q + more) + rest);
            |all| > 1 + |q| && all[0] == OPEN_BRACE && all[1..1 + |q|] == q
  {
  }

  lemma QuotedStarts(key: Bytes)
    requires key != [] && EscapeByte(key[0]) == [key[0]]
    ensures |Quoted(key)| > 2 && Quoted(key)[..2] == [QUOTE, key[0]]
  {
    assert Escape(key) == [key[0]] + Escape(key[1..]);
  }

  lemma InsideString(s: State, p: Bytes)
    requires p != [] && (s.In? || s.Esc?) && s.depth >= 1
    requires p <= [OPEN_BRACE, QUOTE, 101] || [OPEN_BRACE, QUOTE, 101] <= p
    ensures Stuck(Scan(s, p))
  {
    var d := s.depth;
    assert p[0] == OPEN_BRACE && Step(s, OPEN_BRACE) == In(d);
    var p1 := p[1..];
    assert Scan(s, p) == Scan(In(d), p1);
    if p1 != [] {
      assert p1[0] == QUOTE && Step(In(d), QUOTE) == Closed(d);
      var p2 := p1[1..];
      assert Scan(In(d), p1) == Scan(Closed(d), p2);
      if p2 != [] {
        assert p2[0] == 101 && Step(Closed(d), 101) == Bad;
        assert Scan(Closed(d), p2) == Scan(Bad, p2[1..]);
        BadStays(p2[1..]);
      }
    }
  }

  lemma {:induction false} BadStays(t: Bytes)
    ensures Scan(Bad, t) == Bad
    decreases |t|
  {
    if t != [] {
      BadStays(t[1..]);
    }
  }

  /** An event, or the beginning of one, written behind an unfinished line or behind a complete event on
      the same line leaves that line unreadable for good. */
  lemma TornStays(s: State, e: AuditEvent, n: nat)
    requires (Stuck(s) || s == Done) && 0 < n <= |EventText(e)|
    ensures Stuck(Scan(s, EventText(e)[..n]))
  {
    hide EventText;
    var p := EventText(e)[..n];
    TextStarts(e);
    assert p[0] == OPEN_BRACE by {
      assert EventText(e)[..3][0] == OPEN_BRACE;
    }
    match s
    case Bad => BadStays(p);
    case Done => BadStays(p[1..]);
    case Closed(_) => BadStays(p[1..]);
    case Out(d) => TornOutside(e, n, d);
    case In(_) =>
      PrefixStarts(EventText(e), n);
      InsideString(s, p);
    case Esc(_) =>
      PrefixStarts(EventText(e), n);
      InsideString(s, p);
  }

  lemma PrefixStarts(text: Bytes, n: nat)
    requires 0 < n <= |text| && |text| > 3
    ensures text[..n] <= text[..3] || text[..3] <= text[..n]
  {
  }

  lemma TornOutside(e: AuditEvent, n: nat, d: nat)
    requires d >= 1 && n <= |EventText(e)|
    ensures Stuck(Scan(Out(d), EventText(e)[..n]))
  {
    hide Print;
    ObjectInside(EventFields(e), n, d);
  }

  lemma FirstText(e: AuditEvent, n: nat)
    requires 0 < n < |EventText(e)|
    ensures Stuck(Scan(Start, EventText(e)[..n]))
  {
    hide Print;
    ObjectCompletes(EventFields(e), n);
  }

  lemma StuckIsUnreadable(read: Reader, t: Bytes)
    requires Stuck(Scan(Start, t))
    ensures read(t).None?
  {
  }

  lemma TextIsOneLine(e: AuditEvent)
    ensures NEWLINE !in EventText(e) && EventText(e) != []
  {
    PrintHasNoNewline(Object(EventFields(e)));
  }
}
