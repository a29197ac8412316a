/** A scanner that tells where strings and brackets begin and end, and what it says of printed values.

    It accepts more than JSON.  That is enough to recognise text that no JSON reader can accept: text
    that is cut off, and text that goes on after it was complete. */
module JsonLex {
  import opened Prelude
  import opened Json

  /** Outside or inside a string at some bracket depth, after a backslash, behind a closing quote, behind
      the last closing bracket, or beyond repair. */
  datatype State = Start | Out(depth: nat) | In(depth: nat) | Esc(depth: nat) | Closed(depth: nat) | Done | Bad

  predicate IsBlank(b: byte) { b == 32 || b == 9 || b == 10 || b == 13 }

  predicate Opens(b: byte) { b == OPEN_BRACE || b == OPEN_BRACKET }

  predicate Closes(b: byte) { b == CLOSE_BRACE || b == CLOSE_BRACKET }

  function Close(d: nat): State { if d <= 1 then Done else Out(d - 1) }

  function Step(s: State, b: byte): State {
    match s
    case Start => if IsBlank(b) then Start else if Opens(b) then Out(1) else Bad
    case Out(d) =>
      if b == QUOTE then In(d) else if Opens(b) then Out(d + 1) else if Closes(b) then Close(d) else Out(d)
    case In(d) => if b == QUOTE then Closed(d) else if b == BACKSLASH then Esc(d) else In(d)
    case Esc(d) => In(d)
    case Closed(d) =>
      if IsBlank(b) then Closed(d)
      else if b == COMMA || b == COLON then Out(d)
      else if Closes(b) then Close(d)
      else Bad
    case Done => if IsBlank(b) then Done else Bad
    case Bad => Bad
  }

  function Scan(s: State, t: Bytes): State
    decreases |t|
  {
    if t == [] then s else Scan(Step(s, t[0]), t[1..])
  }

  lemma {:induction false} ScanConcat(s: State, a: Bytes, b: Bytes)
    ensures Scan(s, a + b) == Scan(Scan(s, a), b)
    decreases |a|
  {
    if a == [] {
      assert a + b == b;
    } else {
      assert (a + b)[1..] == a[1..] + b;
      ScanConcat(Step(s, a[0]), a[1..], b);
    }
  }

  lemma ScanOne(s: State, b: byte)
    ensures Scan(s, [b]) == Step(s, b)
  {
  }

  /** Beyond repair, or inside at least `d` brackets. */
  predicate AtLeast(s: State, d: nat) {
    s.Bad? || ((s.Out? || s.In? || s.Esc? || s.Closed?) && s.depth >= d)
  }

  /** Every proper prefix leaves the scanner inside at least `d` brackets. */
  ghost predicate Within(s: State, t: Bytes, d: nat) {
    forall n :: 0 <= n < |t| ==> AtLeast(Scan(s, t[..n]), d)
  }

  lemma WithinConcat(s: State, a: Bytes, b: Bytes, d: nat)
    requires Within(s, a, d) && Within(Scan(s, a), b, d)
    ensures Within(s, a + b, d)
  {
    forall n | 0 <= n < |a + b| ensures AtLeast(Scan(s, (a + b)[..n]), d) {
      if n < |a| {
        assert (a + b)[..n] == a[..n];
      } else {
        assert (a + b)[..n] == a + b[..n - |a|];
        ScanConcat(s, a, b[..n - |a|]);
      }
    }
  }

  lemma WithinOne(s: State, b: byte, d: nat)
    requires AtLeast(s, d)
    ensures Within(s, [b], d)
  {
    assert forall n :: 0 <= n < 1 ==> [b][..n] == [];
  }

  /** From `s` the text leads to `s'` and stays inside at least `d` brackets on the way. */
  ghost predicate Leads(s: State, t: Bytes, s': State, d: nat) { Scan(s, t) == s' && Within(s, t, d) }

  lemma LeadsConcat(s: State, a: Bytes, mid: State, b: Bytes, s': State, d: nat)
    requires Leads(s, a, mid, d) && Leads(mid, b, s', d)
    ensures Leads(s, a + b, s', d)
  {
    ScanConcat(s, a, b);
    WithinConcat(s, a, b, d);
  }

  lemma LeadsOne(s: State, b: byte, d: nat)
    requires AtLeast(s, d)
    ensures Leads(s, [b], Step(s, b), d)
  {
    ScanOne(s, b);
    WithinOne(s, b, d);
  }

  // ---------------------------------------------------------------- printed values

  predicate Neutral(t: Bytes) {
    forall i :: 0 <= i < |t| ==> t[i] != QUOTE && !Opens(t[i]) && !Closes(t[i])
  }

  lemma {:induction false} NeutralLeads(t: Bytes, d: nat)
    requires Neutral(t)
    ensures Leads(Out(d), t, Out(d), d)
    decreases |t|
  {
    if t != [] {
      LeadsOne(Out(d), t[0], d);
      NeutralLeads(t[1..], d);
      LeadsConcat(Out(d), [t[0]], Out(d), t[1..], Out(d), d);
      assert t == [t[0]] + t[1..];
    }
  }

  lemma EscapeByteLeads(b: byte, d: nat)
    ensures Leads(In(d), EscapeByte(b), In(d), d)
  {
    var e := EscapeByte(b);
    if |e| == 1 {
      assert e == [e[0]];
      LeadsOne(In(d), e[0], d);
    } else {
      LeadsOne(In(d), BACKSLASH, d);
      LeadsOne(Esc(d), e[1], d);
      LeadsConcat(In(d), [BACKSLASH], Esc(d), [e[1]], In(d), d);
      assert e[..2] == [BACKSLASH] + [e[1]];
      if |e| == 2 {
        assert e == e[..2];
      } else {
        PlainLeads(e[2..], d);
        LeadsConcat(In(d), e[..2], In(d), e[2..], In(d), d);
        assert e == e[..2] + e[2..];
      }
    }
  }

  lemma {:induction false} PlainLeads(t: Bytes, d: nat)
    requires forall i :: 0 <= i < |t| ==> t[i] != QUOTE && t[i] != BACKSLASH
    ensures Leads(In(d), t, In(d), d)
    decreases |t|
  {
    if t != [] {
      LeadsOne(In(d), t[0], d);
      PlainLeads(t[1..], d);
      LeadsConcat(In(d), [t[0]], In(d), t[1..], In(d), d);
      assert t == [t[0]] + t[1..];
    }
  }

  lemma {:induction false} EscapeLeads(s: Bytes, d: nat)
    ensures Leads(In(d), Escape(s), In(d), d)
    decreases |s|
  {
    if s != [] {
      EscapeByteLeads(s[0], d);
      EscapeLeads(s[1..], d);
      LeadsConcat(In(d), EscapeByte(s[0]), In(d), Escape(s[1..]), In(d), d);
    }
  }

  lemma QuotedLeads(s: Bytes, d: nat)
    ensures Leads(Out(d), Quoted(s), Closed(d), d)
  {
    LeadsOne(Out(d), QUOTE, d);
    EscapeLeads(s, d);
    LeadsConcat(Out(d), [QUOTE], In(d), Escape(s), In(d), d);
    LeadsOne(In(d), QUOTE, d);
    LeadsConcat(Out(d), [QUOTE] + Escape(s), In(d), [QUOTE], Closed(d), d);
  }

  /** Behind a value: outside a string, or behind its closing quote. */
  function After(v: Value, d: nat): State { if v.String? then Closed(d) else Out(d) }

  lemma IntegerIsNeutral(n: int)
    ensures Neutral(Integer(n))
  {
  }

  lemma {:induction false} ValueLeads(v: Value, d: nat)
    requires d >= 1
    ensures Leads(Out(d), Print(v), After(v, d), d)
    decreases v, 1
  {
    match v
    case Null => NeutralLeads(Print(v), d);
    case Bool(_) => NeutralLeads(Print(v), d);
    case Number(n) =>
      IntegerIsNeutral(n);
      NeutralLeads(Print(v), d);
    case String(s) => QuotedLeads(s, d);
    case Array(items) =>
      LeadsOne(Out(d), OPEN_BRACKET, d);
      ItemsLead(items, true, Out(d + 1), d + 1);
      Loosen(Out(d + 1), PrintItems(items, true), Close(d + 1), d + 1, d);
      LeadsConcat(Out(d), [OPEN_BRACKET], Out(d + 1), PrintItems(items, true), Out(d), d);
    case Object(members) =>
      LeadsOne(Out(d), OPEN_BRACE, d);
      MembersLead(members, true, Out(d + 1), d + 1);
      Loosen(Out(d + 1), PrintMembers(members, true), Close(d + 1), d + 1, d);
      LeadsConcat(Out(d), [OPEN_BRACE], Out(d + 1), PrintMembers(members, true), Out(d), d);
  }

  lemma Loosen(s: State, t: Bytes, s': State, d: nat, less: nat)
    requires Leads(s, t, s', d) && less <= d
    ensures Leads(s, t, s', less)
  {
  }

  predicate Settled(s: State, first: bool, d: nat) { s == Out(d) || (!first && s == Closed(d)) }

  lemma SeparatorLeads(first: bool, s: State, d: nat)
    requires Settled(s, first, d)
    ensures Leads(s, if first then [] else [COMMA], Out(d), d)
  {
    if !first {
      LeadsOne(s, COMMA, d);
    }
  }

  lemma {:induction false} ItemsLead(items: seq<Value>, first: bool, s: State, d: nat)
    requires d >= 1 && Settled(s, first, d)
    ensures Leads(s, PrintItems(items, first), Close(d), d)
    decreases items, 0
  {
    if items == [] {
      LeadsOne(s, CLOSE_BRACKET, d);
    } else {
      var separator: Bytes := if first then [] else [COMMA];
      var after := After(items[0], d);
      SeparatorLeads(first, s, d);
      ValueLeads(items[0], d);
      LeadsConcat(s, separator, Out(d), Print(items[0]), after, d);
      ItemsLead(items[1..], false, after, d);
      LeadsConcat(s, separator + Print(items[0]), after, PrintItems(items[1..], false), Close(d), d);
    }
  }

  lemma {:induction false} MemberLeads(m: Member, d: nat)
    requires d >= 1
    ensures Leads(Out(d), PrintMember(m), After(m.value, d), d)
    decreases m, 0
  {
    QuotedLeads(m.key, d);
    LeadsOne(Closed(d), COLON, d);
    LeadsConcat(Out(d), Quoted(m.key), Closed(d), [COLON], Out(d), d);
    ValueLeads(m.value, d);
    LeadsConcat(Out(d), Quoted(m.key) + [COLON], Out(d), Print(m.value), After(m.value, d), d);
    Assoc(Quoted(m.key), [COLON], Print(m.value));
  }

  lemma {:induction false} MembersLead(members: seq<Member>, first: bool, s: State, d: nat)
    requires d >= 1 && Settled(s, first, d)
    ensures Leads(s, PrintMembers(members, first), Close(d), d)
    decreases members, 0
  {
    if members == [] {
      LeadsOne(s, CLOSE_BRACE, d);
    } else {
      var separator: Bytes := if first then [] else [COMMA];
      var after := After(members[0].value, d);
      SeparatorLeads(first, s, d);
      MemberLeads(members[0], d);
      LeadsConcat(s, separator, Out(d), PrintMember(members[0]), after, d);
      MembersLead(members[1..], false, after, d);
      LeadsConcat(s, separator + PrintMember(members[0]), after, PrintMembers(members[1..], false), Close(d), d);
    }
  }

  /** A printed object is complete at its end and not before: every proper, non-empty prefix leaves the
      scanner inside a bracket. */
  lemma ObjectCompletes(members: seq<Member>, n: nat)
    requires 0 < n <= |Print(Object(members))|
    ensures var s := Scan(Start, Print(Object(members))[..n]);
            if n == |Print(Object(members))| then s == Done else AtLeast(s, 1)
  {
    var rest := PrintMembers(members, true);
    var text := Print(Object(members));
    MembersLead(members, true, Out(1), 1);
    ScanOne(Start, OPEN_BRACE);
    assert text[..n] == [OPEN_BRACE] + rest[..n - 1];
    ScanConcat(Start, [OPEN_BRACE], rest[..n - 1]);
    assert n == |text| ==> rest[..n - 1] == rest;
  }

  /** Inside a bracket, a printed object changes nothing for good: some bracket stays open, or the text
      is beyond repair. */
  lemma ObjectInside(members: seq<Member>, n: nat, d: nat)
    requires n <= |Print(Object(members))| && d >= 1
    ensures AtLeast(Scan(Out(d), Print(Object(members))[..n]), d)
  {
    var text := Print(Object(members));
    ValueLeads(Object(members), d);
    if n == |text| {
      assert text[..n] == text;
    }
  }

  // ---------------------------------------------------------------- lines

  const NEWLINE: byte := 10

  lemma {:induction false} EscapeHasNoNewline(s: Bytes)
    ensures NEWLINE !in Escape(s)
  {
    if s != [] {
      EscapeHasNoNewline(s[1..]);
      assert NEWLINE !in EscapeByte(s[0]);
    }
  }

  lemma {:induction false} PrintHasNoNewline(v: Value)
    ensures NEWLINE !in Print(v)
    decreases v, 1
  {
    match v
    case Null =>
    case Bool(_) =>
    case Number(n) =>
    case String(s) => EscapeHasNoNewline(s);
    case Array(items) => ItemsHaveNoNewline(items, true);
    case Object(members) => MembersHaveNoNewline(members, true);
  }

  lemma {:induction false} ItemsHaveNoNewline(items: seq<Value>, first: bool)
    ensures NEWLINE !in PrintItems(items, first)
    decreases items, 0
  {
    if items != [] {
      PrintHasNoNewline(items[0]);
      ItemsHaveNoNewline(items[1..], false);
    }
  }

  lemma {:induction false} MembersHaveNoNewline(members: seq<Member>, first: bool)
    ensures NEWLINE !in PrintMembers(members, first)
    decreases members, 0
  {
    if members != [] {
      EscapeHasNoNewline(members[0].key);
      PrintHasNoNewline(members[0].value);
      MembersHaveNoNewline(members[1..], false);
    }
  }
}
