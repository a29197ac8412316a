/** A reader of compact JSON, written from the grammar of RFC 8259, and that it undoes the printer.

    Numbers are integers, and `\u` escapes denote single bytes below 128. */
module JsonRead {
  import opened Prelude
  import opened Json

  // ---------------------------------------------------------------- strings (section 7 of RFC 8259)

  function Nibble(b: byte): Option<nat> {
    if '0' as int <= b <= '9' as int then Some(b - '0' as int)
    else if 'a' as int <= b <= 'f' as int then Some(b - 'a' as int + 10)
    else if 'A' as int <= b <= 'F' as int then Some(b - 'A' as int + 10)
    else None
  }

  /** The byte that a two-character escape stands for. */
  function Unescape(b: byte): Option<byte> {
    if b == '"' as int then Some(0x22)
    else if b == '\\' as int then Some(0x5C)
    else if b == '/' as int then Some(0x2F)
    else if b == 'b' as int then Some(0x08)
    else if b == 'f' as int then Some(0x0C)
    else if b == 'n' as int then Some(0x0A)
    else if b == 'r' as int then Some(0x0D)
    else if b == 't' as int then Some(0x09)
    else None
  }

  /** One byte of a string, and how many bytes of text it takes. */
  function ReadByte(s: Bytes): (r: Option<(byte, nat)>)
    ensures r.Some? ==> 1 <= r.value.1 <= |s|
  {
    if s == [] || s[0] < 0x20 || s[0] == '"' as int then None
    else if s[0] != '\\' as int then Some((s[0], 1))
    else if |s| < 2 then None
    else if s[1] != 'u' as int then
      var b :- Unescape(s[1]);
      Some((b, 2))
    else if |s| < 6 then None
    else
      var h0 :- Nibble(s[2]);
      var h1 :- Nibble(s[3]);
      var h2 :- Nibble(s[4]);
      var h3 :- Nibble(s[5]);
      var code := 0x1000 * h0 + 0x100 * h1 + 0x10 * h2 + h3;
      if code < 0x80 then Some((code, 6)) else None
  }

  /** The contents of a string up to its closing quote, and what follows the quote. */
  function ReadString(s: Bytes): (r: Option<(Bytes, Bytes)>)
    ensures r.Some? ==> |r.value.1| < |s|
    decreases |s|
  {
    if s != [] && s[0] == '"' as int then Some(([], s[1..]))
    else
      var (b, n) :- ReadByte(s);
      var (more, rest) :- ReadString(s[n..]);
      Some(([b] + more, rest))
  }

  // ---------------------------------------------------------------- numbers (section 6)

  function DigitRun(s: Bytes): (n: nat)
    ensures n <= |s| && AllDigits(s[..n]) && (n < |s| ==> !IsDigit(s[n]))
  {
    if s == [] || !IsDigit(s[0]) then 0
    else
      var n := DigitRun(s[1..]);
      assert s[..1 + n] == [s[0]] + s[1..][..n];
      1 + n
  }

  function ReadNatural(s: Bytes): (r: Option<(int, Bytes)>)
    ensures r.Some? ==> |r.value.1| < |s|
  {
    var n := DigitRun(s);
    if n == 0 || (n > 1 && s[0] == '0' as int) then None else Some((DecimalValue(s[..n]), s[n..]))
  }

  function ReadNumber(s: Bytes): (r: Option<(int, Bytes)>)
    ensures r.Some? ==> |r.value.1| < |s|
  {
    if s != [] && s[0] == '-' as int then
      var (n, rest) :- ReadNatural(s[1..]);
      Some((-n, rest))
    else ReadNatural(s)
  }

  // ---------------------------------------------------------------- values (sections 3 to 5)

  predicate StartsWith(s: Bytes, word: string) { |word| <= |s| && s[..|word|] == Ascii(word) }

  function ReadValue(s: Bytes): (r: Option<(Value, Bytes)>)
    ensures r.Some? ==> |r.value.1| < |s|
    decreases |s|, 2
  {
    if StartsWith(s, "null") then Some((Null, s[4..]))
    else if StartsWith(s, "true") then Some((Bool(true), s[4..]))
    else if StartsWith(s, "false") then Some((Bool(false), s[5..]))
    else if StartsWith(s, "\"") then
      var (text, rest) :- ReadString(s[1..]);
      Some((String(text), rest))
    else if StartsWith(s, "[]") then Some((Array([]), s[2..]))
    else if StartsWith(s, "[") then
      var (items, rest) :- ReadItems(s[1..]);
      Some((Array(items), rest))
    else if StartsWith(s, "{}") then Some((Object([]), s[2..]))
    else if StartsWith(s, "{") then
      var (members, rest) :- ReadMembers(s[1..]);
      Some((Object(members), rest))
    else
      var (n, rest) :- ReadNumber(s);
      Some((Number(n), rest))
  }

  /** One or more values, separated by commas, up to the closing bracket. */
  function ReadItems(s: Bytes): (r: Option<(seq<Value>, Bytes)>)
    ensures r.Some? ==> |r.value.1| < |s|
    decreases |s|, 3
  {
    var (v, rest) :- ReadValue(s);
    if StartsWith(rest, "]") then Some(([v], rest[1..]))
    else if StartsWith(rest, ",") then
      var (items, end) :- ReadItems(rest[1..]);
      Some(([v] + items, end))
    else None
  }

  function ReadMember(s: Bytes): (r: Option<(Member, Bytes)>)
    ensures r.Some? ==> |r.value.1| < |s|
    decreases |s|, 3
  {
    if !StartsWith(s, "\"") then None
    else
      var (key, rest) :- ReadString(s[1..]);
      if !StartsWith(rest, ":") then None
      else
        var (v, end) :- ReadValue(rest[1..]);
        Some((Member(key, v), end))
  }

  /** One or more members, separated by commas, up to the closing brace. */
  function ReadMembers(s: Bytes): (r: Option<(seq<Member>, Bytes)>)
    ensures r.Some? ==> |r.value.1| < |s|
    decreases |s|, 4
  {
    var (m, rest) :- ReadMember(s);
    if StartsWith(rest, "}") then Some(([m], rest[1..]))
    else if StartsWith(rest, ",") then
      var (members, end) :- ReadMembers(rest[1..]);
      Some(([m] + members, end))
    else None
  }

  // ---------------------------------------------------------------- reading undoes printing

  lemma EscapeByteReads(b: byte, rest: Bytes)
    ensures ReadByte(EscapeByte(b) + rest) == Some((b, |EscapeByte(b)|))
  {
    var e := EscapeByte(b);
    var s := e + rest;
    assert forall i :: 0 <= i < |e| ==> s[i] == e[i];
  }

  lemma {:induction false} EscapeReads(t: Bytes, rest: Bytes)
    ensures ReadString(Escape(t) + (['"' as int] + rest)) == Some((t, rest))
    decreases |t|
  {
    var close: Bytes := ['"' as int] + rest;
    if t == [] {
      assert Escape(t) + close == close && close[1..] == rest;
    } else {
      var e, more := EscapeByte(t[0]), Escape(t[1..]) + close;
      Assoc(e, Escape(t[1..]), close);
      EscapeByteReads(t[0], more);
      EscapeReads(t[1..], rest);
      StringStep(e, more, t[0], t[1..], rest);
      assert t == [t[0]] + t[1..];
    }
  }

  lemma StringStep(e: Bytes, more: Bytes, b: byte, t: Bytes, rest: Bytes)
    requires e != [] && e[0] != '"' as int && ReadByte(e + more) == Some((b, |e|))
    requires ReadString(more) == Some((t, rest))
    ensures ReadString(e + more) == Some(([b] + t, rest))
  {
    hide ReadByte;
    assert (e + more)[|e|..] == more && (e + more)[0] == e[0];
  }

  lemma QuotedReads(t: Bytes, rest: Bytes)
    ensures StartsWith(Quoted(t) + rest, "\"")
    ensures ReadString((Quoted(t) + rest)[1..]) == Some((t, rest))
  {
    var quote: Bytes := ['"' as int];
    assert Quoted(t) + rest == quote + (Escape(t) + (quote + rest)) by {
      Assoc(quote + Escape(t), quote, rest);
      Assoc(quote, Escape(t), quote + rest);
    }
    assert (quote + (Escape(t) + (quote + rest)))[1..] == Escape(t) + (quote + rest);
    EscapeReads(t, rest);
  }

  lemma {:induction false} DigitRunOf(digits: Bytes, rest: Bytes)
    requires AllDigits(digits) && NoDigit(rest)
    ensures DigitRun(digits + rest) == |digits|
    decreases |digits|
  {
    if digits == [] {
      assert digits + rest == rest;
    } else {
      assert (digits + rest)[1..] == digits[1..] + rest;
      DigitRunOf(digits[1..], rest);
    }
  }

  lemma NaturalReads(n: nat, rest: Bytes)
    requires NoDigit(rest)
    ensures ReadNatural(Decimal(n) + rest) == Some((n, rest))
  {
    var d := Decimal(n);
    DigitRunOf(d, rest);
    DecimalRoundTrip(n);
    assert (d + rest)[..|d|] == d && (d + rest)[|d|..] == rest;
  }

  lemma NumberReads(n: int, rest: Bytes)
    requires NoDigit(rest)
    ensures ReadNumber(Integer(n) + rest) == Some((n, rest))
  {
    if n < 0 {
      NaturalReads(-n, rest);
      Assoc([MINUS], Decimal(-n), rest);
      assert ([MINUS] + (Decimal(-n) + rest))[1..] == Decimal(-n) + rest;
    } else {
      NaturalReads(n, rest);
    }
  }

  /** The printed rest of a list: an item, then the closing bracket or a comma and the rest. */
  lemma ItemsPrinted(items: seq<Value>)
    requires items != []
    ensures PrintItems(items, true) == Print(items[0]) + PrintItems(items[1..], false)
    ensures PrintItems(items, false) == [COMMA] + PrintItems(items, true)
    ensures PrintItems([], false) == [CLOSE_BRACKET]
  {
    Assoc([COMMA], Print(items[0]), PrintItems(items[1..], false));
    assert [] + Print(items[0]) == Print(items[0]);
  }

  lemma MembersPrinted(members: seq<Member>)
    requires members != []
    ensures PrintMembers(members, true) == PrintMember(members[0]) + PrintMembers(members[1..], false)
    ensures PrintMembers(members, false) == [COMMA] + PrintMembers(members, true)
    ensures PrintMembers([], false) == [CLOSE_BRACE]
  {
    Assoc([COMMA], PrintMember(members[0]), PrintMembers(members[1..], false));
    assert [] + PrintMember(members[0]) == PrintMember(members[0]);
  }

  lemma ItemsStep(s: Bytes, v: Value, after: Bytes, items: seq<Value>, end: Bytes)
    requires ReadValue(s) == Some((v, after))
    ensures StartsWith(after, "]") ==> ReadItems(s) == Some(([v], after[1..]))
    ensures !StartsWith(after, "]") && StartsWith(after, ",") && ReadItems(after[1..]) == Some((items, end)) ==>
              ReadItems(s) == Some(([v] + items, end))
  {
    hide ReadValue;
  }

  lemma MembersStep(s: Bytes, m: Member, after: Bytes, members: seq<Member>, end: Bytes)
    requires ReadMember(s) == Some((m, after))
    ensures StartsWith(after, "}") ==> ReadMembers(s) == Some(([m], after[1..]))
    ensures !StartsWith(after, "}") && StartsWith(after, ",") && ReadMembers(after[1..]) == Some((members, end)) ==>
              ReadMembers(s) == Some(([m] + members, end))
  {
    hide ReadMember;
  }

  /** First bytes tell the kinds apart. */
  lemma FirstByte(s: Bytes, word: string)
    requires s != [] && word != "" && s[0] != word[0] as int % 256
    ensures !StartsWith(s, word)
  {
    if |word| <= |s| {
      assert s[..|word|][0] == s[0];
    }
  }

  lemma Word(word: string, rest: Bytes)
    ensures StartsWith(Ascii(word) + rest, word) && (Ascii(word) + rest)[|word|..] == rest
  {
  }

  lemma One(b: byte, word: string, rest: Bytes)
    requires |word| == 1 && b == word[0] as int % 256
    ensures StartsWith([b] + rest, word) && ([b] + rest)[1..] == rest
  {
    assert Ascii(word) == [b];
    Word(word, rest);
  }

  /** Reading what was printed gives the value back and leaves what follows it. */
  lemma {:induction false} ReadsBack(v: Value, rest: Bytes)
    requires v.Number? ==> NoDigit(rest)
    ensures ReadValue(Print(v) + rest) == Some((v, rest))
    decreases v, 2
  {
    match v
    case Null => ReadsWord(v, "null", rest);
    case Bool(b) => ReadsWord(v, if b then "true" else "false", rest);
    case Number(n) => ReadsNumber(n, rest);
    case String(t) => ReadsString(t, rest);
    case Array(items) => ReadsArray(items, rest);
    case Object(members) => ReadsObject(members, rest);
  }

  lemma ReadsWord(v: Value, word: string, rest: Bytes)
    requires || (v == Null && word == "null")
             || (v == Bool(true) && word == "true")
             || (v == Bool(false) && word == "false")
    ensures ReadValue(Print(v) + rest) == Some((v, rest))
  {
    assert Print(v) == Ascii(word);
    var s := Print(v) + rest;
    Word(word, rest);
    assert s[0] == word[0] as int;
    if word != "null" {
      FirstByte(s, "null");
      if word != "true" {
        FirstByte(s, "true");
      }
    }
  }

  lemma NoWord(s: Bytes)
    requires s != [] && s[0] != 'n' as int && s[0] != 't' as int && s[0] != 'f' as int
    ensures !StartsWith(s, "null") && !StartsWith(s, "true") && !StartsWith(s, "false")
  {
    FirstByte(s, "null");
    FirstByte(s, "true");
    FirstByte(s, "false");
  }

  lemma ReadsNumber(n: int, rest: Bytes)
    requires NoDigit(rest)
    ensures ReadValue(Print(Number(n)) + rest) == Some((Number(n), rest))
  {
    var s := Integer(n) + rest;
    assert s[0] == Integer(n)[0];
    NoWord(s);
    FirstByte(s, "\"");
    FirstByte(s, "[]");
    FirstByte(s, "[");
    FirstByte(s, "{}");
    FirstByte(s, "{");
    NumberReads(n, rest);
  }

  lemma ReadsString(t: Bytes, rest: Bytes)
    ensures ReadValue(Print(String(t)) + rest) == Some((String(t), rest))
  {
    QuotedReads(t, rest);
    assert (Quoted(t) + rest)[0] == Quoted(t)[0];
    NoWord(Quoted(t) + rest);
  }

  lemma {:induction false} ReadsArray(items: seq<Value>, rest: Bytes)
    ensures ReadValue(Print(Array(items)) + rest) == Some((Array(items), rest))
    decreases items, 4
  {
    var inner := PrintItems(items, true) + rest;
    var s := [OPEN_BRACKET] + inner;
    Assoc([OPEN_BRACKET], PrintItems(items, true), rest);
    NoWord(s);
    FirstByte(s, "\"");
    One(OPEN_BRACKET, "[", inner);
    if items == [] {
      assert s == Ascii("[]") + rest;
      Word("[]", rest);
    } else {
      assert s[1] == PrintItems(items, true)[0] != ']' as int;
      assert !StartsWith(s, "[]") by {
        assert |s| >= 2 ==> s[..2][1] == s[1];
      }
      ItemsReadBack(items, rest);
    }
  }

  lemma {:induction false} ItemsReadBack(items: seq<Value>, rest: Bytes)
    requires items != []
    ensures ReadItems(PrintItems(items, true) + rest) == Some((items, rest))
    decreases items, 3
  {
    hide ReadItems;
    hide PrintItems;
    hide ReadValue;
    hide Print;
    hide StartsWith;
    var tail := items[1..];
    var after := PrintItems(tail, false) + rest;
    var s := PrintItems(items, true) + rest;
    ItemsPrinted(items);
    Assoc(Print(items[0]), PrintItems(tail, false), rest);
    assert after[0] == PrintItems(tail, false)[0];
    ReadsBack(items[0], after);
    if tail == [] {
      One(CLOSE_BRACKET, "]", rest);
      ItemsStep(s, items[0], after, [], []);
      assert items == [items[0]];
    } else {
      ItemsPrinted(tail);
      Assoc([COMMA], PrintItems(tail, true), rest);
      One(COMMA, ",", PrintItems(tail, true) + rest);
      FirstByte(after, "]");
      ItemsReadBack(tail, rest);
      ItemsStep(s, items[0], after, tail, rest);
    }
    assert items == [items[0]] + tail;
  }

  lemma ObjectDispatch(inner: Bytes, members: seq<Member>, rest: Bytes)
    ensures var s := [OPEN_BRACE] + inner;
            && (inner == ['}' as int] + rest ==> ReadValue(s) == Some((Object([]), rest)))
            && (inner != [] && inner[0] != '}' as int && ReadMembers(inner) == Some((members, rest)) ==>
                  ReadValue(s) == Some((Object(members), rest)))
  {
    hide ReadMembers;
    var s := [OPEN_BRACE] + inner;
    NoWord(s);
    FirstByte(s, "\"");
    FirstByte(s, "[]");
    FirstByte(s, "[");
    One(OPEN_BRACE, "{", inner);
    if inner == ['}' as int] + rest {
      assert s == Ascii("{}") + rest;
      Word("{}", rest);
    } else if inner != [] && inner[0] != '}' as int {
      assert s[..2][1] == inner[0];
    }
  }

  lemma {:induction false} ReadsObject(members: seq<Member>, rest: Bytes)
    ensures ReadValue(Print(Object(members)) + rest) == Some((Object(members), rest))
    decreases members, 4
  {
    var inner := PrintMembers(members, true) + rest;
    Assoc([OPEN_BRACE], PrintMembers(members, true), rest);
    ObjectDispatch(inner, members, rest);
    hide ReadValue;
    if members != [] {
      assert inner[0] == PrintMembers(members, true)[0];
      MembersReadBack(members, rest);
    }
  }

  lemma {:induction false} MemberReadsBack(m: Member, rest: Bytes)
    requires m.value.Number? ==> NoDigit(rest)
    ensures ReadMember(PrintMember(m) + rest) == Some((m, rest))
    decreases m, 3
  {
    var value := Print(m.value) + rest;
    var after := [COLON] + value;
    Assoc(Quoted(m.key), [COLON] + Print(m.value), rest);
    Assoc([COLON], Print(m.value), rest);
    QuotedReads(m.key, after);
    One(COLON, ":", value);
    ReadsBack(m.value, rest);
  }

  lemma {:induction false} MembersReadBack(members: seq<Member>, rest: Bytes)
    requires members != []
    ensures ReadMembers(PrintMembers(members, true) + rest) == Some((members, rest))
    decreases members, 3
  {
    hide ReadMembers;
    hide PrintMembers;
    hide ReadMember;
    hide PrintMember;
    hide StartsWith;
    var tail := members[1..];
    var after := PrintMembers(tail, false) + rest;
    var s := PrintMembers(members, true) + rest;
    MembersPrinted(members);
    Assoc(PrintMember(members[0]), PrintMembers(tail, false), rest);
    assert after[0] == PrintMembers(tail, false)[0];
    MemberReadsBack(members[0], after);
    if tail == [] {
      One(CLOSE_BRACE, "}", rest);
      MembersStep(s, members[0], after, [], []);
      assert members == [members[0]];
    } else {
      MembersPrinted(tail);
      Assoc([COMMA], PrintMembers(tail, true), rest);
      One(COMMA, ",", PrintMembers(tail, true) + rest);
      FirstByte(after, "}");
      MembersReadBack(tail, rest);
      MembersStep(s, members[0], after, tail, rest);
    }
    assert members == [members[0]] + tail;
  }
}
