/** The JSON values of the audit and attestation preimages, and the compact printer that turns
    them into the bytes that are hashed and signed.

    Printing is uniquely decodable: text never has to be parsed back to know that two different
    values have different bytes.  Strings are escaped as section 7 of RFC 8259 allows. */
module Json {
  import opened Prelude

  datatype Value =
    | Null
    | Bool(b: bool)
    | Number(n: int)
    | String(s: Bytes)
    | Array(items: seq<Value>)
    | Object(members: seq<Member>)

  datatype Member = Member(key: Bytes, value: Value)

  const QUOTE: byte := 34
  const COMMA: byte := 44
  const MINUS: byte := 45
  const COLON: byte := 58
  const OPEN_BRACKET: byte := 91
  const BACKSLASH: byte := 92
  const CLOSE_BRACKET: byte := 93
  const OPEN_BRACE: byte := 123
  const CLOSE_BRACE: byte := 125

  // ---------------------------------------------------------------- decimals

  function Decimal(n: nat): (r: Bytes)
    ensures r != [] && forall i :: 0 <= i < |r| ==> IsDigit(r[i])
  {
    if n < 10 then [48 + n] else Decimal(n / 10) + [48 + n % 10]
  }

  /** The number a digit string denotes: the left inverse of `Decimal`. */
  function DecimalValue(digits: Bytes): int
  {
    if digits == [] then 0
    else 10 * DecimalValue(digits[..|digits| - 1]) + digits[|digits| - 1] - 48
  }

  lemma {:induction false} DecimalRoundTrip(n: nat)
    ensures DecimalValue(Decimal(n)) == n
    ensures |Decimal(n)| > 1 ==> Decimal(n)[0] != 48
  {
    if n >= 10 {
      DecimalRoundTrip(n / 10);
      assert |Decimal(n / 10)| == 1 ==> n / 10 < 10;
      assert Decimal(n)[..|Decimal(n)| - 1] == Decimal(n / 10);
    } else {
      assert Decimal(n)[..0] == [];
    }
  }

  function Integer(n: int): (r: Bytes)
    ensures r != [] && (IsDigit(r[0]) || r[0] == MINUS)
  {
    if n < 0 then [MINUS] + Decimal(-n) else Decimal(n)
  }

  /** What may follow a printed number: the end of the text or any non-digit. */
  predicate NoDigit(r: Bytes) { r == [] || !IsDigit(r[0]) }

  lemma DigitRunNotShorter(p: Bytes, r: Bytes, q: Bytes, s: Bytes)
    requires AllDigits(q) && NoDigit(r) && p + r == q + s
    ensures |p| >= |q|
  {
    assert forall i :: 0 <= i < |q| ==> IsDigit((p + r)[i]);
    assert forall j :: 0 <= j < |r| ==> r[j] == (p + r)[|p| + j];
  }

  lemma DecimalUnique(n: nat, m: nat, r: Bytes, s: Bytes)
    requires Decimal(n) + r == Decimal(m) + s
    requires NoDigit(r) && NoDigit(s)
    ensures n == m && r == s
  {
    DigitRunNotShorter(Decimal(n), r, Decimal(m), s);
    DigitRunNotShorter(Decimal(m), s, Decimal(n), r);
    SplitEqual(Decimal(n), r, Decimal(m), s);
    DecimalRoundTrip(n);
    DecimalRoundTrip(m);
  }

  lemma FirstOfConcat(p: Bytes, r: Bytes, q: Bytes, s: Bytes)
    requires p + r == q + s && p != [] && q != []
    ensures p[0] == q[0]
  {
    assert (p + r)[0] == p[0];
    assert (q + s)[0] == q[0];
  }

  lemma IntegerUnique(n: int, m: int, r: Bytes, s: Bytes)
    requires Integer(n) + r == Integer(m) + s
    requires NoDigit(r) && NoDigit(s)
    ensures n == m && r == s
  {
    FirstOfConcat(Integer(n), r, Integer(m), s);
    if n < 0 {
      CancelTag([MINUS], Decimal(-n), r, Decimal(-m), s);
      DecimalUnique(-n, -m, r, s);
    } else {
      DecimalUnique(n, m, r, s);
    }
  }

  // ---------------------------------------------------------------- hexadecimal

  function HexDigit(n: int): (r: byte)
    requires 0 <= n < 16
    ensures r == "0123456789abcdef"[n] as int
    ensures n == if r < 58 then r - 48 else r - 87
  {
    if n < 10 then 48 + n else 87 + n
  }

  /** Lower-case hexadecimal text of a byte string. */
  function Hex(b: Bytes): (r: Bytes)
    ensures |r| == 2 * |b|
  {
    if b == [] then [] else [HexDigit(b[0] / 16), HexDigit(b[0] % 16)] + Hex(b[1..])
  }

  /** High half first, then low half, of each byte in order. */
  lemma {:induction false} HexAt(b: Bytes, i: nat)
    requires i < |b|
    ensures Hex(b)[2 * i] == "0123456789abcdef"[b[i] / 16] as int
    ensures Hex(b)[2 * i + 1] == "0123456789abcdef"[b[i] % 16] as int
    decreases i
  {
    var rest := Hex(b[1..]);
    assert Hex(b) == [HexDigit(b[0] / 16), HexDigit(b[0] % 16)] + rest;
    if i > 0 {
      HexAt(b[1..], i - 1);
      hide Hex;
      assert Hex(b)[2 * i] == rest[2 * (i - 1)] && Hex(b)[2 * i + 1] == rest[2 * (i - 1) + 1];
    }
  }

  lemma {:induction false} HexInjective(a: Bytes, b: Bytes)
    requires Hex(a) == Hex(b)
    ensures a == b
  {
    if a != [] {
      assert |Hex(a)| == |Hex(b)|;
      assert Hex(a)[0] == HexDigit(a[0] / 16) && Hex(a)[1] == HexDigit(a[0] % 16);
      assert Hex(b)[0] == HexDigit(b[0] / 16) && Hex(b)[1] == HexDigit(b[0] % 16);
      assert Hex(a)[2..] == Hex(a[1..]) && Hex(b)[2..] == Hex(b[1..]);
      HexInjective(a[1..], b[1..]);
      assert a == [a[0]] + a[1..] && b == [b[0]] + b[1..];
    }
  }

  // ---------------------------------------------------------------- strings

  /** One byte of a string literal; two-character escapes where JSON has them, `\u00XX` for the
      other control characters, everything else verbatim. */
  function EscapeByte(b: byte): (r: Bytes)
    ensures r != [] && r[0] != QUOTE
    ensures |r| == if r[0] != BACKSLASH then 1 else if |r| > 1 && r[1] == 117 then 6 else 2
    ensures |r| == if b in [8, 9, 10, 12, 13, 34, 92] then 2 else if b < 32 then 6 else 1
  {
    if b == QUOTE then [BACKSLASH, QUOTE]
    else if b == BACKSLASH then [BACKSLASH, BACKSLASH]
    else if b == 8 then [BACKSLASH, 98]
    else if b == 9 then [BACKSLASH, 116]
    else if b == 10 then [BACKSLASH, 110]
    else if b == 12 then [BACKSLASH, 102]
    else if b == 13 then [BACKSLASH, 114]
    else if b < 32 then [BACKSLASH, 117, 48, 48, HexDigit(b / 16), HexDigit(b % 16)]
    else [b]
  }

  function Escape(s: Bytes): Bytes
  {
    if s == [] then [] else EscapeByte(s[0]) + Escape(s[1..])
  }

  function Quoted(s: Bytes): (r: Bytes)
    ensures r != [] && r[0] == QUOTE
  {
    [QUOTE] + Escape(s) + [QUOTE]
  }

  lemma EscapeByteUnique(a: byte, b: byte, r: Bytes, t: Bytes)
    requires EscapeByte(a) + r == EscapeByte(b) + t
    ensures a == b && r == t
  {
    var p, q := EscapeByte(a), EscapeByte(b);
    assert p[0] == (p + r)[0] == (q + t)[0] == q[0];
    if p[0] == BACKSLASH {
      assert p[1] == (p + r)[1] == (q + t)[1] == q[1];
    }
    SplitEqual(p, r, q, t);
    if |p| == 6 {
      assert p[4] == q[4] && p[5] == q[5];
    }
  }

  lemma {:induction false} EscapeUnique(s: Bytes, t: Bytes, r: Bytes, u: Bytes)
    requires Escape(s) + ([QUOTE] + r) == Escape(t) + ([QUOTE] + u)
    ensures s == t && r == u
  {
    if s == [] || t == [] {
      assert [] + ([QUOTE] + r) == [QUOTE] + r && [] + ([QUOTE] + u) == [QUOTE] + u;
      if s != [] {
        FirstOfConcat(Escape(s), [QUOTE] + r, [QUOTE], u);
      } else if t != [] {
        FirstOfConcat(Escape(t), [QUOTE] + u, [QUOTE], r);
      }
      CancelLeft([QUOTE], r, u);
    } else {
      var s', t' := Escape(s[1..]) + ([QUOTE] + r), Escape(t[1..]) + ([QUOTE] + u);
      Assoc(EscapeByte(s[0]), Escape(s[1..]), [QUOTE] + r);
      Assoc(EscapeByte(t[0]), Escape(t[1..]), [QUOTE] + u);
      EscapeByteUnique(s[0], t[0], s', t');
      EscapeUnique(s[1..], t[1..], r, u);
      assert s == [s[0]] + s[1..] && t == [t[0]] + t[1..];
    }
  }

  lemma QuotedUnique(s: Bytes, t: Bytes, r: Bytes, u: Bytes)
    requires Quoted(s) + r == Quoted(t) + u
    ensures s == t && r == u
  {
    Assoc([QUOTE] + Escape(s), [QUOTE], r);
    Assoc([QUOTE] + Escape(t), [QUOTE], u);
    CancelTag([QUOTE], Escape(s), [QUOTE] + r, Escape(t), [QUOTE] + u);
    EscapeUnique(s, t, r, u);
  }

  // ---------------------------------------------------------------- values

  /** Compact serialization (no whitespace, members in the order given). */
  function Print(v: Value): (r: Bytes)
    ensures r != [] && Kind(r[0]) == KindOf(v)
    decreases v, 1
  {
    match v
    case Null => [110, 117, 108, 108]
    case Bool(true) => [116, 114, 117, 101]
    case Bool(false) => [102, 97, 108, 115, 101]
    case Number(n) => Integer(n)
    case String(s) => Quoted(s)
    case Array(items) => [OPEN_BRACKET] + PrintItems(items, true)
    case Object(members) => [OPEN_BRACE] + PrintMembers(members, true)
  }

  /** The rest of an array after its opening bracket or after an item. */
  function PrintItems(items: seq<Value>, first: bool): (r: Bytes)
    ensures r != []
    ensures r[0] == CLOSE_BRACKET <==> items == []
    ensures !first && items != [] ==> r[0] == COMMA
    decreases items, 0
  {
    if items == [] then [CLOSE_BRACKET]
    else (if first then [] else [COMMA]) + Print(items[0]) + PrintItems(items[1..], false)
  }

  /** The rest of an object after its opening brace or after a member. */
  function PrintMembers(members: seq<Member>, first: bool): (r: Bytes)
    ensures r != []
    ensures r[0] == CLOSE_BRACE <==> members == []
    ensures !first && members != [] ==> r[0] == COMMA
    decreases members, 0
  {
    if members == [] then [CLOSE_BRACE]
    else
      (if first then [] else [COMMA]) + PrintMember(members[0]) + PrintMembers(members[1..], false)
  }

  /** The constructor of a value, as its first printed byte shows it. */
  function KindOf(v: Value): int {
    match v
    case Null => 0
    case Bool(b) => if b then 1 else 2
    case Number(_) => 3
    case String(_) => 4
    case Array(_) => 5
    case Object(_) => 6
  }

  function Kind(b: byte): int {
    if b == 110 then 0
    else if b == 116 then 1
    else if b == 102 then 2
    else if IsDigit(b) || b == MINUS then 3
    else if b == QUOTE then 4
    else if b == OPEN_BRACKET then 5
    else if b == OPEN_BRACE then 6
    else 7
  }

  /** Unique decodability: a printed value followed by a non-digit determines both the value and
      what follows it. */
  lemma {:induction false} PrintUnique(v: Value, w: Value, r: Bytes, s: Bytes)
    requires Print(v) + r == Print(w) + s
    requires NoDigit(r) && NoDigit(s)
    ensures v == w && r == s
    decreases v, 1
  {
    FirstOfConcat(Print(v), r, Print(w), s);
    assert KindOf(v) == KindOf(w);
    match v {
      case Null => SplitEqual(Print(v), r, Print(w), s);
      case Bool(_) => SplitEqual(Print(v), r, Print(w), s);
      case Number(n) => IntegerUnique(n, w.n, r, s);
      case String(t) => QuotedUnique(t, w.s, r, s);
      case Array(items) =>
        CancelTag([OPEN_BRACKET], PrintItems(items, true), r, PrintItems(w.items, true), s);
        PrintItemsUnique(items, w.items, true, r, s);
      case Object(members) =>
        CancelTag([OPEN_BRACE], PrintMembers(members, true), r, PrintMembers(w.members, true), s);
        PrintMembersUnique(members, w.members, true, r, s);
    }
  }

  lemma {:induction false} PrintItemsUnique(
      x: seq<Value>, y: seq<Value>, first: bool, r: Bytes, s: Bytes)
    requires PrintItems(x, first) + r == PrintItems(y, first) + s
    ensures x == y && r == s
    decreases x, 0
  {
    FirstOfConcat(PrintItems(x, first), r, PrintItems(y, first), s);
    if x == [] {
      CancelLeft([CLOSE_BRACKET], r, s);
    } else {
      var sep := if first then [] else [COMMA];
      var x', y' := PrintItems(x[1..], false), PrintItems(y[1..], false);
      Assoc(sep + Print(x[0]), x', r);
      Assoc(sep + Print(y[0]), y', s);
      CancelTag(sep, Print(x[0]), x' + r, Print(y[0]), y' + s);
      PrintUnique(x[0], y[0], x' + r, y' + s);
      PrintItemsUnique(x[1..], y[1..], false, r, s);
      assert x == [x[0]] + x[1..] && y == [y[0]] + y[1..];
    }
  }

  function PrintMember(m: Member): (r: Bytes)
    ensures r != [] && r[0] == QUOTE
    decreases m, 2
  {
    Quoted(m.key) + ([COLON] + Print(m.value))
  }

  lemma {:induction false} PrintMemberUnique(m: Member, k: Member, r: Bytes, s: Bytes)
    requires PrintMember(m) + r == PrintMember(k) + s
    requires NoDigit(r) && NoDigit(s)
    ensures m == k && r == s
    decreases m, 2
  {
    var mv, kv := [COLON] + Print(m.value), [COLON] + Print(k.value);
    Assoc(Quoted(m.key), mv, r);
    Assoc(Quoted(k.key), kv, s);
    QuotedUnique(m.key, k.key, mv + r, kv + s);
    CancelTag([COLON], Print(m.value), r, Print(k.value), s);
    PrintUnique(m.value, k.value, r, s);
  }

  lemma {:induction false} PrintMembersUnique(
      x: seq<Member>, y: seq<Member>, first: bool, r: Bytes, s: Bytes)
    requires PrintMembers(x, first) + r == PrintMembers(y, first) + s
    ensures x == y && r == s
    decreases x, 0
  {
    FirstOfConcat(PrintMembers(x, first), r, PrintMembers(y, first), s);
    if x == [] {
      CancelLeft([CLOSE_BRACE], r, s);
    } else {
      var sep := if first then [] else [COMMA];
      var x', y' := PrintMembers(x[1..], false), PrintMembers(y[1..], false);
      Assoc(sep + PrintMember(x[0]), x', r);
      Assoc(sep + PrintMember(y[0]), y', s);
      CancelTag(sep, PrintMember(x[0]), x' + r, PrintMember(y[0]), y' + s);
      PrintMemberUnique(x[0], y[0], x' + r, y' + s);
      PrintMembersUnique(x[1..], y[1..], false, r, s);
      assert x == [x[0]] + x[1..] && y == [y[0]] + y[1..];
    }
  }

  /** Two values with the same printed bytes are the same value. */
  lemma PrintInjective(v: Value, w: Value)
    requires Print(v) == Print(w)
    ensures v == w
  {
    assert Print(v) + [] == Print(w) + [];
    PrintUnique(v, w, [], []);
  }
}
