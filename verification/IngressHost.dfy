/** The ingress host name `{port}-{wsid}.{domain}`: parsing and printing.  Text is ASCII. */
module IngressHost {
  import opened Prelude
  import opened Text
  import Json

  datatype IngressError = Parse | DomainMismatch

  const COLON: byte := 58
  const HYPHEN: byte := 45
  const DOT: byte := 46
  const PLUS: byte := 43

  /** The part in front of the first `b`, or everything. */
  function Before(s: Bytes, b: byte): (r: Bytes)
    ensures |r| <= |s| && s[..|r|] == r && b !in r
    ensures |r| < |s| ==> s[|r|] == b
  {
    if s == [] || s[0] == b then [] else [s[0]] + Before(s[1..], b)
  }

  /** A split at a first separator is found again. */
  lemma {:induction false} BeforeConcat(x: Bytes, b: byte, rest: Bytes)
    requires b !in x
    ensures Before(x + ([b] + rest), b) == x
  {
    var s := x + ([b] + rest);
    if x == [] {
      assert s[0] == b;
    } else {
      assert s[1..] == x[1..] + ([b] + rest);
      BeforeConcat(x[1..], b, rest);
      assert x == [x[0]] + x[1..];
    }
  }

  lemma {:induction false} BeforeAbsent(x: Bytes, b: byte)
    requires b !in x
    ensures Before(x, b) == x
  {
    if x != [] {
      BeforeAbsent(x[1..], b);
      assert x == [x[0]] + x[1..];
    }
  }

  /** Digits after an optional plus sign, leading zeros allowed, at most 65535. */
  function ParseU16(s: Bytes): (r: Option<u16>) {
    var digits := if |s| > 1 && s[0] == PLUS then s[1..] else s;
    if digits == [] || !AllDigits(digits) || !(0 <= Json.DecimalValue(digits) < 0x1_0000) then None
    else Some(Json.DecimalValue(digits))
  }

  predicate IsIdByte(b: byte) { 48 <= b <= 57 || 65 <= b <= 90 || 97 <= b <= 122 || b == HYPHEN }

  predicate ValidId(wsid: Bytes) { 1 <= |wsid| <= 64 && forall i :: 0 <= i < |wsid| ==> IsIdByte(wsid[i]) }

  /** The port and workspace in the label in front of the domain; only the first hyphen separates. */
  function ParseLabel(lab: Bytes): Result<(u16, Bytes), IngressError> {
    var portText := Before(lab, HYPHEN);
    if |portText| == |lab| then Err(Parse)
    else
      var wsid := lab[|portText| + 1..];
      match ParseU16(portText)
      case None => Err(Parse)
      case Some(port) => if port == 0 || !ValidId(wsid) then Err(Parse) else Ok((port, wsid))
  }

  function ParseHost(host: Bytes, domain: Bytes): Result<(u16, Bytes), IngressError> {
    var bare := Trim(Before(host, COLON));
    var suffix := [DOT] + Lower(domain);
    if !EndsWith(Lower(bare), suffix) then Err(DomainMismatch)
    else ParseLabel(bare[..|bare| - |suffix|])
  }

  // ---------------------------------------------------------------- printing

  function Label(port: u16, wsid: Bytes): Bytes { Json.Decimal(port) + ([45] + wsid) }

  function PrintHost(port: u16, wsid: Bytes, domain: Bytes): Bytes { Label(port, wsid) + ([46] + domain) }

  /** Up to 64 ASCII letters, digits and hyphens. */
  predicate IsWorkspaceId(wsid: Bytes) {
    && 1 <= |wsid| <= 64
    && forall i :: 0 <= i < |wsid| ==>
         48 <= wsid[i] <= 57 || 65 <= wsid[i] <= 90 || 97 <= wsid[i] <= 122 || wsid[i] == 45
  }

  predicate DigitsOf(digits: Bytes, n: u16) {
    && digits != [] && (forall i :: 0 <= i < |digits| ==> 48 <= digits[i] <= 57)
    && Json.DecimalValue(digits) == n
  }

  /** Decimal digits of `n`, with leading zeros or a plus sign in front. */
  predicate NumberText(s: Bytes, n: u16) {
    if s != [] && s[0] == 43 then DigitsOf(s[1..], n) else DigitsOf(s, n)
  }

  lemma ParseU16Iff(s: Bytes, n: u16)
    ensures ParseU16(s) == Some(n) <==> NumberText(s, n)
  {
    var digits := if |s| > 1 && s[0] == PLUS then s[1..] else s;
    assert AllDigits(digits) <==> forall i :: 0 <= i < |digits| ==> 48 <= digits[i] <= 57;
    if s == [43] {
      assert !IsDigit(digits[0]);
    }
  }

  lemma DecimalParses(port: u16)
    ensures ParseU16(Json.Decimal(port)) == Some(port)
  {
    Json.DecimalRoundTrip(port);
  }

  lemma LabelParses(port: u16, wsid: Bytes)
    requires port >= 1 && ValidId(wsid)
    ensures ParseLabel(Label(port, wsid)) == Ok((port, wsid))
  {
    hide ParseU16;
    hide Json.Decimal;
    var text, lab := Json.Decimal(port), Label(port, wsid);
    DecimalHasNo(port, HYPHEN);
    BeforeConcat(text, HYPHEN, wsid);
    DecimalParses(port);
    assert lab[|text| + 1..] == wsid;
  }

  lemma DecimalHasNo(port: u16, b: byte)
    requires !IsDigit(b)
    ensures b !in Json.Decimal(port) && Json.Decimal(port) != [] && IsDigit(Json.Decimal(port)[0])
  {
    Json.DecimalRoundTrip(port);
  }

  /** Usable as a domain: it has no colon and no space at the end. */
  predicate Usable(domain: Bytes) {
    COLON !in domain && (domain == [] || !IsSpace(domain[|domain| - 1]))
  }

  lemma TrimKeeps(s: Bytes)
    requires s != [] && !IsSpace(s[0]) && !IsSpace(s[|s| - 1])
    ensures Trim(s) == s
  {
  }

  lemma SuffixOfConcat(x: Bytes, domain: Bytes)
    ensures EndsWith(Lower(x + ([DOT] + domain)), [DOT] + Lower(domain))
    ensures (x + ([DOT] + domain))[..|x|] == x
  {
    LowerConcat(x, [DOT] + domain);
    LowerConcat([DOT], domain);
    assert Lower([DOT]) == [DOT];
    EndsWithConcat(Lower(x), [DOT] + Lower(domain));
  }

  lemma IdHasNo(wsid: Bytes, b: byte)
    requires ValidId(wsid) && !IsIdByte(b)
    ensures b !in wsid
  {
  }

  lemma PrintedHostIsClean(port: u16, wsid: Bytes, spelled: Bytes)
    requires ValidId(wsid) && Usable(spelled)
    ensures var host := PrintHost(port, wsid, spelled);
            COLON !in host && Trim(host) == host
  {
    hide Json.Decimal;
    DecimalHasNo(port, COLON);
    IdHasNo(wsid, COLON);
    TrimKeeps(PrintHost(port, wsid, spelled));
  }

  /** What the ingress prints it parses back, for any spelling of the domain's letters and with or
      without a port after a colon. */
  lemma HostRoundTrip(port: u16, wsid: Bytes, domain: Bytes, spelled: Bytes, authority: Option<Bytes>)
    requires port >= 1 && IsWorkspaceId(wsid) && Lower(spelled) == Lower(domain) && Usable(spelled)
    ensures var host := PrintHost(port, wsid, spelled);
            ParseHost(if authority.None? then host else host + ([58] + authority.value), domain) == Ok((port, wsid))
  {
    hide Trim;
    hide ParseLabel;
    hide Label;
    var host := PrintHost(port, wsid, spelled);
    PrintedHostIsClean(port, wsid, spelled);
    if authority.None? {
      BeforeAbsent(host, COLON);
    } else {
      BeforeConcat(host, COLON, authority.value);
    }
    SuffixOfConcat(Label(port, wsid), spelled);
    LabelParses(port, wsid);
  }

  lemma {:induction false} TrimmedEnd(s: Bytes)
    ensures var t := TrimEnd(s, IsSpace); t == [] || !IsSpace(t[|t| - 1])
    ensures forall b :: b in TrimEnd(s, IsSpace) ==> b in s
  {
    if s != [] && IsSpace(s[|s| - 1]) {
      TrimmedEnd(s[..|s| - 1]);
    }
  }

  lemma {:induction false} TrimmedStart(s: Bytes)
    ensures forall b :: b in TrimStart(s) ==> b in s
  {
    if s != [] && IsSpace(s[0]) {
      TrimmedStart(s[1..]);
    }
  }

  /** The condition on the domain is needed: an unusable domain matches no host at all. */
  lemma UnusableDomain(host: Bytes, domain: Bytes)
    requires !Usable(domain)
    ensures ParseHost(host, domain) == Err(DomainMismatch)
  {
    var cut := Before(host, COLON);
    var bare := Trim(cut);
    TrimmedStart(cut);
    TrimmedEnd(TrimStart(cut));
    var low, suffix := Lower(bare), [DOT] + Lower(domain);
    if EndsWith(low, suffix) {
      SuffixBytes(bare, domain);
    }
  }

  /** A matched suffix is the domain up to letter case. */
  lemma SuffixBytes(bare: Bytes, domain: Bytes)
    requires EndsWith(Lower(bare), [DOT] + Lower(domain))
    ensures var k := |bare| - |domain|;
            && k >= 1 && bare[k - 1] == DOT
            && forall i :: 0 <= i < |domain| ==> LowerByte(bare[k + i]) == LowerByte(domain[i])
    ensures COLON in domain ==> COLON in bare
    ensures domain != [] && IsSpace(domain[|domain| - 1]) ==> IsSpace(bare[|bare| - 1])
  {
    var low, suffix := Lower(bare), [DOT] + Lower(domain);
    var k := |bare| - |domain|;
    assert low[k - 1] == low[|low| - |suffix|..][0] == DOT;
    forall i | 0 <= i < |domain| ensures LowerByte(bare[k + i]) == LowerByte(domain[i]) {
      assert low[k + i] == low[|low| - |suffix|..][1 + i] == suffix[1 + i];
    }
  }

  /** The host, without authority port and outer space, is the port text, a hyphen, the workspace, a dot
      and the domain up to letter case. */
  ghost predicate Spells(host: Bytes, domain: Bytes, port: u16, wsid: Bytes, portText: Bytes, spelled: Bytes) {
    && Trim(Before(host, 58)) == portText + ([45] + wsid) + ([46] + spelled)
    && Lower(spelled) == Lower(domain)
    && NumberText(portText, port) && port >= 1 && IsWorkspaceId(wsid)
  }

  lemma ParsedIsSpelled(host: Bytes, domain: Bytes) returns (portText: Bytes, spelled: Bytes)
    requires ParseHost(host, domain).Ok?
    ensures Spells(host, domain, ParseHost(host, domain).value.0, ParseHost(host, domain).value.1, portText, spelled)
  {
    hide ParseU16;
    hide Trim;
    hide Before;
    var bare := Trim(Before(host, COLON));
    SuffixBytes(bare, domain);
    var n := |bare| - |domain| - 1;
    var lab := bare[..n];
    portText, spelled := Before(lab, HYPHEN), bare[n + 1..];
    assert bare == lab + ([DOT] + spelled);
    assert lab == portText + ([HYPHEN] + lab[|portText| + 1..]);
    assert Lower(spelled) == Lower(domain);
    ParseU16Iff(portText, ParseU16(portText).value);
    hide NumberText;
  }

  lemma PortTextHasNoHyphen(portText: Bytes)
    requires ParseU16(portText).Some?
    ensures HYPHEN !in portText
  {
    if |portText| > 1 && portText[0] == PLUS {
      assert portText == [PLUS] + portText[1..];
    }
  }

  lemma SpelledParses(host: Bytes, domain: Bytes, port: u16, wsid: Bytes, portText: Bytes, spelled: Bytes)
    requires Spells(host, domain, port, wsid, portText, spelled)
    ensures ParseHost(host, domain) == Ok((port, wsid))
  {
    hide ParseU16;
    hide Trim;
    hide Before;
    hide NumberText;
    ParseU16Iff(portText, port);
    PortTextHasNoHyphen(portText);
    var lab := portText + ([HYPHEN] + wsid);
    SuffixOfConcat(lab, spelled);
    BeforeConcat(portText, HYPHEN, wsid);
    assert lab[|portText| + 1..] == wsid;
    assert |Lower(spelled)| == |Lower(domain)|;
  }

  /** A host is accepted with a port and a workspace exactly when it spells them, with any text the
      number parser reads for the port (leading zeros, a plus sign). */
  lemma ParsesIff(host: Bytes, domain: Bytes, port: u16, wsid: Bytes)
    ensures ParseHost(host, domain) == Ok((port, wsid)) <==>
            exists portText, spelled :: Spells(host, domain, port, wsid, portText, spelled)
  {
    hide ParseHost;
    hide Spells;
    if ParseHost(host, domain) == Ok((port, wsid)) {
      var portText, spelled := ParsedIsSpelled(host, domain);
    }
    forall portText, spelled | Spells(host, domain, port, wsid, portText, spelled)
      ensures ParseHost(host, domain) == Ok((port, wsid))
    {
      SpelledParses(host, domain, port, wsid, portText, spelled);
    }
  }

  /** The domain does not match exactly when the host, without authority port and outer space, does not end in a
      dot and the domain up to letter case. */
  lemma MismatchIff(host: Bytes, domain: Bytes)
    ensures ParseHost(host, domain) == Err(DomainMismatch) <==>
            forall lab, spelled ::
              Trim(Before(host, 58)) == lab + ([46] + spelled) ==> Lower(spelled) != Lower(domain)
  {
    hide Trim;
    hide Before;
    hide ParseLabel;
    var bare := Trim(Before(host, COLON));
    if EndsWith(Lower(bare), [DOT] + Lower(domain)) {
      SuffixBytes(bare, domain);
      var n := |bare| - |domain| - 1;
      assert bare == bare[..n] + ([46] + bare[n + 1..]) && Lower(bare[n + 1..]) == Lower(domain);
      LabelErrors(bare[..n]);
    }
    forall lab, spelled | bare == lab + ([46] + spelled) && Lower(spelled) == Lower(domain)
      ensures EndsWith(Lower(bare), [DOT] + Lower(domain))
    {
      SuffixOfConcat(lab, spelled);
    }
  }

  lemma LabelErrors(lab: Bytes)
    ensures ParseLabel(lab).Err? ==> ParseLabel(lab).error == Parse
  {
  }
}
