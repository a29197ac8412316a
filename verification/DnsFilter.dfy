/** The DNS filter: the question parser, the crafted replies, and the decision.

    `utf8` stands for the library's test that a label is valid UTF-8. */
module DnsFilter {
  import opened Prelude
  import opened DnsNames

  // ---------------------------------------------------------------- the question

  /** The labels up to the root label, and what follows; compression pointers are refused. */
  function ReadLabels(utf8: Bytes -> bool, s: Bytes): Option<(seq<Bytes>, Bytes)>
    decreases |s|
  {
    if s == [] then None
    else
      var len := s[0];
      if len == 0 then Some(([], s[1..]))
      else if len > 63 || |s| < 1 + len || !utf8(s[1..1 + len]) then None
      else match ReadLabels(utf8, s[1 + len..])
        case None => None
        case Some((labels, rest)) => Some(([s[1..1 + len]] + labels, rest))
  }

  /** Section 4.1.2 of RFC 1035: length-prefixed labels and a zero octet. */
  function EncodeName(labels: seq<Bytes>): Bytes
    requires forall i :: 0 <= i < |labels| ==> |labels[i]| < 256
  {
    if labels == [] then [0] else [|labels[0]|] + (labels[0] + EncodeName(labels[1..]))
  }

  predicate WireLabel(utf8: Bytes -> bool, lab: Bytes) { 1 <= |lab| <= 63 && utf8(lab) }

  ghost predicate WireLabels(utf8: Bytes -> bool, labels: seq<Bytes>) {
    forall i :: 0 <= i < |labels| ==> WireLabel(utf8, labels[i])
  }

  lemma EncodeCons(lab: Bytes, labels: seq<Bytes>, rest: Bytes)
    requires |lab| < 256 && forall i :: 0 <= i < |labels| ==> |labels[i]| < 256
    ensures EncodeName([lab] + labels) + rest == [|lab|] + (lab + (EncodeName(labels) + rest))
  {
    assert ([lab] + labels)[1..] == labels;
    Assoc(lab, EncodeName(labels), rest);
    Assoc([|lab|], lab + EncodeName(labels), rest);
  }

  /** One step of reading. */
  lemma ReadOne(utf8: Bytes -> bool, lab: Bytes, rest: Bytes)
    requires WireLabel(utf8, lab)
    ensures Resumes(ReadLabels(utf8, [|lab|] + (lab + rest)), [lab], ReadLabels(utf8, rest))
  {
    var s := [|lab|] + (lab + rest);
    assert s[1..1 + |lab|] == lab && s[1 + |lab|..] == rest;
  }

  lemma {:induction false} LabelsRead(utf8: Bytes -> bool, labels: seq<Bytes>, rest: Bytes)
    requires WireLabels(utf8, labels)
    ensures ReadLabels(utf8, EncodeName(labels) + rest) == Some((labels, rest))
    decreases |labels|
  {
    if labels == [] {
      assert (EncodeName(labels) + rest)[1..] == rest;
    } else {
      var lab, more := labels[0], labels[1..];
      assert WireLabel(utf8, lab) && labels == [lab] + more;
      LabelsRead(utf8, more, rest);
      EncodeCons(lab, more, rest);
      ReadOne(utf8, lab, EncodeName(more) + rest);
    }
  }

  lemma {:induction false} ReadsLabels(utf8: Bytes -> bool, s: Bytes)
    requires ReadLabels(utf8, s).Some?
    ensures var (labels, rest) := ReadLabels(utf8, s).value;
            WireLabels(utf8, labels) && s == EncodeName(labels) + rest
    decreases |s|
  {
    if s[0] == 0 {
      assert s == [0] + s[1..];
    } else {
      var n := 1 + s[0] as int;
      var lab := s[1..n];
      ReadsLabels(utf8, s[n..]);
      var (labels, rest) := ReadLabels(utf8, s[n..]).value;
      Unpack(s, n);
      EncodeCons(lab, labels, rest);
      assert WireLabel(utf8, lab);
    }
  }

  lemma Unpack(s: Bytes, n: nat)
    requires 1 <= n <= |s|
    ensures s == [s[0]] + (s[1..n] + s[n..])
  {
  }

  /** The first question's dotted name and its type. */
  function Query(utf8: Bytes -> bool, buf: Bytes): Option<(Bytes, u16)> {
    if |buf| < 12 || (buf[4] == 0 && buf[5] == 0) then None
    else match ReadLabels(utf8, buf[12..])
      case None => None
      case Some((labels, rest)) =>
        if |rest| < 4 then None else Some((Join(labels), 256 * (rest[0] as int) + rest[1] as int))
  }

  lemma {:induction false} JoinSnoc(labels: seq<Bytes>, lab: Bytes)
    requires forall i :: 0 <= i < |labels| ==> labels[i] != []
    ensures Join(labels + [lab]) == if Join(labels) == [] then lab else Join(labels) + [DOT] + lab
  {
    if labels == [] {
      assert labels + [lab] == [lab];
    } else {
      JoinAppend(labels, [lab]);
      Assoc(Join(labels), [DOT], lab);
      assert labels[0] != [];
    }
  }

  /** What the labels at a position are, by the octet found there. */
  lemma LabelsAt(utf8: Bytes -> bool, buf: Bytes, pos: nat)
    requires pos < |buf|
    ensures var len, end := buf[pos] as int, pos + 1 + buf[pos] as int;
            if len == 0 then ReadLabels(utf8, buf[pos..]) == Some(([], buf[pos + 1..]))
            else if len > 63 || end > |buf| || !utf8(buf[pos + 1..end]) then ReadLabels(utf8, buf[pos..]) == None
            else Resumes(ReadLabels(utf8, buf[pos..]), [buf[pos + 1..end]], ReadLabels(utf8, buf[end..]))
  {
    var s, len := buf[pos..], buf[pos] as int;
    assert s[1..] == buf[pos + 1..];
    if pos + 1 + len <= |buf| {
      assert s[1..1 + len] == buf[pos + 1..pos + 1 + len] && s[1 + len..] == buf[pos + 1 + len..];
    }
  }

  method ParseQuery(utf8: Bytes -> bool, buf: Bytes) returns (r: Option<(Bytes, u16)>)
    ensures r == Query(utf8, buf)
  {
    hide ReadLabels;
    hide Join;
    hide Resumes;
    if |buf| < 12 {
      return None;
    }
    if 256 * (buf[4] as int) + buf[5] as int == 0 {
      return None;
    }
    var name, pos := [], 12;
    ghost var all := ReadLabels(utf8, buf[12..]);
    ghost var seen: seq<Bytes> := [];
    ResumeStart(utf8, buf[12..]);
    assert buf[|buf|..] == [];
    while true
      invariant 12 <= pos <= |buf| && name == Join(seen)
      invariant forall i :: 0 <= i < |seen| ==> seen[i] != []
      invariant Resumes(all, seen, ReadLabels(utf8, buf[pos..]))
      decreases |buf| - pos
    {
      if pos >= |buf| {
        ResumeEnd(all, seen, ReadLabels(utf8, buf[pos..]));
        return None;
      }
      LabelsAt(utf8, buf, pos);
      ResumeEnd(all, seen, ReadLabels(utf8, buf[pos..]));
      var len := buf[pos] as int;
      if len == 0 {
        pos := pos + 1;
        break;
      }
      if len >= 64 || pos + 1 + len > |buf| {
        return None;
      }
      var lab := buf[pos + 1..pos + 1 + len];
      if !utf8(lab) {
        return None;
      }
      JoinSnoc(seen, lab);
      ResumeStep(all, seen, lab, ReadLabels(utf8, buf[pos..]), ReadLabels(utf8, buf[pos + 1 + len..]));
      if name != [] {
        name := name + [DOT];
      }
      name := name + lab;
      seen := seen + [lab];
      pos := pos + 1 + len;
    }
    if pos + 4 > |buf| {
      return None;
    }
    r := Some((name, 256 * (buf[pos] as int) + buf[pos + 1] as int));
  }

  /** Reading from the start is having read `seen` and reading on. */
  ghost predicate Resumes(all: Option<(seq<Bytes>, Bytes)>, seen: seq<Bytes>, more: Option<(seq<Bytes>, Bytes)>) {
    all == match more case None => None case Some((labels, rest)) => Some((seen + labels, rest))
  }

  lemma ResumeStart(utf8: Bytes -> bool, s: Bytes)
    ensures Resumes(ReadLabels(utf8, s), [], ReadLabels(utf8, s))
    ensures Join([]) == [] && ReadLabels(utf8, []) == None
  {
    if ReadLabels(utf8, s).Some? {
      assert [] + ReadLabels(utf8, s).value.0 == ReadLabels(utf8, s).value.0;
    }
  }

  lemma ResumeEnd(all: Option<(seq<Bytes>, Bytes)>, seen: seq<Bytes>, more: Option<(seq<Bytes>, Bytes)>)
    requires Resumes(all, seen, more)
    ensures more.None? ==> all.None?
    ensures more.Some? && more.value.0 == [] ==> all == Some((seen, more.value.1))
  {
    assert seen + [] == seen;
  }

  lemma ResumeStep(all: Option<(seq<Bytes>, Bytes)>, seen: seq<Bytes>, lab: Bytes,
                   here: Option<(seq<Bytes>, Bytes)>, next: Option<(seq<Bytes>, Bytes)>)
    requires Resumes(all, seen, here) && Resumes(here, [lab], next)
    ensures Resumes(all, seen + [lab], next)
  {
    if next.Some? {
      Assoc(seen, [lab], next.value.0);
    }
  }

  /** A message with one or more questions: header, first name, type, and the rest. */
  function Message(header: Bytes, labels: seq<Bytes>, qtype: u16, rest: Bytes): Bytes
    requires forall i :: 0 <= i < |labels| ==> |labels[i]| < 256
  {
    header + (EncodeName(labels) + ([qtype / 256, qtype % 256] + rest))
  }

  predicate Header(header: Bytes) { |header| == 12 && !(header[4] == 0 && header[5] == 0) }

  /** The parser accepts exactly the messages whose question is complete, and reads its name and type. */
  lemma QueryReads(utf8: Bytes -> bool, header: Bytes, labels: seq<Bytes>, qtype: u16, rest: Bytes)
    requires Header(header) && WireLabels(utf8, labels) && |rest| >= 2
    ensures Query(utf8, Message(header, labels, qtype, rest)) == Some((Join(labels), qtype))
  {
    hide ReadLabels;
    hide EncodeName;
    hide Join;
    var after := [qtype / 256, qtype % 256] + rest;
    var msg := Message(header, labels, qtype, rest);
    assert msg[12..] == EncodeName(labels) + after;
    LabelsRead(utf8, labels, after);
  }

  lemma ReadsQuery(utf8: Bytes -> bool, msg: Bytes) returns (labels: seq<Bytes>, rest: Bytes)
    requires Query(utf8, msg).Some?
    ensures Header(msg[..12]) && WireLabels(utf8, labels) && |rest| >= 2
    ensures msg == Message(msg[..12], labels, Query(utf8, msg).value.1, rest)
    ensures Query(utf8, msg).value.0 == Join(labels)
  {
    hide ReadLabels;
    hide EncodeName;
    hide Join;
    ReadsLabels(utf8, msg[12..]);
    var (names, after) := ReadLabels(utf8, msg[12..]).value;
    labels, rest := names, after[2..];
    assert after == [after[0], after[1]] + rest;
    assert msg == msg[..12] + msg[12..];
  }

  lemma {:induction false} NamesArePrefixFree(a: seq<Bytes>, b: seq<Bytes>, x: Bytes, y: Bytes)
    requires forall i :: 0 <= i < |a| ==> 0 < |a[i]| < 256
    requires forall i :: 0 <= i < |b| ==> 0 < |b[i]| < 256
    requires EncodeName(a) + x == EncodeName(b) + y
    ensures a == b && x == y
  {
    var s := EncodeName(a) + x;
    assert s[0] == if a == [] then 0 else |a[0]|;
    assert s[0] == if b == [] then 0 else |b[0]|;
    if a == [] {
      SplitEqual([0], x, [0], y);
    } else {
      var ta, tb := EncodeName(a[1..]), EncodeName(b[1..]);
      assert s == ([|a[0]|] + a[0]) + (ta + x);
      assert s == ([|b[0]|] + b[0]) + (tb + y);
      SplitEqual([|a[0]|] + a[0], ta + x, [|b[0]|] + b[0], tb + y);
      CancelLeft([|a[0]|], a[0], b[0]);
      NamesArePrefixFree(a[1..], b[1..], x, y);
      assert a == [a[0]] + a[1..] && b == [b[0]] + b[1..];
    }
  }

  /** Cutting a one-question message short anywhere makes it unreadable. */
  lemma ProperPrefixRejected(utf8: Bytes -> bool, header: Bytes, labels: seq<Bytes>, qtype: u16, qclass: Bytes, n: nat)
    requires Header(header) && WireLabels(utf8, labels) && |qclass| == 2
    requires n < |Message(header, labels, qtype, qclass)|
    ensures Query(utf8, Message(header, labels, qtype, qclass)[..n]) == None
  {
    hide EncodeName;
    hide Query;
    var msg := Message(header, labels, qtype, qclass);
    var cut := msg[..n];
    if Query(utf8, cut).Some? {
      var names, rest := ReadsQuery(utf8, cut);
      var after := [Query(utf8, cut).value.1 / 256, Query(utf8, cut).value.1 % 256] + rest;
      var end := [qtype / 256, qtype % 256] + qclass;
      assert msg == cut + msg[n..];
      Assoc(EncodeName(names), after, msg[n..]);
      Assoc(cut[..12], EncodeName(names) + after, msg[n..]);
      SplitEqual(cut[..12], EncodeName(names) + (after + msg[n..]), header, EncodeName(labels) + end);
      WireLabelsAreShort(utf8, names);
      WireLabelsAreShort(utf8, labels);
      NamesArePrefixFree(names, labels, after + msg[n..], end);
    }
  }

  lemma WireLabelsAreShort(utf8: Bytes -> bool, labels: seq<Bytes>)
    requires WireLabels(utf8, labels)
    ensures forall i :: 0 <= i < |labels| ==> 0 < |labels[i]| < 256
  {
    forall i | 0 <= i < |labels| ensures 0 < |labels[i]| < 256 {
      assert WireLabel(utf8, labels[i]);
    }
  }

  // ---------------------------------------------------------------- replies

  /** The top bit (QR, or RA in the second octet), and the bit of weight two (TC). */
  predicate TopBit(b: byte) { b >= 0x80 }

  predicate TcBit(b: byte) { b % 4 >= 2 }

  /** QR set, TC clear, everything else as asked. */
  predicate FirstFlags(asked: byte, b: byte) {
    TopBit(b) && !TcBit(b) && b % 2 == asked % 2 && b % 128 / 4 == asked % 128 / 4
  }

  /** RA clear, the middle bits as asked, the given code. */
  predicate SecondFlags(asked: byte, rcode: byte, b: byte) {
    !TopBit(b) && b / 16 == asked % 128 / 16 && b % 16 == rcode % 16
  }

  lemma OctetParts(m: nat, r: nat)
    requires m < 32 && r < 2
    ensures var b := 0x80 + 4 * m + r; b % 128 / 4 == m && b % 4 == r && b % 2 == r
  {
    var b := 0x80 + 4 * m + r;
    assert b % 128 == 4 * m + r;
    assert b % 4 == r;
  }

  /** Setting the top bit and clearing the bit of weight two. */
  function ReplyFirst(asked: byte): (b: byte)
    ensures FirstFlags(asked, b)
  {
    OctetParts(asked % 128 / 4, asked % 2);
    0x80 + 4 * (asked % 128 / 4) + asked % 2
  }

  function ReplySecond(asked: byte, rcode: byte): (b: byte)
    ensures SecondFlags(asked, rcode, b)
  {
    asked % 128 / 16 * 16 + rcode % 16
  }

  lemma FirstFlagsValue(asked: byte, b: byte)
    requires FirstFlags(asked, b)
    ensures b == 0x80 + 4 * (asked % 128 / 4) + asked % 2
  {
    var c := b - 0x80;
    assert b % 128 == c;
    assert b % 4 == c % 4;
  }

  lemma FirstFlagsUnique(asked: byte, a: byte, b: byte)
    requires FirstFlags(asked, a) && FirstFlags(asked, b)
    ensures a == b
  {
    hide FirstFlags;
    FirstFlagsValue(asked, a);
    FirstFlagsValue(asked, b);
  }

  lemma SecondFlagsUnique(asked: byte, rcode: byte, a: byte, b: byte)
    requires SecondFlags(asked, rcode, a) && SecondFlags(asked, rcode, b)
    ensures a == b
  {
  }

  /** The reply answers the query: same identifier and question section, flags as above, and no
      records after the question. */
  predicate IsReply(query: Bytes, rcode: byte, reply: Bytes) {
    && |reply| == |query| >= 12
    && FirstFlags(query[2], reply[2]) && SecondFlags(query[3], rcode, reply[3])
    && (forall i :: 6 <= i < 12 ==> reply[i] == 0)
    && forall i :: 0 <= i < |query| && !(2 <= i < 4) && !(6 <= i < 12) ==> reply[i] == query[i]
  }

  /** Rewrites a query into a reply in place. */
  method Craft(resp: array<byte>, rcode: byte)
    requires resp.Length >= 12
    modifies resp
    ensures IsReply(old(resp[..]), rcode, resp[..])
  {
    hide FirstFlags;
    hide SecondFlags;
    hide ReplyFirst;
    hide ReplySecond;
    resp[2] := ReplyFirst(resp[2]);
    resp[3] := ReplySecond(resp[3], rcode);
    resp[6] := 0;
    resp[7] := 0;
    resp[8] := 0;
    resp[9] := 0;
    resp[10] := 0;
    resp[11] := 0;
  }

  method RcodeResponse(query: Bytes, rcode: byte) returns (r: Option<Bytes>)
    ensures r.Some? <==> |query| >= 12
    ensures r.Some? ==> IsReply(query, rcode, r.value)
  {
    if |query| < 12 {
      return None;
    }
    var resp := new byte[|query|](i requires 0 <= i < |query| => query[i]);
    assert resp[..] == query;
    Craft(resp, rcode);
    r := Some(resp[..]);
  }

  /** A reply carries the same question, if there is one. */
  lemma ReplyKeepsQuestion(utf8: Bytes -> bool, query: Bytes, rcode: byte, reply: Bytes)
    requires IsReply(query, rcode, reply)
    ensures Query(utf8, reply) == Query(utf8, query)
  {
    assert reply[12..] == query[12..];
  }

  /** The query and the code determine the reply. */
  lemma ReplyIsUnique(query: Bytes, rcode: byte, a: Bytes, b: Bytes)
    requires IsReply(query, rcode, a) && IsReply(query, rcode, b)
    ensures a == b
  {
    hide FirstFlags;
    hide SecondFlags;
    FirstFlagsUnique(query[2], a[2], b[2]);
    SecondFlagsUnique(query[3], rcode, a[3], b[3]);
    assert forall i :: 0 <= i < |a| ==> a[i] == b[i];
  }

  // ---------------------------------------------------------------- the decision

  /** What is recorded about a packet. */
  datatype Decision = Allowed | Denied | Malformed

  const NXDOMAIN: byte := 3
  const FORMERR: byte := 1

  /** The decision before any exchange with the upstream resolver. */
  function Decide(utf8: Bytes -> bool, allow: set<Bytes>, query: Bytes): Decision {
    match Query(utf8, query)
    case None => Malformed
    case Some((qname, _)) => if Matches(allow, qname) then Allowed else Denied
  }

  /** One packet: whether it is forwarded, what is recorded, and the reply.  `upstream` is the resolver's
      answer, if the packet is forwarded and an answer comes back. */
  method Handle(utf8: Bytes -> bool, patterns: seq<Bytes>, query: Bytes, upstream: Option<Bytes>)
    returns (forwarded: bool, recorded: Decision, reply: Option<Bytes>)
    ensures exists allow :: && Normalizes(patterns, allow)
                            && forwarded == Decide(utf8, allow, query).Allowed?
                            && recorded == (if forwarded && upstream.None? then Denied else Decide(utf8, allow, query))
    ensures forwarded && upstream.Some? ==> reply == upstream
    ensures !(forwarded && upstream.Some?) ==> (reply.Some? <==> |query| >= 12)
    ensures !(forwarded && upstream.Some?) && reply.Some? ==>
              IsReply(query, if recorded == Denied then 3 else 1, reply.value)
  {
    var allow := NewAllowlist(patterns);
    var question := ParseQuery(utf8, query);
    if question.None? {
      forwarded, recorded := false, Malformed;
      reply := RcodeResponse(query, FORMERR);
    } else if Matches(allow, question.value.0) {
      forwarded := true;
      if upstream.Some? {
        recorded, reply := Allowed, upstream;
      } else {
        recorded := Denied;
        reply := RcodeResponse(query, NXDOMAIN);
      }
    } else {
      forwarded, recorded := false, Denied;
      reply := RcodeResponse(query, NXDOMAIN);
    }
  }

  /** End to end, for every complete question: the packet goes upstream exactly when some normalized
      pattern's label list is a suffix of the labels of the normalized name, and is otherwise denied. */
  lemma DecisionExact(utf8: Bytes -> bool, patterns: seq<Bytes>, allow: set<Bytes>,
                      header: Bytes, labels: seq<Bytes>, qtype: u16, rest: Bytes)
    requires Normalizes(patterns, allow) && WireLabels(utf8, labels) && Header(header) && |rest| >= 2
    ensures Decide(utf8, allow, Message(header, labels, qtype, rest)) ==
            if Covered(patterns, SplitDots(Normalize(Join(labels)))) then Allowed else Denied
  {
    hide Matches;
    hide Covered;
    hide Message;
    hide Query;
    QueryReads(utf8, header, labels, qtype, rest);
    MatchesCovered(patterns, allow, Join(labels));
  }

  /** A question is decided by label-wise matching, whatever the patterns. */
  ghost predicate DecidedByLabels(utf8: Bytes -> bool, header: Bytes, labels: seq<Bytes>, qtype: u16, rest: Bytes)
    requires forall i :: 0 <= i < |labels| ==> |labels[i]| < 256
  {
    forall patterns, allow :: Normalizes(patterns, allow) ==>
      Decide(utf8, allow, Message(header, labels, qtype, rest)) ==
      if AllowedBy(patterns, labels) then Allowed else Denied
  }

  /** Every complete question is decided by label-wise matching exactly when normalizing its name leaves
      its lower-cased labels behind the last one with a dot inside. */
  lemma DecidedByLabelsIff(utf8: Bytes -> bool, header: Bytes, labels: seq<Bytes>, qtype: u16, rest: Bytes)
    requires WireLabels(utf8, labels) && Header(header) && |rest| >= 2
    ensures DecidedByLabels(utf8, header, labels, qtype, rest) <==>
            Normalize(Join(labels)) == Join(DotFreeTail(LowerAll(labels)))
  {
    hide Matches;
    hide Message;
    hide Query;
    hide AllowedBy;
    hide Normalizes;
    WireLabelsAreShort(utf8, labels);
    QueryReads(utf8, header, labels, qtype, rest);
    AgreesIff(labels);
  }

  /** In particular every question with letter, digit, hyphen and underscore labels is. */
  lemma HostQuestionsAreDecidedByLabels(utf8: Bytes -> bool, header: Bytes, labels: seq<Bytes>, qtype: u16, rest: Bytes)
    requires HostLabels(labels) && Header(header) && |rest| >= 2
    requires forall i :: 0 <= i < |labels| ==> utf8(labels[i])
    ensures forall i :: 0 <= i < |labels| ==> |labels[i]| < 256
    ensures DecidedByLabels(utf8, header, labels, qtype, rest)
  {
    hide DecidedByLabels;
    forall i | 0 <= i < |labels| ensures WireLabel(utf8, labels[i]) {
      assert HostLabel(labels[i]);
    }
    HostNamesAgree(labels);
    AgreesIff(labels);
    DecidedByLabelsIff(utf8, header, labels, qtype, rest);
  }
}
