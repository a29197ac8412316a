/** DER lengths, elements, concatenated certificates, and the signed part of a certificate. */
module Der {
  import opened Prelude
  import opened Endian

  const SEQUENCE: byte := 0x30
  const BIT_STRING: byte := 0x03

  // ---------------------------------------------------------------- lengths

  /** `octets` is an accepted encoding of `len`: one octet below 0x80, or 0x80 + k followed by k
      big-endian octets for k in 1..=4 (section 8.1.3 of X.690; leading zeros are tolerated). */
  predicate EncodesLength(octets: Bytes, len: nat) {
    || (|octets| == 1 && octets[0] == len && len < 0x80)
    || (2 <= |octets| <= 5 && octets[0] as int == 0x80 + |octets| - 1 && BeValue(octets[1..]) == len)
  }

  datatype Length = Length(len: nat, size: nat)

  /** The length at the front of `s`, and how many octets it takes. */
  function ReadLength(s: Bytes): (r: Option<Length>)
    ensures r.Some? ==> 1 <= r.value.size <= |s|
  {
    if s == [] then None
    else if s[0] < 0x80 then Some(Length(s[0], 1))
    else
      var n := s[0] - 0x80;
      if n == 0 || n > 4 || |s| < 1 + n then None
      else Some(Length(BeValue(s[1..1 + n]), 1 + n))
  }

  function From(buf: Bytes, idx: nat): Bytes {
    if idx <= |buf| then buf[idx..] else []
  }

  /** The length at `idx`, accumulated octet by octet; also returns where the content starts. */
  method DerLen(buf: Bytes, idx: nat) returns (r: Option<(nat, nat)>)
    ensures r == match ReadLength(From(buf, idx))
                 case None => None
                 case Some(h) => Some((h.len, idx + h.size))
  {
    if idx >= |buf| {
      return None;
    }
    var first: int := buf[idx];
    if first < 0x80 {
      return Some((first, idx + 1));
    }
    var n := first - 0x80;
    if n == 0 || n > 4 {
      return None;
    }
    ghost var s := buf[idx..];
    var len := 0;
    for i := 0 to n
      invariant idx + i < |buf| && len == BeValue(s[1..1 + i])
    {
      if idx + 1 + i >= |buf| {
        return None;
      }
      BePush(s[1..1 + i], buf[idx + 1 + i]);
      assert s[1..1 + (i + 1)] == s[1..1 + i] + [buf[idx + 1 + i]];
      len := 256 * len + buf[idx + 1 + i] as int;
    }
    r := Some((len, idx + 1 + n));
  }

  lemma BePush(b: Bytes, x: byte)
    ensures BeValue(b + [x]) == 256 * BeValue(b) + x as int
  {
    assert Reverse(b + [x]) == [x] + Reverse(b);
    assert ([x] + Reverse(b))[1..] == Reverse(b);
  }

  /** The reader returns (len, size) exactly when the first `size` bytes encode `len`. */
  lemma ReadLengthExact(s: Bytes, len: nat, size: nat)
    ensures ReadLength(s) == Some(Length(len, size)) <==> size <= |s| && EncodesLength(s[..size], len)
  {
    if 1 <= size <= |s| {
      assert s[..size][0] == s[0] && s[..size][1..] == s[1..size];
    }
  }

  lemma ReadLengthExtends(s: Bytes, rest: Bytes)
    requires ReadLength(s).Some?
    ensures ReadLength(s + rest) == ReadLength(s)
  {
    var h := ReadLength(s).value;
    assert (s + rest)[..h.size] == s[..h.size];
    ReadLengthExact(s, h.len, h.size);
    ReadLengthExact(s + rest, h.len, h.size);
  }

  /** The encoder: the short form, or the long form with the fewest octets. */
  function EncodeLength(len: u32): (r: Bytes)
    ensures 1 <= |r| <= 5
  {
    if len < 0x80 then [len]
    else if len < 0x100 then [0x81] + BeBytes(len, 1)
    else if len < 0x1_0000 then [0x82] + BeBytes(len, 2)
    else if len < 0x100_0000 then [0x83] + BeBytes(len, 3)
    else [0x84] + BeBytes(len, 4)
  }

  lemma LongForm(len: nat, k: nat)
    requires 1 <= k <= 4 && len < Pow256(k)
    ensures EncodesLength([0x80 + k] + BeBytes(len, k), len)
  {
    var o: Bytes := [0x80 + k] + BeBytes(len, k);
    assert o[1..] == BeBytes(len, k);
    BeRoundTrip(len, k);
  }

  lemma EncodeLengthEncodes(len: u32)
    ensures EncodesLength(EncodeLength(len), len)
  {
    Pow256Small();
    assert Pow256(3) == 0x100_0000;
    if 0x80 <= len {
      LongForm(len, if len < 0x100 then 1 else if len < 0x1_0000 then 2 else if len < 0x100_0000 then 3 else 4);
    }
  }

  // ---------------------------------------------------------------- elements

  /** A tag, the length octets, the content. */
  function Tlv(tag: byte, octets: Bytes, content: Bytes): Bytes { [tag] + octets + content }

  function Encode(tag: byte, content: Bytes): Bytes
    requires |content| < 0x1_0000_0000
  {
    Tlv(tag, EncodeLength(|content|), content)
  }

  /** Where an element's content starts and ends. */
  datatype Element = Element(start: nat, end: nat)

  /** The element of the given tag at the front of `s`. */
  function ReadElement(tag: byte, s: Bytes): (r: Option<Element>)
    ensures r.Some? ==> 2 <= r.value.start <= r.value.end <= |s|
  {
    if s == [] || s[0] != tag then None
    else match ReadLength(s[1..])
      case None => None
      case Some(h) =>
        if 1 + h.size + h.len <= |s| then Some(Element(1 + h.size, 1 + h.size + h.len)) else None
  }

  /** `e` is one element of the given tag and nothing more. */
  predicate IsElement(tag: byte, e: Bytes) {
    ReadElement(tag, e).Some? && ReadElement(tag, e).value.end == |e|
  }

  /** Any accepted header makes an element, and the reader finds its content again. */
  lemma TlvReads(tag: byte, octets: Bytes, content: Bytes)
    requires EncodesLength(octets, |content|)
    ensures ReadElement(tag, Tlv(tag, octets, content)) ==
            Some(Element(1 + |octets|, |Tlv(tag, octets, content)|))
    ensures Tlv(tag, octets, content)[1 + |octets|..] == content
  {
    var s := Tlv(tag, octets, content);
    assert s[1..][..|octets|] == octets;
    ReadLengthExact(s[1..], |content|, |octets|);
  }

  /** And every element has that shape. */
  lemma ElementShape(tag: byte, e: Bytes) returns (octets: Bytes, content: Bytes)
    requires IsElement(tag, e)
    ensures e == Tlv(tag, octets, content) && EncodesLength(octets, |content|)
    ensures content == e[ReadElement(tag, e).value.start..]
  {
    var el := ReadElement(tag, e).value;
    octets, content := e[1..el.start], e[el.start..];
    assert e[1..][..el.start - 1] == octets;
    ReadLengthExact(e[1..], |content|, |octets|);
  }

  /** An element is its tag, an accepted encoding of the content's length, and the content. */
  lemma ElementIff(tag: byte, e: Bytes)
    ensures IsElement(tag, e) <==>
            exists octets, content :: EncodesLength(octets, |content|) && e == [tag] + octets + content
  {
    if IsElement(tag, e) {
      var octets, content := ElementShape(tag, e);
      assert EncodesLength(octets, |content|) && e == [tag] + octets + content;
    } else if octets, content :| EncodesLength(octets, |content|) && e == [tag] + octets + content {
      TlvReads(tag, octets, content);
    }
  }

  lemma EncodeIsElement(tag: byte, content: Bytes)
    requires |content| < 0x1_0000_0000
    ensures IsElement(tag, Encode(tag, content))
  {
    EncodeLengthEncodes(|content|);
    TlvReads(tag, EncodeLength(|content|), content);
  }

  lemma ElementExtends(tag: byte, e: Bytes, rest: Bytes)
    requires ReadElement(tag, e).Some?
    ensures ReadElement(tag, e + rest) == ReadElement(tag, e)
  {
    assert (e + rest)[1..] == e[1..] + rest;
    ReadLengthExtends(e[1..], rest);
  }

  lemma ElementPrefix(tag: byte, s: Bytes)
    requires ReadElement(tag, s).Some?
    ensures var el := ReadElement(tag, s).value;
            ReadElement(tag, s[..el.end]) == Some(el) && IsElement(tag, s[..el.end])
  {
    var el := ReadElement(tag, s).value;
    var e := s[..el.end];
    assert e[1..][..el.start - 1] == s[1..][..el.start - 1];
    ReadLengthExact(s[1..], el.end - el.start, el.start - 1);
    ReadLengthExact(e[1..], el.end - el.start, el.start - 1);
  }

  // ---------------------------------------------------------------- concatenated certificates

  ghost predicate AllElements(es: seq<Bytes>) {
    forall i :: 0 <= i < |es| ==> IsElement(0x30, es[i])
  }

  /** Cuts a blob into its consecutive SEQUENCE elements. */
  function Split(blob: Bytes): (r: Option<seq<Bytes>>)
    decreases |blob|
  {
    if blob == [] then Some([])
    else match ReadElement(SEQUENCE, blob)
      case None => None
      case Some(el) => match Split(blob[el.end..])
        case None => None
        case Some(tail) => Some([blob[..el.end]] + tail)
  }

  method SplitConcatDer(blob: Bytes) returns (r: Option<seq<Bytes>>)
    ensures r == Split(blob)
  {
    var out := [];
    var p := 0;
    assert blob[0..] == blob;
    assert Split(blob).Some? ==> out + Split(blob).value == Split(blob).value;
    while p < |blob|
      invariant p <= |blob|
      invariant Split(blob) == match Split(blob[p..]) case None => None case Some(tail) => Some(out + tail)
    {
      ghost var rest := blob[p..];
      if blob[p] != SEQUENCE {
        return None;
      }
      assert From(blob, p + 1) == rest[1..];
      var header := DerLen(blob, p + 1);
      if header.None? {
        return None;
      }
      var (len, start) := header.value;
      var end := start + len;
      if end > |blob| {
        return None;
      }
      SplitStep(blob, out, p, end);
      out := out + [blob[p..end]];
      p := end;
    }
    assert blob[p..] == [] && out + [] == out;
    r := Some(out);
  }

  lemma SplitStep(blob: Bytes, out: seq<Bytes>, p: nat, end: nat)
    requires p < end <= |blob| && ReadElement(SEQUENCE, blob[p..]).Some?
    requires end == p + ReadElement(SEQUENCE, blob[p..]).value.end
    ensures match Split(blob[end..])
            case None => Split(blob[p..]).None?
            case Some(tail) =>
              && Split(blob[p..]).Some?
              && out + Split(blob[p..]).value == out + [blob[p..end]] + tail
  {
    assert blob[p..][end - p..] == blob[end..];
    assert blob[p..][..end - p] == blob[p..end];
  }

  lemma {:induction false} SplitSound(blob: Bytes)
    requires Split(blob).Some?
    ensures Concat(Split(blob).value) == blob && AllElements(Split(blob).value)
    decreases |blob|
  {
    if blob != [] {
      var end := ReadElement(SEQUENCE, blob).value.end;
      SplitSound(blob[end..]);
      ElementPrefix(SEQUENCE, blob);
      assert Split(blob).value[1..] == Split(blob[end..]).value;
      assert blob == blob[..end] + blob[end..];
    }
  }

  lemma {:induction false} SplitComplete(es: seq<Bytes>)
    requires AllElements(es)
    ensures Split(Concat(es)) == Some(es)
  {
    if es != [] {
      SplitComplete(es[1..]);
      ElementExtends(SEQUENCE, es[0], Concat(es[1..]));
      var blob := Concat(es);
      assert blob[..|es[0]|] == es[0] && blob[|es[0]|..] == Concat(es[1..]);
      assert es == [es[0]] + es[1..];
    }
  }

  /** Splitting and concatenating are mutual inverses on lists of exact SEQUENCE elements, so a blob
      has at most one decomposition and the splitter finds it whenever there is one. */
  lemma SplitInverts(blob: Bytes, es: seq<Bytes>)
    ensures Split(blob) == Some(es) <==> Concat(es) == blob && AllElements(es)
  {
    if Split(blob).Some? {
      SplitSound(blob);
    }
    if AllElements(es) {
      SplitComplete(es);
    }
  }

  // ---------------------------------------------------------------- certificates

  /** The octets of a BIT STRING at the front of `s` that leaves no bit unused. */
  function SignatureOctets(s: Bytes): Option<Bytes> {
    var value :- ReadElement(BIT_STRING, s);
    var bits := s[value.start..value.end];
    if bits == [] || bits[0] != 0 then None else Some(bits[1..])
  }

  /** Skips the algorithm identifier. */
  function AfterAlgorithm(s: Bytes): Option<Bytes> {
    var alg :- ReadElement(SEQUENCE, s);
    Some(s[alg.end..])
  }

  /** The certificate's children: the signed region with its header, and the signature octets. */
  function Children(outer: Bytes): Option<(Bytes, Bytes)> {
    var tbs :- ReadElement(SEQUENCE, outer);
    var afterAlg :- AfterAlgorithm(outer[tbs.end..]);
    var sig :- SignatureOctets(afterAlg);
    Some((outer[..tbs.end], sig))
  }

  /** The signed region and the signature of a certificate; its outer length is not looked at. */
  function TbsAndSignature(cert: Bytes): Option<(Bytes, Bytes)> {
    if cert == [] || cert[0] != SEQUENCE then None
    else
      var h :- ReadLength(cert[1..]);
      Children(cert[1..][h.size..])
  }

  /** The certificate's outer header, signed region, algorithm, signature header, signature, and
      whatever follows. */
  datatype Shape =
    Shape(octets: Bytes, outerLen: nat, tbs: Bytes, alg: Bytes, sigOctets: Bytes, sig: Bytes, tail: Bytes)
  {
    predicate Valid() {
      && EncodesLength(octets, outerLen)
      && IsElement(0x30, tbs) && IsElement(0x30, alg)
      && EncodesLength(sigOctets, |sig| + 1)
    }

    function AfterAlg(): Bytes { [0x03] + sigOctets + ([0] + sig) + tail }

    function Outer(): Bytes { tbs + (alg + AfterAlg()) }

    function Bytes(): Bytes { [0x30] + (octets + Outer()) }
  }

  lemma DropPrefix(a: Bytes, b: Bytes)
    ensures (a + b)[|a|..] == b && (a + b)[..|a|] == a
  {
  }

  lemma SignatureReads(octets: Bytes, sig: Bytes, tail: Bytes)
    requires EncodesLength(octets, |sig| + 1)
    ensures SignatureOctets(Tlv(BIT_STRING, octets, [0] + sig) + tail) == Some(sig)
  {
    var sv := Tlv(BIT_STRING, octets, [0] + sig);
    TlvReads(BIT_STRING, octets, [0] + sig);
    ElementExtends(BIT_STRING, sv, tail);
    assert (sv + tail)[1 + |octets|..|sv|] == sv[1 + |octets|..];
    DropPrefix([0], sig);
  }

  lemma AlgorithmReads(alg: Bytes, rest: Bytes)
    requires IsElement(SEQUENCE, alg)
    ensures AfterAlgorithm(alg + rest) == Some(rest)
  {
    ElementExtends(SEQUENCE, alg, rest);
    DropPrefix(alg, rest);
  }

  lemma ChildrenRead(tbs: Bytes, rest: Bytes, afterAlg: Bytes)
    requires IsElement(SEQUENCE, tbs) && AfterAlgorithm(rest) == Some(afterAlg)
    ensures Children(tbs + rest) ==
            match SignatureOctets(afterAlg) case None => None case Some(sig) => Some((tbs, sig))
  {
    ElementExtends(SEQUENCE, tbs, rest);
    DropPrefix(tbs, rest);
  }

  lemma OuterReads(octets: Bytes, len: nat, outer: Bytes)
    requires EncodesLength(octets, len)
    ensures TbsAndSignature([SEQUENCE] + (octets + outer)) == Children(outer)
  {
    DropPrefix([SEQUENCE], octets + outer);
    DropPrefix(octets, outer);
    ReadLengthExact(octets + outer, len, |octets|);
  }

  /** A certificate of that shape yields exactly its signed region and its signature. */
  lemma ShapeReads(c: Shape)
    requires c.Valid()
    ensures TbsAndSignature(c.Bytes()) == Some((c.tbs, c.sig))
  {
    OuterReads(c.octets, c.outerLen, c.Outer());
    AlgorithmReads(c.alg, c.AfterAlg());
    ChildrenRead(c.tbs, c.alg + c.AfterAlg(), c.AfterAlg());
    SignatureReads(c.sigOctets, c.sig, c.tail);
  }

  lemma SignatureShape(s: Bytes) returns (octets: Bytes, sig: Bytes, tail: Bytes)
    requires SignatureOctets(s).Some?
    ensures s == Tlv(BIT_STRING, octets, [0] + sig) + tail
    ensures EncodesLength(octets, |sig| + 1) && SignatureOctets(s) == Some(sig)
  {
    var value := ReadElement(BIT_STRING, s).value;
    ElementPrefix(BIT_STRING, s);
    var bits;
    octets, bits := ElementShape(BIT_STRING, s[..value.end]);
    assert bits == s[value.start..value.end];
    sig, tail := bits[1..], s[value.end..];
    assert bits == [0] + sig;
    assert s == s[..value.end] + tail;
  }

  lemma FirstElement(s: Bytes) returns (e: Bytes, rest: Bytes)
    requires ReadElement(SEQUENCE, s).Some?
    ensures s == e + rest && IsElement(SEQUENCE, e)
    ensures e == s[..ReadElement(SEQUENCE, s).value.end] && rest == s[ReadElement(SEQUENCE, s).value.end..]
  {
    var end := ReadElement(SEQUENCE, s).value.end;
    ElementPrefix(SEQUENCE, s);
    e, rest := s[..end], s[end..];
  }

  /** Only certificates of that shape are accepted. */
  lemma ReadsShape(cert: Bytes) returns (c: Shape)
    requires TbsAndSignature(cert).Some?
    ensures c.Valid() && c.Bytes() == cert && TbsAndSignature(cert) == Some((c.tbs, c.sig))
  {
    hide ReadElement;
    hide ReadLength;
    hide EncodesLength;
    hide SignatureOctets;
    var body := cert[1..];
    assert cert == [SEQUENCE] + body;
    var h := ReadLength(body).value;
    var octets, outer := body[..h.size], body[h.size..];
    assert body == octets + outer;
    ReadLengthExact(body, h.len, h.size);
    var tbs, afterTbs := FirstElement(outer);
    var alg, afterAlg := FirstElement(afterTbs);
    var sigOctets, sig, tail := SignatureShape(afterAlg);
    c := Shape(octets, h.len, tbs, alg, sigOctets, sig, tail);
  }

  /** A certificate as section 4.1 of RFC 5280 lays it out. */
  function Certificate(tbs: Bytes, alg: Bytes, sig: Bytes): Bytes
    requires |tbs| + |alg| + |sig| + 7 < 0x1_0000_0000
  {
    Encode(SEQUENCE, tbs + (alg + Encode(BIT_STRING, [0] + sig)))
  }

  /** Building a certificate and reading it back recovers what was signed and the signature. */
  lemma CertificateRoundTrip(tbs: Bytes, alg: Bytes, sig: Bytes)
    requires |tbs| + |alg| + |sig| + 7 < 0x1_0000_0000
    requires IsElement(SEQUENCE, tbs) && IsElement(SEQUENCE, alg)
    ensures TbsAndSignature(Certificate(tbs, alg, sig)) == Some((tbs, sig))
    ensures IsElement(SEQUENCE, Certificate(tbs, alg, sig))
  {
    var sv := Encode(BIT_STRING, [0] + sig);
    var body := tbs + (alg + sv);
    EncodeLengthEncodes(|body|);
    EncodeLengthEncodes(|sig| + 1);
    var c := Shape(EncodeLength(|body|), |body|, tbs, alg, EncodeLength(|sig| + 1), sig, []);
    assert c.AfterAlg() == sv;
    Assoc([SEQUENCE], EncodeLength(|body|), body);
    ShapeReads(c);
    EncodeIsElement(SEQUENCE, body);
  }
}
