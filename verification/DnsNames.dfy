/** Dotted names, the hostname allowlist, and when its textual test is label-wise matching.

    Case folding and trimming are modelled for ASCII text. */
module DnsNames {
  import opened Prelude
  import opened Text

  const DOT: byte := 46
  const STAR: byte := 42

  // ---------------------------------------------------------------- dotted names

  function Join(labels: seq<Bytes>): Bytes {
    if labels == [] then []
    else if |labels| == 1 then labels[0]
    else labels[0] + ([DOT] + Join(labels[1..]))
  }

  function SplitDots(s: Bytes): (r: seq<Bytes>)
    ensures r != []
  {
    if s == [] then [[]]
    else if s[0] == DOT then [[]] + SplitDots(s[1..])
    else
      var tail := SplitDots(s[1..]);
      [[s[0]] + tail[0]] + tail[1..]
  }

  predicate DotFree(lab: Bytes) { DOT !in lab }

  lemma {:induction false} JoinSplit(s: Bytes)
    ensures Join(SplitDots(s)) == s
  {
    if s != [] {
      var tail := SplitDots(s[1..]);
      JoinSplit(s[1..]);
      assert s == [s[0]] + s[1..];
      if s[0] == DOT {
        assert SplitDots(s)[1..] == tail;
      } else {
        assert SplitDots(s)[1..] == tail[1..];
        Assoc([s[0]], tail[0], [DOT] + Join(tail[1..]));
      }
    }
  }

  lemma SplitHead(s: Bytes)
    requires s != []
    ensures var tail := SplitDots(s[1..]);
            SplitDots(s) == if s[0] == DOT then [[]] + tail else [[s[0]] + tail[0]] + tail[1..]
  {
  }

  lemma PrependTo(b: byte, tail: seq<Bytes>, more: seq<Bytes>)
    requires tail != []
    ensures [[]] + tail + more == [[]] + (tail + more)
    ensures [[b] + tail[0]] + tail[1..] + more == [[b] + (tail + more)[0]] + (tail + more)[1..]
  {
    assert (tail + more)[1..] == tail[1..] + more;
  }

  lemma {:induction false} SplitAppend(x: Bytes, y: Bytes)
    ensures SplitDots(x + ([DOT] + y)) == SplitDots(x) + SplitDots(y)
  {
    var s := x + ([DOT] + y);
    if x == [] {
      assert s == [DOT] + y && s[1..] == y;
    } else {
      assert s[1..] == x[1..] + ([DOT] + y) && s[0] == x[0];
      SplitAppend(x[1..], y);
      SplitHead(s);
      SplitHead(x);
      hide SplitDots;
      PrependTo(x[0], SplitDots(x[1..]), SplitDots(y));
    }
  }

  lemma {:induction false} SplitDotFree(lab: Bytes)
    requires DotFree(lab)
    ensures SplitDots(lab) == [lab]
  {
    if lab != [] {
      SplitDotFree(lab[1..]);
      assert lab == [lab[0]] + lab[1..];
    }
  }

  /** Splitting a joined list of dot-free labels gives the labels back. */
  lemma {:induction false} SplitJoin(labels: seq<Bytes>)
    requires labels != [] && forall i :: 0 <= i < |labels| ==> DotFree(labels[i])
    ensures SplitDots(Join(labels)) == labels
  {
    SplitDotFree(labels[0]);
    if |labels| > 1 {
      SplitJoin(labels[1..]);
      SplitAppend(labels[0], Join(labels[1..]));
      assert labels == [labels[0]] + labels[1..];
    }
  }

  lemma {:induction false} JoinAppend(a: seq<Bytes>, b: seq<Bytes>)
    requires a != [] && b != []
    ensures Join(a + b) == Join(a) + ([DOT] + Join(b))
  {
    if |a| == 1 {
      assert (a + b)[1..] == b;
    } else {
      assert (a + b)[1..] == a[1..] + b;
      JoinAppend(a[1..], b);
      Assoc([DOT], Join(a[1..]), [DOT] + Join(b));
      Assoc(a[0], [DOT] + Join(a[1..]), [DOT] + Join(b));
    }
  }

  predicate IsSuffix(t: seq<Bytes>, s: seq<Bytes>) { |t| <= |s| && s[|s| - |t|..] == t }

  lemma SuffixSplit(s: seq<Bytes>, t: seq<Bytes>)
    ensures IsSuffix(t, s) ==> s == s[..|s| - |t|] + t
    ensures IsSuffix(t, s + t)
  {
  }

  lemma TextToLabels(labels: seq<Bytes>, x: Bytes, allow: Bytes)
    requires labels != [] && forall i :: 0 <= i < |labels| ==> DotFree(labels[i])
    requires Join(labels) == x + ([DOT] + allow)
    ensures IsSuffix(SplitDots(allow), labels)
  {
    hide Join;
    hide SplitDots;
    SplitJoin(labels);
    SplitAppend(x, allow);
    SuffixSplit(SplitDots(x), SplitDots(allow));
  }

  lemma LabelsToText(labels: seq<Bytes>, allow: Bytes)
    requires IsSuffix(SplitDots(allow), labels) && SplitDots(allow) != labels
    ensures EndsWith(Join(labels), [DOT] + allow)
  {
    hide Join;
    hide SplitDots;
    var parts := SplitDots(allow);
    var pre := labels[..|labels| - |parts|];
    SuffixSplit(labels, parts);
    JoinSplit(allow);
    assert pre != [];
    JoinAppend(pre, parts);
    EndsWithConcat(Join(pre), [DOT] + allow);
  }

  /** Textual matching of a whole name or of a name after a dot is matching of label lists. */
  lemma TextSuffixIsLabelSuffix(labels: seq<Bytes>, allow: Bytes)
    requires allow != [] && forall i :: 0 <= i < |labels| ==> DotFree(labels[i])
    ensures Join(labels) == allow || EndsWith(Join(labels), [DOT] + allow) <==> IsSuffix(SplitDots(allow), labels)
  {
    hide SplitDots;
    var name, parts := Join(labels), SplitDots(allow);
    JoinSplit(allow);
    if labels != [] {
      SplitJoin(labels);
      if EndsWith(name, [DOT] + allow) {
        EndsWithSplit(name, [DOT] + allow);
        TextToLabels(labels, name[..|name| - |[DOT] + allow|], allow);
      }
      if IsSuffix(parts, labels) && parts != labels {
        LabelsToText(labels, allow);
      }
    }
  }

  // ---------------------------------------------------------------- the allowlist

  predicate IsDot(b: byte) { b == DOT }

  predicate HasStar(s: Bytes) { |s| >= 2 && s[0] == STAR && s[1] == DOT }

  function StripStar(s: Bytes): Bytes { if HasStar(s) then s[2..] else s }

  function Normalize(s: Bytes): Bytes { Lower(TrimEnd(StripStar(Trim(s)), IsDot)) }

  lemma StarMeans(t: Bytes) returns (star: Bytes)
    ensures t == star + StripStar(t)
    ensures star == [42, 46] || (star == [] && !([42, 46] <= StripStar(t)))
  {
    if HasStar(t) {
      star := t[..2];
      assert star == [42, 46];
    } else {
      star := [];
    }
  }

  lemma DotsMean(s: Bytes) returns (dots: Bytes)
    ensures var core := TrimEnd(s, IsDot); s == core + dots && (core == [] || core[|core| - 1] != 46)
    ensures forall i :: 0 <= i < |dots| ==> dots[i] == 46
  {
    dots := TrimEndMeans(s, IsDot);
    assert forall i :: 0 <= i < |dots| ==> IsDot(dots[i]);
  }

  /** What normalization takes away: white space around, then a leading `*.`, then dots at the end; what is left
      is lower-cased. */
  lemma NormalizeMeans(s: Bytes) returns (lead: Bytes, star: Bytes, core: Bytes, dots: Bytes, tail: Bytes)
    ensures s == lead + (star + (core + dots)) + tail && |Normalize(s)| == |core|
    ensures forall i :: 0 <= i < |core| ==> Normalize(s)[i] == if 65 <= core[i] <= 90 then core[i] + 32 else core[i]
    ensures forall i :: 0 <= i < |lead| ==> 9 <= lead[i] <= 13 || lead[i] == 32
    ensures forall i :: 0 <= i < |tail| ==> 9 <= tail[i] <= 13 || tail[i] == 32
    ensures var t := star + (core + dots);
            t != [] ==> !(9 <= t[0] <= 13 || t[0] == 32) && !(9 <= t[|t| - 1] <= 13 || t[|t| - 1] == 32)
    ensures star == [42, 46] || (star == [] && !([42, 46] <= core + dots))
    ensures (forall i :: 0 <= i < |dots| ==> dots[i] == 46) && (core == [] || core[|core| - 1] != 46)
  {
    hide Trim, TrimEnd, Lower, StripStar;
    lead, tail := TrimMeans(s);
    star := StarMeans(Trim(s));
    dots := DotsMean(StripStar(Trim(s)));
    core := TrimEnd(StripStar(Trim(s)), IsDot);
    forall i | 0 <= i < |core| ensures Lower(core)[i] == if 65 <= core[i] <= 90 then core[i] + 32 else core[i] {
      LowerAt(core, i);
    }
  }

  /** The normalized, non-empty patterns. */
  ghost predicate Normalizes(patterns: seq<Bytes>, allow: set<Bytes>) {
    forall n :: n in allow <==> n != [] && exists i :: 0 <= i < |patterns| && Normalize(patterns[i]) == n
  }

  method NewAllowlist(patterns: seq<Bytes>) returns (allow: set<Bytes>)
    ensures Normalizes(patterns, allow)
  {
    allow := {};
    for k := 0 to |patterns|
      invariant forall n :: n in allow <==> n != [] && exists i :: 0 <= i < k && Normalize(patterns[i]) == n
    {
      var n := Normalize(patterns[k]);
      if n != [] {
        allow := allow + {n};
      }
    }
  }

  predicate Matches(allow: set<Bytes>, qname: Bytes) {
    var q := Normalize(qname);
    exists a :: a in allow && (q == a || EndsWith(q, [DOT] + a))
  }

  // ---------------------------------------------------------------- matching label lists

  /** The pattern's label list is a suffix of the given one. */
  predicate Covers(pattern: Bytes, parts: seq<Bytes>) {
    Normalize(pattern) != [] && IsSuffix(SplitDots(Normalize(pattern)), parts)
  }

  /** Some pattern's label list is a suffix of the given one. */
  ghost predicate Covered(patterns: seq<Bytes>, parts: seq<Bytes>) {
    exists i :: 0 <= i < |patterns| && Covers(patterns[i], parts)
  }

  lemma {:induction false} SplitIsDotFree(s: Bytes)
    ensures forall i :: 0 <= i < |SplitDots(s)| ==> DotFree(SplitDots(s)[i])
  {
    if s != [] {
      SplitIsDotFree(s[1..]);
    }
  }

  /** For every name: the textual test is label-wise matching of the name's own normalized text, cut at
      its dots. */
  lemma MatchesCovered(patterns: seq<Bytes>, allow: set<Bytes>, qname: Bytes)
    requires Normalizes(patterns, allow)
    ensures Matches(allow, qname) <==> Covered(patterns, SplitDots(Normalize(qname)))
  {
    hide Normalize;
    hide SplitDots;
    hide Join;
    var q := Normalize(qname);
    SplitIsDotFree(q);
    JoinSplit(q);
    forall a | a in allow
      ensures q == a || EndsWith(q, [DOT] + a) <==> IsSuffix(SplitDots(a), SplitDots(q))
    {
      TextSuffixIsLabelSuffix(SplitDots(q), a);
    }
    if Covered(patterns, SplitDots(q)) {
      var i :| 0 <= i < |patterns| && Covers(patterns[i], SplitDots(q));
      assert Normalize(patterns[i]) in allow;
    }
  }

  function LowerAll(labels: seq<Bytes>): (r: seq<Bytes>)
    ensures |r| == |labels|
  {
    seq(|labels|, i requires 0 <= i < |labels| => Lower(labels[i]))
  }

  lemma {:induction false} LowerJoin(labels: seq<Bytes>)
    ensures Lower(Join(labels)) == Join(LowerAll(labels))
  {
    if |labels| > 1 {
      LowerJoin(labels[1..]);
      assert LowerAll(labels)[1..] == LowerAll(labels[1..]);
      LowerConcat([DOT], Join(labels[1..]));
      assert Lower([DOT]) == [DOT];
      LowerConcat(labels[0], [DOT] + Join(labels[1..]));
    }
  }

  /** Some normalized pattern's label list is a suffix of the lower-cased label list. */
  ghost predicate AllowedBy(patterns: seq<Bytes>, labels: seq<Bytes>) { Covered(patterns, LowerAll(labels)) }

  ghost predicate NonEmpty(labels: seq<Bytes>) { forall i :: 0 <= i < |labels| ==> labels[i] != [] }

  ghost predicate AllDotFree(labels: seq<Bytes>) { forall i :: 0 <= i < |labels| ==> DotFree(labels[i]) }

  // ---------------------------------------------------------------- when the two agree

  /** Whatever the patterns, the textual test on the joined labels is label-wise matching. */
  ghost predicate Agrees(labels: seq<Bytes>) {
    forall patterns, allow :: Normalizes(patterns, allow) ==>
      (Matches(allow, Join(labels)) <==> AllowedBy(patterns, labels))
  }

  /** The longest suffix without a dot inside a label. */
  function DotFreeTail(parts: seq<Bytes>): seq<Bytes> {
    if parts == [] || !DotFree(parts[|parts| - 1]) then []
    else DotFreeTail(parts[..|parts| - 1]) + [parts[|parts| - 1]]
  }

  lemma SuffixSnoc(t: seq<Bytes>, s: seq<Bytes>)
    requires t != [] && s != []
    ensures IsSuffix(t, s) <==> t[|t| - 1] == s[|s| - 1] && IsSuffix(t[..|t| - 1], s[..|s| - 1])
  {
    var n := |s| - |t|;
    if n >= 0 {
      assert s[n..] == s[..|s| - 1][n..] + [s[|s| - 1]];
      assert t == t[..|t| - 1] + [t[|t| - 1]];
    }
  }

  /** A dot-free list is a suffix exactly when it is one of the dot-free tail. */
  lemma {:induction false} TailDecides(t: seq<Bytes>, parts: seq<Bytes>)
    requires AllDotFree(t)
    ensures IsSuffix(t, parts) <==> IsSuffix(t, DotFreeTail(parts))
    decreases |parts|
  {
    if t != [] && parts != [] {
      var last := parts[|parts| - 1];
      SuffixSnoc(t, parts);
      assert DotFree(t[|t| - 1]);
      if DotFree(last) {
        var tail := DotFreeTail(parts[..|parts| - 1]);
        SuffixSnoc(t, tail + [last]);
        assert (tail + [last])[..|tail|] == tail;
        TailDecides(t[..|t| - 1], parts[..|parts| - 1]);
      }
    }
  }

  lemma {:induction false} TailIsSuffix(parts: seq<Bytes>)
    ensures IsSuffix(DotFreeTail(parts), parts) && AllDotFree(DotFreeTail(parts))
    decreases |parts|
  {
    if parts != [] && DotFree(parts[|parts| - 1]) {
      var front, last := parts[..|parts| - 1], parts[|parts| - 1];
      TailIsSuffix(front);
      SuffixSnoc(DotFreeTail(front) + [last], parts);
      assert (DotFreeTail(front) + [last])[..|DotFreeTail(front)|] == DotFreeTail(front);
    }
  }

  lemma SuffixBothWays(s: seq<Bytes>, t: seq<Bytes>)
    requires IsSuffix(s, t) && IsSuffix(t, s)
    ensures s == t
  {
  }

  /** Normalized texts are lower case and do not end in a dot. */
  predicate Settled(a: Bytes) { Lower(a) == a && (a == [] || a[|a| - 1] != DOT) }

  lemma {:induction false} TrimmedDots(s: Bytes)
    ensures var t := TrimEnd(s, IsDot); t == [] || t[|t| - 1] != DOT
  {
    if s != [] && IsDot(s[|s| - 1]) {
      TrimmedDots(s[..|s| - 1]);
    }
  }

  lemma NormalizeSettles(s: Bytes)
    ensures Settled(Normalize(s))
  {
    TrimmedDots(StripStar(Trim(s)));
  }

  /** Every settled text is the normal form of some pattern. */
  function PatternFor(a: Bytes): Bytes { [STAR, DOT] + (a + [DOT]) }

  lemma PatternForNormalizes(a: Bytes)
    requires Settled(a)
    ensures Normalize(PatternFor(a)) == a
  {
    var p := PatternFor(a);
    assert TrimStart(p) == p && TrimEnd(p, IsSpace) == p;
    assert p[2..] == a + [DOT];
    TrimOneDot(a);
  }

  lemma TrimOneDot(a: Bytes)
    requires a == [] || a[|a| - 1] != DOT
    ensures TrimEnd(a + [DOT], IsDot) == a
  {
    TrimEndSnoc(a, DOT);
    TrimEndShrinks(a, IsDot);
    hide TrimEnd;
  }

  lemma TrimEndSnoc(a: Bytes, b: byte)
    requires IsDot(b)
    ensures TrimEnd(a + [b], IsDot) == TrimEnd(a, IsDot)
  {
    var s := a + [b];
    assert s[|s| - 1] == b && s[..|s| - 1] == a;
    hide IsDot;
  }

  ghost function AllowlistOf(pattern: Bytes): (allow: set<Bytes>)
    ensures Normalizes([pattern], allow)
  {
    assert [pattern][0] == pattern;
    if Normalize(pattern) == [] then {} else {Normalize(pattern)}
  }

  /** If the two agree, one settled pattern decides alike on both label lists. */
  lemma AgreeOn(labels: seq<Bytes>, a: Bytes)
    requires Agrees(labels) && Settled(a) && a != []
    ensures IsSuffix(SplitDots(a), SplitDots(Normalize(Join(labels)))) <==> IsSuffix(SplitDots(a), LowerAll(labels))
  {
    hide Normalize;
    hide SplitDots;
    hide Join;
    hide LowerAll;
    var p := PatternFor(a);
    PatternForNormalizes(a);
    MatchesCovered([p], AllowlistOf(p), Join(labels));
    assert Covers([p][0], SplitDots(Normalize(Join(labels)))) <==> Covered([p], SplitDots(Normalize(Join(labels))));
    assert Covers([p][0], LowerAll(labels)) <==> Covered([p], LowerAll(labels));
  }

  /** A name of non-empty labels starts with the first label's first byte and ends with the last one's
      last. */
  lemma {:induction false} JoinEnds(labels: seq<Bytes>)
    requires labels != [] && NonEmpty(labels)
    ensures var last := labels[|labels| - 1];
            && Join(labels) != [] && Join(labels)[0] == labels[0][0]
            && Join(labels)[|Join(labels)| - 1] == last[|last| - 1]
  {
    assert labels[0] != [];
    if |labels| > 1 {
      assert NonEmpty(labels[1..]);
      JoinEnds(labels[1..]);
    }
  }

  lemma LowerIdempotent(s: Bytes)
    ensures Lower(Lower(s)) == Lower(s)
  {
  }

  lemma LowerAllIdempotent(labels: seq<Bytes>)
    ensures LowerAll(LowerAll(labels)) == LowerAll(labels)
  {
    forall i | 0 <= i < |labels| ensures LowerAll(LowerAll(labels))[i] == LowerAll(labels)[i] {
      LowerIdempotent(labels[i]);
    }
  }

  lemma SuffixOfLower(labels: seq<Bytes>, d: seq<Bytes>)
    requires IsSuffix(d, LowerAll(labels))
    ensures LowerAll(d) == d && (NonEmpty(labels) ==> NonEmpty(d))
  {
    var m := LowerAll(labels);
    LowerAllIdempotent(labels);
    var n := |m| - |d|;
    forall i | 0 <= i < |d| ensures Lower(d[i]) == d[i] && (NonEmpty(labels) ==> d[i] != []) {
      assert d[i] == m[n..][i] == m[n + i];
      assert LowerAll(m)[n + i] == m[n + i];
      assert NonEmpty(labels) ==> labels[n + i] != [];
    }
    assert forall i :: 0 <= i < |d| ==> LowerAll(d)[i] == d[i];
  }

  lemma TailSettles(labels: seq<Bytes>)
    requires NonEmpty(labels)
    ensures var d := DotFreeTail(LowerAll(labels));
            && Settled(Join(d)) && (d == [] <==> Join(d) == [])
            && (d != [] ==> SplitDots(Join(d)) == d)
  {
    hide LowerAll;
    var d := DotFreeTail(LowerAll(labels));
    TailIsSuffix(LowerAll(labels));
    SuffixOfLower(labels, d);
    LowerJoin(d);
    if d != [] {
      JoinEnds(d);
      SplitJoin(d);
      assert DotFree(d[|d| - 1]) && d[|d| - 1] != [];
    }
  }

  lemma EmptyNameMatchesNothing(a: Bytes)
    requires a != []
    ensures !IsSuffix(SplitDots(a), SplitDots([]))
  {
    JoinSplit(a);
  }

  lemma AgreementIsNeeded(labels: seq<Bytes>)
    requires NonEmpty(labels) && Agrees(labels)
    ensures Normalize(Join(labels)) == Join(DotFreeTail(LowerAll(labels)))
  {
    hide Normalize;
    hide SplitDots;
    hide LowerAll;
    hide DotFreeTail;
    hide Agrees;
    hide Settled;
    var q, m := Normalize(Join(labels)), LowerAll(labels);
    var d := DotFreeTail(m);
    NormalizeSettles(Join(labels));
    TailSettles(labels);
    TailIsSuffix(m);
    JoinSplit(q);
    if d != [] {
      AgreeOn(labels, Join(d));
      if q == [] {
        EmptyNameMatchesNothing(Join(d));
      }
    }
    if q != [] {
      AgreeOn(labels, q);
      SplitIsDotFree(q);
      TailDecides(SplitDots(q), m);
      assert IsSuffix(SplitDots(q), SplitDots(q));
      if d != [] {
        SuffixBothWays(SplitDots(q), d);
      }
    }
  }

  lemma AgreementHolds(labels: seq<Bytes>, pattern: Bytes)
    requires NonEmpty(labels) && Normalize(Join(labels)) == Join(DotFreeTail(LowerAll(labels)))
    ensures Covers(pattern, SplitDots(Normalize(Join(labels)))) <==> Covers(pattern, LowerAll(labels))
  {
    hide Normalize;
    hide SplitDots;
    hide LowerAll;
    hide DotFreeTail;
    var a, m := Normalize(pattern), LowerAll(labels);
    SplitIsDotFree(a);
    TailDecides(SplitDots(a), m);
    TailSettles(labels);
    if a != [] && DotFreeTail(m) == [] {
      EmptyNameMatchesNothing(a);
    }
  }

  /** The exact condition, for all non-empty labels: the textual test is label-wise matching whatever the
      patterns exactly when normalizing the joined name leaves the lower-cased labels behind the last
      one that contains a dot. */
  lemma AgreesIff(labels: seq<Bytes>)
    requires NonEmpty(labels)
    ensures Agrees(labels) <==> Normalize(Join(labels)) == Join(DotFreeTail(LowerAll(labels)))
  {
    hide Normalize;
    hide SplitDots;
    hide LowerAll;
    hide DotFreeTail;
    hide Normalizes;
    hide Matches;
    if Agrees(labels) {
      AgreementIsNeeded(labels);
    }
    if Normalize(Join(labels)) == Join(DotFreeTail(LowerAll(labels))) {
      forall patterns, allow | Normalizes(patterns, allow)
        ensures Matches(allow, Join(labels)) <==> AllowedBy(patterns, labels)
      {
        MatchesCovered(patterns, allow, Join(labels));
        forall i | 0 <= i < |patterns|
          ensures Covers(patterns[i], SplitDots(Normalize(Join(labels)))) <==> Covers(patterns[i], LowerAll(labels))
        {
          AgreementHolds(labels, patterns[i]);
        }
      }
    }
  }

  // ---------------------------------------------------------------- ordinary names

  /** No space at either end of the name, and the first of several labels is not a lone star. */
  predicate PlainEnds(labels: seq<Bytes>)
    requires labels != [] && labels[0] != [] && labels[|labels| - 1] != []
  {
    var first, last := labels[0], labels[|labels| - 1];
    !IsSpace(first[0]) && !IsSpace(last[|last| - 1]) && !(|labels| > 1 && first == [42])
  }

  lemma {:induction false} TrimStartShrinks(s: Bytes)
    ensures |TrimStart(s)| <= |s|
    ensures |TrimStart(s)| == |s| <==> s == [] || !IsSpace(s[0])
    ensures |TrimStart(s)| == |s| ==> TrimStart(s) == s
  {
    if s != [] && IsSpace(s[0]) {
      TrimStartShrinks(s[1..]);
    }
  }

  lemma {:induction false} TrimEndShrinks(s: Bytes, drop: byte -> bool)
    ensures |TrimEnd(s, drop)| <= |s|
    ensures |TrimEnd(s, drop)| == |s| <==> s == [] || !drop(s[|s| - 1])
    ensures |TrimEnd(s, drop)| == |s| ==> TrimEnd(s, drop) == s
    decreases |s|
  {
    if s != [] && drop(s[|s| - 1]) {
      TrimEndShrinks(s[..|s| - 1], drop);
    }
  }

  /** Normalization only lowers the case exactly when it strips nothing. */
  lemma NormalizeIsLowerIff(s: Bytes)
    ensures Normalize(s) == Lower(s) <==>
            s == [] || (!IsSpace(s[0]) && !IsSpace(s[|s| - 1]) && !HasStar(s) && s[|s| - 1] != DOT)
  {
    TrimStartShrinks(s);
    TrimEndShrinks(TrimStart(s), IsSpace);
    TrimEndShrinks(StripStar(Trim(s)), IsDot);
  }

  lemma StarOfJoin(labels: seq<Bytes>)
    requires labels != [] && NonEmpty(labels) && AllDotFree(labels)
    ensures HasStar(Join(labels)) <==> |labels| > 1 && labels[0] == [STAR]
  {
    assert labels[0] != [] && DotFree(labels[0]);
    assert |labels[0]| >= 2 ==> labels[0][1] != DOT;
    assert |labels| > 1 && |labels[0]| == 1 ==> Join(labels)[1] == DOT;
    assert |labels[0]| == 1 ==> labels[0] == [labels[0][0]];
  }

  lemma {:induction false} TailOfDotFree(parts: seq<Bytes>)
    requires AllDotFree(parts)
    ensures DotFreeTail(parts) == parts
    decreases |parts|
  {
    if parts != [] {
      TailOfDotFree(parts[..|parts| - 1]);
      assert DotFree(parts[|parts| - 1]);
    }
  }

  lemma LowerIsDotFree(labels: seq<Bytes>)
    requires AllDotFree(labels)
    ensures AllDotFree(LowerAll(labels))
  {
    forall i | 0 <= i < |labels| ensures DotFree(LowerAll(labels)[i]) {
      assert DotFree(labels[i]);
    }
  }

  /** For labels without dots inside: agreement exactly when the ends of the name are plain. */
  lemma AgreesIffPlain(labels: seq<Bytes>)
    requires labels != [] && NonEmpty(labels) && AllDotFree(labels)
    ensures Agrees(labels) <==> PlainEnds(labels)
  {
    hide Normalize;
    hide Agrees;
    hide Join;
    hide LowerAll;
    AgreesIff(labels);
    LowerIsDotFree(labels);
    TailOfDotFree(LowerAll(labels));
    LowerJoin(labels);
    NormalizeIsLowerIff(Join(labels));
    JoinEnds(labels);
    StarOfJoin(labels);
    assert DotFree(labels[|labels| - 1]);
  }

  lemma RootAgrees()
    ensures Agrees([])
  {
    AgreesIff([]);
    NormalizeIsLowerIff([]);
  }

  /** The condition is needed.  The pattern `a` matches the single label `x.a`, of which it is no label. */
  lemma DottedLabelDisagrees()
    ensures var labels, pattern := [[120, 46, 97]], [97];
            && Matches(AllowlistOf(pattern), Join(labels)) && !AllowedBy([pattern], labels)
            && !Agrees(labels)
  {
    hide Normalize;
    hide SplitDots;
    hide Join;
    var name: Bytes, pattern: Bytes := [120, 46, 97], [97];
    NormalizeIsLowerIff(name);
    NormalizeIsLowerIff(pattern);
    assert Lower(name) == name && Lower(pattern) == pattern && LowerAll([name]) == [name];
    JoinOne(name);
    SplitDotFree(pattern);
    assert name[1..] == [DOT] + pattern;
    assert pattern in AllowlistOf(pattern);
    assert !Covers([pattern][0], [name]);
  }

  lemma JoinOne(name: Bytes)
    ensures Join([name]) == name
  {
  }

  /** Letters, digits, hyphens and underscores. */
  predicate IsNameByte(b: byte) {
    48 <= b <= 57 || 65 <= b <= 90 || 97 <= b <= 122 || b == 45 || b == 95
  }

  predicate HostLabel(lab: Bytes) {
    1 <= |lab| <= 63 && forall i :: 0 <= i < |lab| ==> IsNameByte(lab[i])
  }

  ghost predicate HostLabels(labels: seq<Bytes>) { forall i :: 0 <= i < |labels| ==> HostLabel(labels[i]) }

  /** On every host name the textual test is label-wise matching. */
  lemma HostNamesAgree(labels: seq<Bytes>)
    requires HostLabels(labels)
    ensures Agrees(labels)
  {
    hide Agrees;
    if labels == [] {
      RootAgrees();
    } else {
      forall i | 0 <= i < |labels| ensures labels[i] != [] && DotFree(labels[i]) {
        assert HostLabel(labels[i]);
      }
      assert HostLabel(labels[0]) && HostLabel(labels[|labels| - 1]);
      AgreesIffPlain(labels);
    }
  }
}
