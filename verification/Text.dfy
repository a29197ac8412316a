/** Trimming, case folding and suffixes of ASCII text. */
module Text {
  import opened Prelude

  predicate IsSpace(b: byte) { 9 <= b <= 13 || b == 32 }

  function TrimStart(s: Bytes): Bytes { if s != [] && IsSpace(s[0]) then TrimStart(s[1..]) else s }

  function TrimEnd(s: Bytes, drop: byte -> bool): Bytes {
    if s != [] && drop(s[|s| - 1]) then TrimEnd(s[..|s| - 1], drop) else s
  }

  function LowerByte(b: byte): byte { if 65 <= b <= 90 then b + 32 else b }

  function Lower(s: Bytes): (r: Bytes)
    ensures |r| == |s|
  {
    seq(|s|, i requires 0 <= i < |s| => LowerByte(s[i]))
  }

  function Trim(s: Bytes): Bytes { TrimEnd(TrimStart(s), IsSpace) }

  /** Capital letters, and nothing else, change. */
  lemma LowerAt(s: Bytes, i: nat)
    requires i < |s|
    ensures Lower(s)[i] == if 65 <= s[i] <= 90 then s[i] + 32 else s[i]
  {
  }

  lemma {:induction false} TrimStartMeans(s: Bytes) returns (a: Bytes)
    ensures s == a + TrimStart(s) && forall i :: 0 <= i < |a| ==> 9 <= a[i] <= 13 || a[i] == 32
    ensures var t := TrimStart(s); t != [] ==> !(9 <= t[0] <= 13 || t[0] == 32)
  {
    if s != [] && IsSpace(s[0]) {
      var rest := TrimStartMeans(s[1..]);
      a := [s[0]] + rest;
      assert s == [s[0]] + s[1..];
    } else {
      a := [];
    }
  }

  lemma {:induction false} TrimEndMeans(s: Bytes, drop: byte -> bool) returns (b: Bytes)
    ensures s == TrimEnd(s, drop) + b && forall i :: 0 <= i < |b| ==> drop(b[i])
    ensures var t := TrimEnd(s, drop); t != [] ==> !drop(t[|t| - 1])
    decreases |s|
  {
    if s != [] && drop(s[|s| - 1]) {
      var rest := TrimEndMeans(s[..|s| - 1], drop);
      b := rest + [s[|s| - 1]];
      assert s == s[..|s| - 1] + [s[|s| - 1]];
    } else {
      b := [];
    }
  }

  /** Trimming takes away white space at both ends, and all of it. */
  lemma TrimMeans(s: Bytes) returns (a: Bytes, b: Bytes)
    ensures s == a + Trim(s) + b
    ensures forall i :: 0 <= i < |a| ==> 9 <= a[i] <= 13 || a[i] == 32
    ensures forall i :: 0 <= i < |b| ==> 9 <= b[i] <= 13 || b[i] == 32
    ensures var t := Trim(s);
            t != [] ==> !(9 <= t[0] <= 13 || t[0] == 32) && !(9 <= t[|t| - 1] <= 13 || t[|t| - 1] == 32)
  {
    a := TrimStartMeans(s);
    b := TrimEndMeans(TrimStart(s), IsSpace);
    assert forall i :: 0 <= i < |b| ==> IsSpace(b[i]);
    var t := Trim(s);
    assert t != [] ==> TrimStart(s)[0] == t[0];
  }

  lemma LowerConcat(a: Bytes, b: Bytes)
    ensures Lower(a + b) == Lower(a) + Lower(b)
  {
  }

  predicate EndsWith(s: Bytes, t: Bytes) { |t| <= |s| && s[|s| - |t|..] == t }

  lemma EndsWithSplit(s: Bytes, t: Bytes)
    requires EndsWith(s, t)
    ensures s == s[..|s| - |t|] + t
  {
  }

  lemma EndsWithConcat(x: Bytes, t: Bytes)
    ensures EndsWith(x + t, t)
  {
  }
}
