/** What chain verification looks at in each event, and the verdict as a function of that alone. */
module ChainSkeleton {
  import opened Prelude

  datatype Reason = BadSignature | BrokenLink | NonSequentialIndex | MalformedPubkey | MalformedSignature

  datatype ChainError = ChainError(index: u64, reason: Reason)

  datatype ChainVerification = ChainVerification(
    ok: bool,
    count: nat,
    first_index: Option<u64>,
    last_index: Option<u64>,
    root_hex: Option<Bytes>,
    first_error: Option<ChainError>
  )

  /** Sixty-four zero digits. */
  const GENESIS_PREV_HASH: Bytes := Repeat(48, 64)

  /** The outcome of an event's signature checks, its index, and its two link values. */
  datatype Node = Node(signatureFault: Option<Reason>, index: u64, prev: Bytes, hash: Bytes)

  predicate Linked(p: Node, e: Node) { e.index == p.index + 1 && e.prev == p.hash }

  predicate Rooted(e: Node) { e.index == 0 ==> e.prev == GENESIS_PREV_HASH }

  ghost predicate Valid(s: seq<Node>)
  {
    && (forall i :: 0 <= i < |s| ==> s[i].signatureFault.None?)
    && (forall i, j :: 0 <= i < j < |s| && j == i + 1 ==> Linked(s[i], s[j]))
    && (s != [] ==> Rooted(s[0]))
  }

  function LinkFault(prev: Option<Node>, e: Node): Option<Reason>
  {
    match prev
    case None => if Rooted(e) then None else Some(BrokenLink)
    case Some(p) =>
      if p.index + 1 != e.index then Some(NonSequentialIndex)
      else if e.prev != p.hash then Some(BrokenLink)
      else None
  }

  function Predecessor(s: seq<Node>, i: nat): Option<Node>
    requires i <= |s|
  {
    if i == 0 then None else Some(s[i - 1])
  }

  /** Why the event at position `i` fails, if it does: the signature is checked before the link. */
  function Fault(s: seq<Node>, i: nat): Option<Reason>
    requires i < |s|
  {
    if s[i].signatureFault.Some? then s[i].signatureFault else LinkFault(Predecessor(s, i), s[i])
  }

  /** The first failing position at or after `i`, or the length. */
  function FirstFault(s: seq<Node>, i: nat): (r: nat)
    requires i <= |s|
    ensures i <= r <= |s|
    ensures r < |s| ==> Fault(s, r).Some?
    ensures forall j :: i <= j < r ==> Fault(s, j).None?
    decreases |s| - i
  {
    if i == |s| || Fault(s, i).Some? then i else FirstFault(s, i + 1)
  }

  function Verdict(s: seq<Node>): ChainVerification
  {
    var p := FirstFault(s, 0);
    ChainVerification(
      p == |s|,
      |s|,
      if s == [] then None else Some(s[0].index),
      if s == [] then None else Some(s[|s| - 1].index),
      if s == [] || p < |s| then None else Some(s[|s| - 1].hash),
      if p < |s| then Some(ChainError(s[p].index, Fault(s, p).value)) else None)
  }

  /** The first `n` positions pass. */
  predicate CleanUpTo(s: seq<Node>, n: nat) { n <= |s| && forall i :: 0 <= i < n ==> Fault(s, i).None? }

  lemma CleanStart(s: seq<Node>)
    ensures CleanUpTo(s, 0)
    ensures s == [] ==> Verdict(s) == ChainVerification(true, 0, None, None, None, None)
  {
  }

  lemma CleanStep(s: seq<Node>, n: nat)
    requires CleanUpTo(s, n) && n < |s| && Fault(s, n).None?
    ensures CleanUpTo(s, n + 1)
  {
  }

  lemma VerdictOfClean(s: seq<Node>)
    requires s != [] && CleanUpTo(s, |s|)
    ensures Verdict(s) == ChainVerification(
              true, |s|, Some(s[0].index), Some(s[|s| - 1].index), Some(s[|s| - 1].hash), None)
  {
  }

  lemma VerdictOfFault(s: seq<Node>, p: nat)
    requires LeastFault(s, p)
    ensures Verdict(s) == ChainVerification(
              false, |s|, Some(s[0].index), Some(s[|s| - 1].index), None,
              Some(ChainError(s[p].index, Fault(s, p).value)))
  {
    assert FirstFault(s, 0) == p;
  }

  /** A clean verdict is given exactly to valid chains. */
  lemma CleanIffValid(s: seq<Node>)
    ensures Verdict(s).ok <==> Valid(s)
  {
    var p := FirstFault(s, 0);
    if p == |s| {
      forall i | 0 <= i < |s| ensures s[i].signatureFault.None? {
        assert Fault(s, i).None?;
      }
      forall i, j | 0 <= i < j < |s| && j == i + 1 ensures Linked(s[i], s[j]) {
        assert Fault(s, j).None?;
      }
      assert s != [] ==> Fault(s, 0).None?;
    } else {
      assert Fault(s, p).Some?;
      assert p > 0 && Valid(s) ==> Linked(s[p - 1], s[p]);
    }
  }

  /** `p` is the first failing position. */
  predicate LeastFault(s: seq<Node>, p: nat)
  {
    p < |s| && Fault(s, p).Some? && CleanUpTo(s, p)
  }

  /** The reported error is the fault of the first position that has one, and then no root is
      reported. */
  lemma FirstErrorIsLeast(s: seq<Node>, p: nat)
    requires LeastFault(s, p)
    ensures Verdict(s).first_error == Some(ChainError(s[p].index, Fault(s, p).value))
    ensures !Verdict(s).ok && Verdict(s).root_hex.None?
  {
    VerdictOfFault(s, p);
  }

  // ---------------------------------------------------------------- slices and joins

  lemma {:induction false} IndexOffset(s: seq<Node>, i: nat)
    requires Valid(s) && i < |s|
    ensures s[i].index == s[0].index + i
  {
    if i > 0 {
      IndexOffset(s, i - 1);
      assert Linked(s[i - 1], s[i]);
    }
  }

  lemma SliceValid(s: seq<Node>, lo: nat, hi: nat)
    requires Valid(s) && lo <= hi <= |s|
    ensures Valid(s[lo..hi])
  {
    var t := s[lo..hi];
    if t != [] {
      IndexOffset(s, lo);
    }
    forall i, j | 0 <= i < j < |t| && j == i + 1 ensures Linked(t[i], t[j]) {
      assert Linked(s[lo + i], s[lo + j]);
    }
  }

  lemma JoinValid(a: seq<Node>, b: seq<Node>)
    requires a != [] && b != [] && Valid(a) && Valid(b) && Linked(a[|a| - 1], b[0])
    ensures Valid(a + b)
  {
    var s := a + b;
    forall i, j | 0 <= i < j < |s| && j == i + 1 ensures Linked(s[i], s[j]) {
      if j < |a| {
        assert Linked(a[i], a[j]);
      } else if i >= |a| {
        assert Linked(b[i - |a|], b[j - |a|]);
      }
    }
  }

  lemma JoinIff(a: seq<Node>, b: seq<Node>)
    requires a != [] && b != []
    ensures Valid(a + b) <==> Valid(a) && Valid(b) && Linked(a[|a| - 1], b[0])
  {
    var s := a + b;
    if Valid(s) {
      SliceValid(s, 0, |a|);
      SliceValid(s, |a|, |s|);
      assert s[0..|a|] == a && s[|a|..|s|] == b;
      assert Linked(s[|a| - 1], s[|a|]);
    } else if Valid(a) && Valid(b) && Linked(a[|a| - 1], b[0]) {
      JoinValid(a, b);
    }
  }

  lemma SuffixVerdict(s: seq<Node>, k: nat)
    requires Verdict(s).ok && k < |s|
    ensures Verdict(s[k..]).ok && Verdict(s[k..]).root_hex == Verdict(s).root_hex
  {
    CleanIffValid(s);
    SliceValid(s, k, |s|);
    assert s[k..|s|] == s[k..];
    CleanIffValid(s[k..]);
  }

  /** The elements of `s` at the given positions, in that order. */
  function Draw<T>(s: seq<T>, at: seq<nat>): (r: seq<T>)
    requires forall i :: 0 <= i < |at| ==> at[i] < |s|
    ensures |r| == |at| && forall i :: 0 <= i < |at| ==> r[i] == s[at[i]]
  {
    seq(|at|, i requires 0 <= i < |at| => s[at[i]])
  }

  ghost predicate ConsecutiveAscending(at: seq<nat>)
  {
    forall i, j :: 0 <= i < j < |at| && j == i + 1 ==> at[j] == at[i] + 1
  }

  lemma DrawIff(s: seq<Node>, at: seq<nat>)
    requires Valid(s) && forall i :: 0 <= i < |at| ==> at[i] < |s|
    ensures Valid(Draw(s, at)) <==> ConsecutiveAscending(at)
  {
    var t := Draw(s, at);
    forall i | 0 <= i < |at| ensures t[i].index == s[0].index + at[i] {
      IndexOffset(s, at[i]);
    }
    if Valid(t) {
      forall i, j | 0 <= i < j < |at| && j == i + 1 ensures at[j] == at[i] + 1 {
        assert Linked(t[i], t[j]);
      }
    }
    if ConsecutiveAscending(at) {
      forall i, j | 0 <= i < j < |t| && j == i + 1 ensures Linked(t[i], t[j]) {
        assert Linked(s[at[i]], s[at[j]]);
      }
    }
  }

  lemma CutFault(s: seq<Node>, lo: nat, hi: nat)
    requires Valid(s) && 0 < lo < hi < |s|
    ensures Verdict(s[..lo] + s[hi..]).first_error == Some(ChainError(s[hi].index, NonSequentialIndex))
  {
    IndexOffset(s, lo - 1);
    IndexOffset(s, hi);
    var t := s[..lo] + s[hi..];
    forall j | 0 <= j < lo ensures Fault(t, j).None? {
      assert Predecessor(t, j) == Predecessor(s, j);
      assert j > 0 ==> Linked(s[j - 1], s[j]);
    }
    assert Predecessor(t, lo) == Some(s[lo - 1]);
    FirstErrorIsLeast(t, lo);
  }
}
