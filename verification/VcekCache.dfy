/** The certificate-chain cache in front of a fetcher.

    The fetcher is arbitrary: `f(n, key)` is what its n-th call answers, so it may fail, recover and
    change its mind over time.  `get` holds the lock while it fetches, so concurrent gets are a
    sequence of whole gets. */
module VcekCache {
  import opened Prelude
  import opened VcekChain

  datatype Key = Key(chip_id: Bytes, tcb: u64)

  type Answer = Result<Bytes, VcekError>

  type Fetcher = (nat, Key) -> Answer

  /** What is stored, and the keys fetched so far in order. */
  datatype State = State(cache: map<Key, Bytes>, calls: seq<Key>)

  const EMPTY: State := State(map[], [])

  function GetStep(f: Fetcher, s: State, key: Key): (State, Answer) {
    if key in s.cache then (s, Ok(s.cache[key]))
    else
      var answer := f(|s.calls|, key);
      var cache := if answer.Ok? then s.cache[key := answer.value] else s.cache;
      (State(cache, s.calls + [key]), answer)
  }

  /** The final state and the answers of a sequence of gets. */
  function Run(f: Fetcher, s: State, keys: seq<Key>): (r: (State, seq<Answer>))
    ensures |r.1| == |keys|
    decreases |keys|
  {
    if keys == [] then (s, [])
    else
      var (mid, answer) := GetStep(f, s, keys[0]);
      var (end, answers) := Run(f, mid, keys[1..]);
      (end, [answer] + answers)
  }

  class Cache {
    const fetcher: Fetcher
    var cache: map<Key, Bytes>
    var calls: seq<Key>

    function Contents(): State reads this { State(cache, calls) }

    constructor (fetcher: Fetcher)
      ensures this.fetcher == fetcher && Contents() == EMPTY
    {
      this.fetcher := fetcher;
      cache := map[];
      calls := [];
    }

    method Get(key: Key) returns (r: Answer)
      modifies this
      ensures (Contents(), r) == GetStep(fetcher, old(Contents()), key)
    {
      if key in cache {
        return Ok(cache[key]);
      }
      r := fetcher(|calls|, key);
      calls := calls + [key];
      if r.Ok? {
        cache := cache[key := r.value];
      }
    }
  }

  // ---------------------------------------------------------------- what every run keeps

  /** The `n`-th fetch was for `key` and succeeded. */
  predicate Succeeded(f: Fetcher, s: State, key: Key, n: nat) {
    n < |s.calls| && s.calls[n] == key && f(n, key).Ok?
  }

  /** Only successful answers are stored, each successful fetch is stored, and it was the last fetch
      for its key. */
  ghost predicate Inv(f: Fetcher, s: State) {
    && (forall key :: key in s.cache ==> exists n: nat :: Succeeded(f, s, key, n))
    && (forall key, n: nat :: Succeeded(f, s, key, n) ==> key in s.cache && s.cache[key] == f(n, key).value)
    && (forall key, n: nat, m :: Succeeded(f, s, key, n) && n < m < |s.calls| ==> s.calls[m] != key)
  }

  /** Nothing stored is lost or replaced, and the fetches so far stay. */
  ghost predicate Grows(s: State, t: State) {
    s.calls <= t.calls && forall key :: key in s.cache ==> key in t.cache && t.cache[key] == s.cache[key]
  }

  lemma GetKeepsInv(f: Fetcher, s: State, key: Key)
    requires Inv(f, s)
    ensures Inv(f, GetStep(f, s, key).0)
    ensures Grows(s, GetStep(f, s, key).0)
  {
    if key !in s.cache {
      FetchKeepsInv(f, s, key);
    }
  }

  lemma FetchKeepsInv(f: Fetcher, s: State, key: Key)
    requires Inv(f, s) && key !in s.cache
    ensures Inv(f, GetStep(f, s, key).0)
  {
    var (t, answer) := GetStep(f, s, key);
    var last := |s.calls|;
    forall k, n: nat ensures Succeeded(f, t, k, n) <==>
        Succeeded(f, s, k, n) || (k == key && n == last && answer.Ok?)
    {
    }
    assert answer.Ok? ==> Succeeded(f, t, key, last);
    forall k | k in t.cache ensures exists n: nat :: Succeeded(f, t, k, n) {
      if k in s.cache {
        var n: nat :| Succeeded(f, s, k, n);
        assert Succeeded(f, t, k, n);
      }
    }
  }

  lemma {:induction false} RunKeepsInv(f: Fetcher, s: State, keys: seq<Key>)
    requires Inv(f, s)
    ensures Inv(f, Run(f, s, keys).0)
    ensures Grows(s, Run(f, s, keys).0)
    decreases |keys|
  {
    if keys != [] {
      GetKeepsInv(f, s, keys[0]);
      RunKeepsInv(f, GetStep(f, s, keys[0]).0, keys[1..]);
    }
  }

  /** `n` is the fetcher's first success for `key`, and no fetch for `key` follows it. */
  ghost predicate FirstSuccess(f: Fetcher, s: State, key: Key, n: nat) {
    && Succeeded(f, s, key, n)
    && (forall m :: 0 <= m < n && s.calls[m] == key ==> f(m, key).Err?)
    && (forall m :: n < m < |s.calls| ==> s.calls[m] != key)
  }

  lemma SuccessIsFirst(f: Fetcher, s: State, key: Key, n: nat)
    requires Inv(f, s) && Succeeded(f, s, key, n)
    ensures FirstSuccess(f, s, key, n)
  {
    forall m | 0 <= m < n && s.calls[m] == key ensures f(m, key).Err? {
      if f(m, key).Ok? {
        assert Succeeded(f, s, key, m);
        assert false;
      }
    }
  }

  lemma {:induction false} OkAnswersAreStored(f: Fetcher, s: State, keys: seq<Key>, i: nat)
    requires Inv(f, s) && i < |keys| && Run(f, s, keys).1[i].Ok?
    ensures var end := Run(f, s, keys).0;
            keys[i] in end.cache && end.cache[keys[i]] == Run(f, s, keys).1[i].value
    decreases |keys|
  {
    var (mid, answer) := GetStep(f, s, keys[0]);
    GetKeepsInv(f, s, keys[0]);
    var (end, answers) := Run(f, mid, keys[1..]);
    if i == 0 {
      RunKeepsInv(f, mid, keys[1..]);
    } else {
      OkAnswersAreStored(f, mid, keys[1..], i - 1);
    }
  }

  /** Every success a caller sees for a key is the fetcher's first success for it, after which that
      key is never fetched again; whatever is stored at the end is such a success. */
  lemma FirstSuccessWins(f: Fetcher, keys: seq<Key>)
    ensures var (end, answers) := Run(f, EMPTY, keys);
            && (forall key :: key in end.cache ==>
                  exists n: nat :: FirstSuccess(f, end, key, n) && end.cache[key] == f(n, key).value)
            && (forall i :: 0 <= i < |keys| && answers[i].Ok? ==>
                  keys[i] in end.cache && answers[i] == Ok(end.cache[keys[i]]))
  {
    assert Inv(f, EMPTY);
    RunKeepsInv(f, EMPTY, keys);
    var (end, answers) := Run(f, EMPTY, keys);
    forall key | key in end.cache
      ensures exists n: nat :: FirstSuccess(f, end, key, n) && end.cache[key] == f(n, key).value
    {
      var n: nat :| Succeeded(f, end, key, n);
      SuccessIsFirst(f, end, key, n);
    }
    forall i | 0 <= i < |keys| && answers[i].Ok?
      ensures keys[i] in end.cache && answers[i] == Ok(end.cache[keys[i]])
    {
      OkAnswersAreStored(f, EMPTY, keys, i);
    }
  }

  /** How many answers are errors. */
  function Errors(answers: seq<Answer>): nat {
    if answers == [] then 0 else (if answers[0].Err? then 1 else 0) + Errors(answers[1..])
  }

  /** Every fetch of a run either stores one new key or is one error that a caller saw: nothing is
      fetched and dropped, and no error is answered from memory or remembered. */
  lemma {:induction false} FetchesAddUp(f: Fetcher, s: State, keys: seq<Key>)
    ensures var (end, answers) := Run(f, s, keys);
            |end.calls| + |s.cache| == |s.calls| + |end.cache| + Errors(answers)
    decreases |keys|
  {
    if keys != [] {
      var (mid, answer) := GetStep(f, s, keys[0]);
      FetchesAddUp(f, mid, keys[1..]);
      var (end, answers) := Run(f, mid, keys[1..]);
      assert ([answer] + answers)[1..] == answers;
      assert keys[0] !in s.cache && answer.Ok? ==> mid.cache.Keys == s.cache.Keys + {keys[0]};
    }
  }

  /** Every error a caller sees is what the fetcher answered to a fetch of that key made in the run. */
  lemma {:induction false} ErrorsAreFetched(f: Fetcher, s: State, keys: seq<Key>, i: nat)
    requires i < |keys| && Run(f, s, keys).1[i].Err?
    ensures var (end, answers) := Run(f, s, keys);
            && s.calls <= end.calls
            && exists n: nat :: |s.calls| <= n < |end.calls| && end.calls[n] == keys[i] && f(n, keys[i]) == answers[i]
    decreases |keys|
  {
    var (mid, answer) := GetStep(f, s, keys[0]);
    CallsGrow(f, mid, keys[1..]);
    var (end, answers) := Run(f, mid, keys[1..]);
    if i == 0 {
      assert end.calls[|s.calls|] == keys[0];
    } else {
      ErrorsAreFetched(f, mid, keys[1..], i - 1);
    }
  }

  lemma {:induction false} CallsGrow(f: Fetcher, s: State, keys: seq<Key>)
    ensures s.calls <= Run(f, s, keys).0.calls
    decreases |keys|
  {
    if keys != [] {
      CallsGrow(f, GetStep(f, s, keys[0]).0, keys[1..]);
    }
  }

  // ---------------------------------------------------------------- deterministic fetchers

  /** Over a fetcher that always answers `g`, a cache holding only answers of `g` is invisible. */
  lemma {:induction false} DeterministicIsTransparent(f: Fetcher, g: Key -> Answer, s: State, keys: seq<Key>)
    requires forall n: nat, key :: f(n, key) == g(key)
    requires forall key :: key in s.cache ==> g(key) == Ok(s.cache[key])
    ensures forall i :: 0 <= i < |keys| ==> Run(f, s, keys).1[i] == g(keys[i])
    decreases |keys|
  {
    if keys != [] {
      var (mid, answer) := GetStep(f, s, keys[0]);
      DeterministicIsTransparent(f, g, mid, keys[1..]);
      forall i | 0 <= i < |keys| ensures Run(f, s, keys).1[i] == g(keys[i]) {
        if i > 0 {
          assert Run(f, s, keys).1[i] == Run(f, mid, keys[1..]).1[i - 1];
          assert keys[1..][i - 1] == keys[i];
        }
      }
    }
  }

  // ---------------------------------------------------------------- a cache behind a cache

  /** A get through an outer cache whose fetcher is another cache. */
  function NestedGet(f: Fetcher, outer: map<Key, Bytes>, inner: State, key: Key): (map<Key, Bytes>, State, Answer) {
    if key in outer then (outer, inner, Ok(outer[key]))
    else
      var (inner', answer) := GetStep(f, inner, key);
      (if answer.Ok? then outer[key := answer.value] else outer, inner', answer)
  }

  function NestedRun(f: Fetcher, outer: map<Key, Bytes>, inner: State, keys: seq<Key>): (r: (State, seq<Answer>))
    ensures |r.1| == |keys|
    decreases |keys|
  {
    if keys == [] then (inner, [])
    else
      var (outer', inner', answer) := NestedGet(f, outer, inner, keys[0]);
      var (end, answers) := NestedRun(f, outer', inner', keys[1..]);
      (end, [answer] + answers)
  }

  /** A second cache in front changes neither the answers nor the fetches, for any fetcher. */
  lemma {:induction false} NestingIsTransparent(f: Fetcher, outer: map<Key, Bytes>, inner: State, keys: seq<Key>)
    requires forall key :: key in outer ==> key in inner.cache && inner.cache[key] == outer[key]
    ensures NestedRun(f, outer, inner, keys) == Run(f, inner, keys)
    decreases |keys|
  {
    if keys != [] {
      var (outer', inner', answer) := NestedGet(f, outer, inner, keys[0]);
      assert (inner', answer) == GetStep(f, inner, keys[0]);
      NestingIsTransparent(f, outer', inner', keys[1..]);
    }
  }

  /** Over a fetcher that always answers `g`, two caches in a row answer `g` to every get. */
  lemma NestedDeterministic(f: Fetcher, g: Key -> Answer, keys: seq<Key>)
    requires forall n: nat, key :: f(n, key) == g(key)
    ensures forall i :: 0 <= i < |keys| ==> NestedRun(f, map[], EMPTY, keys).1[i] == g(keys[i])
  {
    NestingIsTransparent(f, map[], EMPTY, keys);
    DeterministicIsTransparent(f, g, EMPTY, keys);
  }
}
