/** The ordered string map behind a JSON object: members kept in ascending byte order of their
    keys, at most one member per key. */
module SortedObject {
  import opened Prelude
  import opened Json

  /** Lexicographic order on byte strings. */
  predicate Less(a: Bytes, b: Bytes)
  {
    b != [] && (a == [] || a[0] < b[0] || (a[0] == b[0] && Less(a[1..], b[1..])))
  }

  lemma {:induction false} LessTransitive(a: Bytes, b: Bytes, c: Bytes)
    requires Less(a, b) && Less(b, c)
    ensures Less(a, c)
  {
    if a != [] && a[0] == b[0] == c[0] {
      LessTransitive(a[1..], b[1..], c[1..]);
    }
  }

  lemma {:induction false} LessTotal(a: Bytes, b: Bytes)
    ensures Less(a, b) || a == b || Less(b, a)
  {
    if a != [] && b != [] && a[0] == b[0] {
      LessTotal(a[1..], b[1..]);
      assert a == [a[0]] + a[1..] && b == [b[0]] + b[1..];
    }
  }

  predicate Below(k: Bytes, ms: seq<Member>) { forall m :: m in ms ==> Less(k, m.key) }

  /** Keys strictly ascending. */
  predicate Sorted(ms: seq<Member>)
  {
    ms == [] || (Below(ms[0].key, ms[1..]) && Sorted(ms[1..]))
  }

  /** The key/value association, forgetting the order. */
  function View(ms: seq<Member>): map<Bytes, Value>
  {
    if ms == [] then map[] else View(ms[1..])[ms[0].key := ms[0].value]
  }

  function Insert(ms: seq<Member>, k: Bytes, v: Value): (r: seq<Member>)
  {
    if ms == [] || Less(k, ms[0].key) then [Member(k, v)] + ms
    else if ms[0].key == k then [Member(k, v)] + ms[1..]
    else [ms[0]] + Insert(ms[1..], k, v)
  }

  function Remove(ms: seq<Member>, k: Bytes): (r: seq<Member>)
  {
    if ms == [] then []
    else if ms[0].key == k then ms[1..]
    else [ms[0]] + Remove(ms[1..], k)
  }

  lemma {:induction false} InsertView(ms: seq<Member>, k: Bytes, v: Value)
    ensures View(Insert(ms, k, v)) == View(ms)[k := v]
  {
    if ms == [] || Less(k, ms[0].key) {
      assert ([Member(k, v)] + ms)[1..] == ms;
    } else if ms[0].key == k {
      assert ([Member(k, v)] + ms[1..])[1..] == ms[1..];
    } else {
      InsertView(ms[1..], k, v);
      assert ([ms[0]] + Insert(ms[1..], k, v))[1..] == Insert(ms[1..], k, v);
    }
  }

  lemma {:induction false} InsertMembers(ms: seq<Member>, k: Bytes, v: Value)
    ensures forall m :: m in Insert(ms, k, v) ==> m == Member(k, v) || m in ms
  {
    if !(ms == [] || Less(k, ms[0].key)) && ms[0].key != k {
      InsertMembers(ms[1..], k, v);
    }
  }

  lemma {:induction false} InsertSorted(ms: seq<Member>, k: Bytes, v: Value)
    requires Sorted(ms)
    ensures Sorted(Insert(ms, k, v))
  {
    if ms == [] {
    } else if Less(k, ms[0].key) {
      forall m | m in ms ensures Less(k, m.key) {
        if m != ms[0] {
          assert m in ms[1..];
          LessTransitive(k, ms[0].key, m.key);
        }
      }
      assert ([Member(k, v)] + ms)[1..] == ms;
    } else if ms[0].key == k {
      assert ([Member(k, v)] + ms[1..])[1..] == ms[1..];
    } else {
      LessTotal(k, ms[0].key);
      InsertSorted(ms[1..], k, v);
      InsertMembers(ms[1..], k, v);
      assert ([ms[0]] + Insert(ms[1..], k, v))[1..] == Insert(ms[1..], k, v);
    }
  }

  lemma {:induction false} RemoveMembers(ms: seq<Member>, k: Bytes)
    ensures forall m :: m in Remove(ms, k) ==> m in ms
  {
    if ms != [] && ms[0].key != k {
      RemoveMembers(ms[1..], k);
    }
  }

  lemma {:induction false} LessIrreflexive(a: Bytes)
    ensures !Less(a, a)
  {
    if a != [] {
      LessIrreflexive(a[1..]);
    }
  }

  lemma {:induction false} ViewKeys(ms: seq<Member>)
    ensures forall k :: k in View(ms) <==> exists m :: m in ms && m.key == k
  {
    if ms != [] {
      ViewKeys(ms[1..]);
      assert ms == [ms[0]] + ms[1..];
    }
  }

  lemma {:induction false} RemoveSorted(ms: seq<Member>, k: Bytes)
    requires Sorted(ms)
    ensures Sorted(Remove(ms, k))
  {
    if ms != [] && ms[0].key != k {
      RemoveSorted(ms[1..], k);
      RemoveMembers(ms[1..], k);
      assert ([ms[0]] + Remove(ms[1..], k))[1..] == Remove(ms[1..], k);
    }
  }

  lemma AbsentBelow(k: Bytes, ms: seq<Member>)
    requires Below(k, ms)
    ensures k !in View(ms)
  {
    ViewKeys(ms);
    LessIrreflexive(k);
  }

  /** On a sorted object, `Remove` deletes exactly the key. */
  lemma {:induction false} RemoveView(ms: seq<Member>, k: Bytes)
    requires Sorted(ms)
    ensures View(Remove(ms, k)) == View(ms) - {k}
  {
    if ms == [] {
    } else if ms[0].key == k {
      AbsentBelow(k, ms[1..]);
    } else {
      RemoveView(ms[1..], k);
      assert ([ms[0]] + Remove(ms[1..], k))[1..] == Remove(ms[1..], k);
    }
  }

  /** Keys and values determine a sorted object completely: there is one canonical order. */
  lemma {:induction false} SortedUnique(x: seq<Member>, y: seq<Member>)
    requires Sorted(x) && Sorted(y) && View(x) == View(y)
    ensures x == y
  {
    ViewKeys(x);
    ViewKeys(y);
    assert forall m :: m in y ==> m.key in View(y);
    assert y == [] || y[0] in y;
    if x == [] {
      assert View(y) == map[];
    } else {
      assert x[0].key in View(x);
      assert y != [];
      assert y[0].key in View(y);
      SameHead(x, y);
      TailView(x);
      TailView(y);
      SortedUnique(x[1..], y[1..]);
      assert x == [x[0]] + x[1..] && y == [y[0]] + y[1..];
    }
  }

  lemma TailView(x: seq<Member>)
    requires x != [] && Sorted(x)
    ensures View(x[1..]) == View(x) - {x[0].key}
  {
    RemoveView(x, x[0].key);
  }

  lemma SameHead(x: seq<Member>, y: seq<Member>)
    requires x != [] && y != [] && Sorted(x) && Sorted(y) && View(x) == View(y)
    ensures x[0] == y[0]
  {
    ViewKeys(x);
    ViewKeys(y);
    LessTotal(x[0].key, y[0].key);
    LeastKey(x, y[0].key);
    LeastKey(y, x[0].key);
    assert View(x)[x[0].key] == x[0].value;
  }

  lemma LeastKey(x: seq<Member>, k: Bytes)
    requires x != [] && Sorted(x) && k in View(x)
    ensures !Less(k, x[0].key)
  {
    ViewKeys(x);
    LessIrreflexive(k);
    var m :| m in x && m.key == k;
    if m != x[0] {
      assert m in x[1..];
      if Less(k, x[0].key) {
        LessTransitive(k, x[0].key, k);
      }
    }
  }

  // ---------------------------------------------------------------- building an object

  predicate DistinctKeys(fields: seq<Member>)
  {
    forall i, j :: 0 <= i < j < |fields| ==> fields[i].key != fields[j].key
  }

  /** The object that results from inserting the fields one after another. */
  function Build(fields: seq<Member>): seq<Member>
  {
    if fields == [] then []
    else
      var last := fields[|fields| - 1];
      Insert(Build(fields[..|fields| - 1]), last.key, last.value)
  }

  /** The association holds exactly the given fields. */
  predicate Holds(fields: seq<Member>, v: map<Bytes, Value>)
  {
    && (forall i :: 0 <= i < |fields| ==> fields[i].key in v && v[fields[i].key] == fields[i].value)
    && (forall k :: k in v ==> exists i :: 0 <= i < |fields| && fields[i].key == k)
  }

  lemma HoldsMore(front: seq<Member>, last: Member, v: map<Bytes, Value>)
    requires Holds(front, v) && DistinctKeys(front + [last])
    ensures Holds(front + [last], v[last.key := last.value])
  {
    var fields := front + [last];
    assert fields[|front|] == last;
    forall i | 0 <= i < |front| ensures fields[i] == front[i] && fields[i].key != last.key {
    }
  }

  /** Building from distinct keys gives the one sorted object that holds exactly those fields. */
  lemma {:induction false} BuildView(fields: seq<Member>)
    requires DistinctKeys(fields)
    ensures Sorted(Build(fields)) && Holds(fields, View(Build(fields)))
  {
    if fields != [] {
      var front, last := fields[..|fields| - 1], fields[|fields| - 1];
      BuildView(front);
      InsertSorted(Build(front), last.key, last.value);
      InsertView(Build(front), last.key, last.value);
      assert fields == front + [last];
      HoldsMore(front, last, View(Build(front)));
    }
  }

  // ---------------------------------------------------------------- objects written out

  /** The first byte in which two keys differ decides their order. */
  lemma {:induction false} LessAt(a: Bytes, b: Bytes, k: nat)
    requires k < |a| && k < |b| && a[..k] == b[..k] && a[k] < b[k]
    ensures Less(a, b)
    decreases k
  {
    if k > 0 {
      assert a[0] == a[..k][0] == b[..k][0] == b[0];
      assert a[1..][..k - 1] == a[..k][1..] && b[1..][..k - 1] == b[..k][1..];
      LessAt(a[1..], b[1..], k - 1);
    }
  }

  /** Each key is below the next. */
  ghost predicate Ascending(ms: seq<Member>) {
    forall i, j :: 0 <= i < j < |ms| && j == i + 1 ==> Less(ms[i].key, ms[j].key)
  }

  lemma {:induction false} AscendingPairs(ms: seq<Member>, i: nat, j: nat)
    requires Ascending(ms) && i < j < |ms|
    ensures Less(ms[i].key, ms[j].key)
    decreases j
  {
    if j > i + 1 {
      AscendingPairs(ms, i, j - 1);
      LessTransitive(ms[i].key, ms[j - 1].key, ms[j].key);
    }
  }

  lemma {:induction false} AscendingIsSorted(ms: seq<Member>)
    requires Ascending(ms)
    ensures Sorted(ms)
  {
    if ms != [] {
      forall m | m in ms[1..] ensures Less(ms[0].key, m.key) {
        var j :| 0 <= j < |ms[1..]| && ms[1..][j] == m;
        AscendingPairs(ms, 0, j + 1);
      }
      forall i, j | 0 <= i < j < |ms[1..]| && j == i + 1 ensures Less(ms[1..][i].key, ms[1..][j].key) {
        assert Less(ms[i + 1].key, ms[j + 1].key);
      }
      AscendingIsSorted(ms[1..]);
    }
  }

  lemma AscendingIsDistinct(ms: seq<Member>)
    requires Ascending(ms)
    ensures DistinctKeys(ms)
  {
    forall i, j | 0 <= i < j < |ms| ensures ms[i].key != ms[j].key {
      AscendingPairs(ms, i, j);
      LessIrreflexive(ms[i].key);
    }
  }

  lemma {:induction false} ViewHolds(ms: seq<Member>)
    requires DistinctKeys(ms)
    ensures Holds(ms, View(ms))
  {
    if ms != [] {
      var rest := ms[1..];
      assert forall i :: 0 <= i < |rest| ==> rest[i] == ms[i + 1];
      assert DistinctKeys(rest);
      ViewHolds(rest);
      forall i | 0 <= i < |ms| ensures ms[i].key in View(ms) && View(ms)[ms[i].key] == ms[i].value {
        if i > 0 {
          assert ms[i] == rest[i - 1];
        }
      }
      forall k | k in View(ms) ensures exists i :: 0 <= i < |ms| && ms[i].key == k {
        if k != ms[0].key {
          var i :| 0 <= i < |rest| && rest[i].key == k;
          assert ms[i + 1].key == k;
        }
      }
    }
  }

  lemma ViewFrom(ms: seq<Member>, i: nat)
    requires i < |ms|
    ensures View(ms[i..]) == View(ms[i + 1..])[ms[i].key := ms[i].value]
  {
    assert ms[i..][1..] == ms[i + 1..];
  }

  /** A sorted object is the ascending list of the members it holds. */
  lemma SortedIs(ms: seq<Member>, list: seq<Member>)
    requires Sorted(ms) && Ascending(list) && Holds(list, View(ms))
    ensures ms == list
  {
    AscendingIsDistinct(list);
    ViewHolds(list);
    AscendingIsSorted(list);
    SameHolds(list, View(ms), View(list));
    SortedUnique(ms, list);
  }

  lemma SameHolds(list: seq<Member>, v: map<Bytes, Value>, w: map<Bytes, Value>)
    requires Holds(list, v) && Holds(list, w)
    ensures v == w
  {
    assert forall k :: k in v ==> k in w && v[k] == w[k];
    assert forall k :: k in w ==> k in v;
  }
}
