/** The duplicate-key pass that runs before a fleet document is decoded. */
module FleetJson {
  import opened Prelude
  import opened Json
  import opened SortedObject

  /** No object in the tree repeats a key. */
  predicate NoRepeatedKeys(v: Value)
    decreases v
  {
    match v
    case Array(items) => forall i :: 0 <= i < |items| ==> NoRepeatedKeys(items[i])
    case Object(members) =>
      DistinctKeys(members) && forall i :: 0 <= i < |members| ==> NoRepeatedKeys(members[i].value)
    case _ => true
  }

  /** `w` is the document itself or occurs somewhere inside it. */
  ghost predicate Inside(w: Value, v: Value)
    decreases v
  {
    || w == v
    || (v.Array? && exists i :: 0 <= i < |v.items| && Inside(w, v.items[i]))
    || (v.Object? && exists i :: 0 <= i < |v.members| && Inside(w, v.members[i].value))
  }

  /** At any depth. */
  lemma {:induction false} AtAnyDepth(v: Value)
    ensures NoRepeatedKeys(v) <==> forall w :: Inside(w, v) && w.Object? ==> DistinctKeys(w.members)
    decreases v
  {
    if v.Array? {
      forall i | 0 <= i < |v.items|
        ensures NoRepeatedKeys(v.items[i]) <==>
                forall w :: Inside(w, v.items[i]) && w.Object? ==> DistinctKeys(w.members)
      {
        AtAnyDepth(v.items[i]);
      }
    } else if v.Object? {
      forall i | 0 <= i < |v.members|
        ensures NoRepeatedKeys(v.members[i].value) <==>
                forall w :: Inside(w, v.members[i].value) && w.Object? ==> DistinctKeys(w.members)
      {
        AtAnyDepth(v.members[i].value);
      }
      assert Inside(v, v);
    }
  }

  /** The recursive visitor: each object grows a set of the keys it has seen. */
  method RejectDuplicateKeys(v: Value) returns (accepted: bool)
    ensures accepted <==> NoRepeatedKeys(v)
    decreases v
  {
    if v.Array? {
      for k := 0 to |v.items|
        invariant forall i :: 0 <= i < k ==> NoRepeatedKeys(v.items[i])
      {
        accepted := RejectDuplicateKeys(v.items[k]);
        if !accepted {
          return;
        }
      }
    } else if v.Object? {
      var members := v.members;
      var keys: set<Bytes> := {};
      for k := 0 to |members|
        invariant keys == set i | 0 <= i < k :: members[i].key
        invariant forall i, j :: 0 <= i < j < k ==> members[i].key != members[j].key
        invariant forall i :: 0 <= i < k ==> NoRepeatedKeys(members[i].value)
      {
        if members[k].key in keys {
          return false;
        }
        keys := keys + {members[k].key};
        accepted := RejectDuplicateKeys(members[k].value);
        if !accepted {
          return;
        }
      }
    }
    return true;
  }

  // ---------------------------------------------------------------- decoding

  datatype Document =
    | DNull
    | DBool(b: bool)
    | DNumber(n: int)
    | DString(s: Bytes)
    | DArray(items: seq<Document>)
    | DObject(fields: map<Bytes, Document>)

  /** Which member a decoder keeps when a key is repeated. */
  datatype Policy = FirstWins | LastWins

  function Decode(v: Value, p: Policy): Document
    decreases v, 1
  {
    match v
    case Null => DNull
    case Bool(b) => DBool(b)
    case Number(n) => DNumber(n)
    case String(s) => DString(s)
    case Array(items) => DArray(DecodeItems(items, p))
    case Object(members) => DObject(DecodeMembers(members, p))
  }

  function DecodeItems(items: seq<Value>, p: Policy): seq<Document>
    decreases items, 0
  {
    if items == [] then [] else [Decode(items[0], p)] + DecodeItems(items[1..], p)
  }

  function DecodeMembers(members: seq<Member>, p: Policy): (r: map<Bytes, Document>)
    ensures forall k :: k in r ==> exists i :: 0 <= i < |members| && members[i].key == k
    decreases members, 0
  {
    if members == [] then map[]
    else
      var rest := DecodeMembers(members[1..], p);
      assert forall i :: 0 <= i < |members| - 1 ==> members[1..][i] == members[i + 1];
      if p.LastWins? && members[0].key in rest then rest
      else rest[members[0].key := Decode(members[0].value, p)]
  }

  /** Every decoder agrees on an accepted document. */
  lemma {:induction false} PoliciesAgree(v: Value)
    requires NoRepeatedKeys(v)
    ensures Decode(v, FirstWins) == Decode(v, LastWins)
    decreases v, 1
  {
    if v.Array? {
      ItemPoliciesAgree(v.items);
    } else if v.Object? {
      MemberPoliciesAgree(v.members);
    }
  }

  lemma {:induction false} ItemPoliciesAgree(items: seq<Value>)
    requires forall i :: 0 <= i < |items| ==> NoRepeatedKeys(items[i])
    ensures DecodeItems(items, FirstWins) == DecodeItems(items, LastWins)
    decreases items, 0
  {
    if items != [] {
      PoliciesAgree(items[0]);
      ItemPoliciesAgree(items[1..]);
    }
  }

  lemma {:induction false} MemberPoliciesAgree(members: seq<Member>)
    requires DistinctKeys(members) && forall i :: 0 <= i < |members| ==> NoRepeatedKeys(members[i].value)
    ensures DecodeMembers(members, FirstWins) == DecodeMembers(members, LastWins)
    decreases members, 0
  {
    if members != [] {
      var rest := members[1..];
      assert forall i :: 0 <= i < |rest| ==> rest[i] == members[i + 1];
      PoliciesAgree(members[0].value);
      MemberPoliciesAgree(rest);
      assert members[0].key !in DecodeMembers(rest, LastWins);
    }
  }

  /** Without the pass they need not agree. */
  lemma PoliciesCanDisagree()
    ensures var v := Object([Member([97], Number(1)), Member([97], Number(2))]);
            !NoRepeatedKeys(v) && Decode(v, FirstWins) != Decode(v, LastWins)
  {
    var ms := [Member([97], Number(1)), Member([97], Number(2))];
    assert ms[0].key == ms[1].key;
    assert ms[1..] == [ms[1]] && ms[1..][1..] == [];
    assert DecodeMembers(ms[1..], LastWins)[[97]] == DNumber(2);
    assert DecodeMembers(ms, LastWins)[[97]] == DNumber(2);
    assert DecodeMembers(ms, FirstWins)[[97]] == DNumber(1);
  }
}
