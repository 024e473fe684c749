/** Python's `dict` as the model uses it: an insertion-ordered list of (key, value) entries
    with pairwise distinct keys. Assigning to an existing key replaces its value in place
    (the key keeps its position); assigning to a new key appends it. */
module Dicts {
  import opened Wrappers

  datatype Dict<K, V> = Dict(entries: seq<(K, V)>)

  /** The empty dict `{}`. */
  function Empty<K, V>(): Dict<K, V> {
    Dict([])
  }

  /** The keys in iteration order. */
  function Keys<K, V>(d: Dict<K, V>): (ks: seq<K>)
    ensures |ks| == |d.entries|
    ensures forall i :: 0 <= i < |ks| ==> ks[i] == d.entries[i].0
  {
    seq(|d.entries|, i requires 0 <= i < |d.entries| => d.entries[i].0)
  }

  /** Every key occurs once (the invariant every Python dict keeps). */
  predicate Valid<K(==), V>(d: Dict<K, V>) {
    forall i, j :: 0 <= i < j < |d.entries| ==> d.entries[i].0 != d.entries[j].0
  }

  /** `k in d` */
  predicate HasKey<K(==), V>(d: Dict<K, V>, k: K) {
    exists i :: 0 <= i < |d.entries| && d.entries[i].0 == k
  }

  /** `len(d)` */
  function Len<K, V>(d: Dict<K, V>): nat {
    |d.entries|
  }

  /** The set of keys. */
  function KeySet<K(==), V>(d: Dict<K, V>): set<K> {
    set i | 0 <= i < |d.entries| :: d.entries[i].0
  }

  /** `d.get(k)`: the value stored under `k`, or `None`. */
  function Get<K(==), V>(d: Dict<K, V>, k: K): (r: Option<V>)
    ensures r.Some? <==> HasKey(d, k)
    ensures r.Some? ==> exists i :: 0 <= i < |d.entries| && d.entries[i] == (k, r.value)
    decreases |d.entries|
  {
    if |d.entries| == 0 then None
    else if d.entries[0].0 == k then Some(d.entries[0].1)
    else
      var r := Get(Dict(d.entries[1..]), k);
      assert forall i :: 0 <= i < |d.entries| - 1 ==> d.entries[1..][i] == d.entries[i + 1];
      r
  }

  /** In a valid dict, `Get` returns the value of the one entry carrying the key. */
  lemma {:induction false} GetEntry<K, V>(d: Dict<K, V>, i: nat)
    requires Valid(d) && i < |d.entries|
    ensures Get(d, d.entries[i].0) == Some(d.entries[i].1)
    decreases i
  {
    if i > 0 {
      var tail := Dict(d.entries[1..]);
      assert tail.entries[i - 1] == d.entries[i];
      assert d.entries[0].0 != d.entries[i].0;
      GetEntry(tail, i - 1);
    }
  }

  /** A key is found exactly when it is among the keys. */
  lemma InKeys<K, V>(d: Dict<K, V>, k: K)
    ensures Get(d, k).Some? <==> k in Keys(d)
  {
    if k in Keys(d) {
      var i :| 0 <= i < |Keys(d)| && Keys(d)[i] == k;
      assert d.entries[i].0 == k;
    }
  }

  /** `d[k] = v` */
  function Set<K(==), V>(d: Dict<K, V>, k: K, v: V): (r: Dict<K, V>)
    decreases |d.entries|
  {
    if |d.entries| == 0 then Dict([(k, v)])
    else if d.entries[0].0 == k then Dict([(k, v)] + d.entries[1..])
    else Dict([d.entries[0]] + Set(Dict(d.entries[1..]), k, v).entries)
  }

  /** The entries after the first form a valid dict that lacks the first key, and a key
      other than the first is in the dict exactly when it is in that tail. */
  lemma TailFacts<K, V>(d: Dict<K, V>, k: K)
    requires Valid(d) && |d.entries| > 0
    ensures Valid(Dict(d.entries[1..]))
    ensures !HasKey(Dict(d.entries[1..]), d.entries[0].0)
    ensures k != d.entries[0].0 ==> (HasKey(d, k) <==> HasKey(Dict(d.entries[1..]), k))
  {
    var tail := Dict(d.entries[1..]);
    forall i, j | 0 <= i < j < |tail.entries|
      ensures tail.entries[i].0 != tail.entries[j].0
    {
      assert tail.entries[i] == d.entries[i + 1];
      assert tail.entries[j] == d.entries[j + 1];
    }
    forall i | 0 <= i < |tail.entries|
      ensures tail.entries[i].0 != d.entries[0].0
    {
      assert tail.entries[i] == d.entries[i + 1];
    }
    if HasKey(d, k) && k != d.entries[0].0 {
      var i :| 0 <= i < |d.entries| && d.entries[i].0 == k;
      assert tail.entries[i - 1].0 == k;
    }
    if HasKey(tail, k) {
      var i :| 0 <= i < |tail.entries| && tail.entries[i].0 == k;
      assert d.entries[i + 1].0 == k;
    }
  }

  /** Assigning a key: the key now maps to the value, every other key keeps its lookup,
      the dict stays valid, and it grows by one entry exactly when the key was new. */
  lemma {:induction false} SetSpec<K, V>(d: Dict<K, V>, k: K, v: V)
    requires Valid(d)
    ensures Valid(Set(d, k, v))
    ensures Get(Set(d, k, v), k) == Some(v)
    ensures forall k' :: k' != k ==> Get(Set(d, k, v), k') == Get(d, k')
    ensures Len(Set(d, k, v)) == if HasKey(d, k) then Len(d) else Len(d) + 1
    decreases |d.entries|
  {
    var r := Set(d, k, v);
    if |d.entries| == 0 {
    } else if d.entries[0].0 == k {
      SetHeadValid(d, k, v);
      assert Dict(r.entries[1..]) == Dict(d.entries[1..]);
    } else {
      var tail := Dict(d.entries[1..]);
      var rt := Set(tail, k, v);
      TailFacts(d, k);
      SetSpec(tail, k, v);
      assert r.entries == [d.entries[0]] + rt.entries;
      assert Dict(r.entries[1..]) == rt;
      ConsValid(d.entries[0], rt);
    }
  }

  lemma SetHeadValid<K, V>(d: Dict<K, V>, k: K, v: V)
    requires Valid(d) && |d.entries| > 0 && d.entries[0].0 == k
    ensures Valid(Set(d, k, v))
  {
    var r := Set(d, k, v);
    forall i, j | 0 <= i < j < |r.entries|
      ensures r.entries[i].0 != r.entries[j].0
    {
      assert r.entries[j] == d.entries[j];
      assert r.entries[i].0 == d.entries[i].0;
    }
  }

  /** Putting an entry in front of a valid dict that lacks its key gives a valid dict. */
  lemma ConsValid<K, V>(e: (K, V), t: Dict<K, V>)
    requires Valid(t) && Get(t, e.0).None?
    ensures Valid(Dict([e] + t.entries))
  {
    var r := Dict([e] + t.entries);
    forall i, j | 0 <= i < j < |r.entries|
      ensures r.entries[i].0 != r.entries[j].0
    {
      assert r.entries[j] == t.entries[j - 1];
      if i > 0 {
        assert r.entries[i] == t.entries[i - 1];
      }
    }
  }

  /** Looking up a key just assigned finds the assigned value, whether or not the dict is
      valid. */
  lemma {:induction false} GetSetSame<K, V>(d: Dict<K, V>, k: K, v: V)
    ensures Get(Set(d, k, v), k) == Some(v)
    decreases |d.entries|
  {
    if |d.entries| > 0 && d.entries[0].0 != k {
      var r := Set(d, k, v);
      GetSetSame(Dict(d.entries[1..]), k, v);
      assert Dict(r.entries[1..]) == Set(Dict(d.entries[1..]), k, v);
    }
  }

  /** Assigning a key the dict lacks appends one entry and changes nothing else. */
  lemma {:induction false} SetNew<K, V>(d: Dict<K, V>, k: K, v: V)
    requires !HasKey(d, k)
    ensures Set(d, k, v) == Dict(d.entries + [(k, v)])
    decreases |d.entries|
  {
    if |d.entries| > 0 {
      var tail := Dict(d.entries[1..]);
      forall i | 0 <= i < |tail.entries|
        ensures tail.entries[i].0 != k
      {
        assert tail.entries[i] == d.entries[i + 1];
      }
      SetNew(tail, k, v);
      assert d.entries + [(k, v)] == [d.entries[0]] + (tail.entries + [(k, v)]);
    }
  }

  /** A key is in a dict with one more entry at the end exactly when it is the new key
      or was there before. */
  lemma HasKeyAppend<K, V>(d: Dict<K, V>, e: (K, V), k: K)
    ensures HasKey(Dict(d.entries + [e]), k) <==> HasKey(d, k) || e.0 == k
  {
    var r := Dict(d.entries + [e]);
    if HasKey(d, k) {
      var i :| 0 <= i < |d.entries| && d.entries[i].0 == k;
      assert r.entries[i] == d.entries[i];
    }
    if e.0 == k {
      assert r.entries[|d.entries|] == e;
    }
    if HasKey(r, k) {
      var i :| 0 <= i < |r.entries| && r.entries[i].0 == k;
      if i < |d.entries| {
        assert r.entries[i] == d.entries[i];
      }
    }
  }

  /** Assigning one key leaves the lookup of every other key alone, whether or not the
      dict is valid. */
  lemma {:induction false} GetSetOther<K, V>(d: Dict<K, V>, k: K, v: V, other: K)
    requires other != k
    ensures Get(Set(d, k, v), other) == Get(d, other)
    decreases |d.entries|
  {
    var r := Set(d, k, v);
    if |d.entries| > 0 && d.entries[0].0 != k {
      GetSetOther(Dict(d.entries[1..]), k, v, other);
      assert Dict(r.entries[1..]) == Set(Dict(d.entries[1..]), k, v);
    } else if |d.entries| > 0 {
      assert Dict(r.entries[1..]) == Dict(d.entries[1..]);
    }
  }

  /** Both halves of the lookup contract of assignment, for every key at once. */
  lemma SetLookups<K, V>(d: Dict<K, V>, k: K, v: V)
    ensures Get(Set(d, k, v), k) == Some(v)
    ensures forall other :: other != k ==> Get(Set(d, k, v), other) == Get(d, other)
  {
    GetSetSame(d, k, v);
    forall other | other != k
      ensures Get(Set(d, k, v), other) == Get(d, other)
    {
      GetSetOther(d, k, v, other);
    }
  }

  /** Looking up in a dict with one more entry at the end, whose key was new. */
  lemma GetAppendNew<K, V>(d: Dict<K, V>, e: (K, V), k: K)
    requires !HasKey(d, e.0)
    ensures Get(Dict(d.entries + [e]), k) == if k == e.0 then Some(e.1) else Get(d, k)
  {
    SetNew(d, e.0, e.1);
    SetLookups(d, e.0, e.1);
  }

  /** The entries before the last of a valid dict form a valid dict lacking the last key. */
  lemma InitFacts<K, V>(d: Dict<K, V>)
    requires Valid(d) && |d.entries| > 0
    ensures var n := |d.entries|;
      Valid(Dict(d.entries[..n - 1])) && !HasKey(Dict(d.entries[..n - 1]), d.entries[n - 1].0)
  {
    var n := |d.entries|;
    var init := Dict(d.entries[..n - 1]);
    assert forall i :: 0 <= i < n - 1 ==> init.entries[i] == d.entries[i];
  }

  /** Assigning keeps every existing key in its position and appends a new key at the end. */
  lemma {:induction false} SetKeepsOrder<K, V>(d: Dict<K, V>, k: K, v: V)
    ensures HasKey(d, k) ==> Keys(Set(d, k, v)) == Keys(d)
    ensures !HasKey(d, k) ==> Keys(Set(d, k, v)) == Keys(d) + [k]
    decreases |d.entries|
  {
    if |d.entries| > 0 && d.entries[0].0 != k {
      var tail := Dict(d.entries[1..]);
      SetKeepsOrder(tail, k, v);
      assert HasKey(d, k) <==> HasKey(tail, k) by {
        if HasKey(d, k) {
          var i :| 0 <= i < |d.entries| && d.entries[i].0 == k;
          assert tail.entries[i - 1].0 == k;
        }
        if HasKey(tail, k) {
          var i :| 0 <= i < |tail.entries| && tail.entries[i].0 == k;
          assert d.entries[i + 1].0 == k;
        }
      }
      assert Keys(d) == [d.entries[0].0] + Keys(tail);
      assert Keys(Set(d, k, v)) == [d.entries[0].0] + Keys(Set(tail, k, v));
    } else if |d.entries| > 0 {
      assert HasKey(d, k);
    }
  }

  /** In a valid dict `len(d)` is the number of distinct keys. */
  lemma {:induction false} LenIsKeyCount<K, V>(d: Dict<K, V>)
    requires Valid(d)
    ensures Len(d) == |KeySet(d)|
    decreases |d.entries|
  {
    if |d.entries| > 0 {
      var tail := Dict(d.entries[1..]);
      assert Valid(tail) by {
        forall i, j | 0 <= i < j < |tail.entries|
          ensures tail.entries[i].0 != tail.entries[j].0
        {
          assert tail.entries[i] == d.entries[i + 1];
          assert tail.entries[j] == d.entries[j + 1];
        }
      }
      LenIsKeyCount(tail);
      var k0 := d.entries[0].0;
      assert KeySet(d) == {k0} + KeySet(tail) by {
        forall k | k in KeySet(d)
          ensures k in {k0} + KeySet(tail)
        {
          var i :| 0 <= i < |d.entries| && d.entries[i].0 == k;
          if i > 0 {
            assert tail.entries[i - 1].0 == k;
          }
        }
        forall k | k in KeySet(tail)
          ensures k in KeySet(d)
        {
          var i :| 0 <= i < |tail.entries| && tail.entries[i].0 == k;
          assert d.entries[i + 1].0 == k;
        }
      }
      TailFacts(d, k0);
    }
  }
}
