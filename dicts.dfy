/** A dictionary that remembers insertion order, as Python's `dict` does:
    assigning to a present key keeps its position, a new key goes last, and
    `pop` removes a key without disturbing the order of the others. */
module Dicts {
  import opened Common

  datatype Dict<K(==,!new), V(==)> = Dict(keys: seq<K>, entries: map<K, V>) {

    /** The keys are listed once each, and are exactly the mapped keys. */
    ghost predicate Valid() {
      && (forall i, j :: 0 <= i < j < |keys| ==> keys[i] != keys[j])
      && (forall k :: k in entries <==> k in keys)
    }

    /** `dict.get(k)`: the value under `k`, or nothing. */
    function Get(k: K): (r: Option<V>)
      ensures r.Some? <==> k in entries
      ensures r.Some? ==> r.value == entries[k]
    {
      if k in entries then Some(entries[k]) else None
    }

    /** `d[k] = v`. */
    function Put(k: K, v: V): (d: Dict<K, V>)
      requires Valid()
      ensures d.Valid()
      ensures d.Get(k) == Some(v)
      ensures forall k' :: k' != k ==> d.Get(k') == Get(k')
      ensures k in entries ==> d.keys == keys
      ensures k !in entries ==> d.keys == keys + [k]
    {
      if k in entries then Dict(keys, entries[k := v])
      else Dict(keys + [k], entries[k := v])
    }

    /** `d.pop(k, None)`: the dictionary without `k`. */
    function Pop(k: K): (d: Dict<K, V>)
      requires Valid()
      ensures d.Valid()
      ensures d.Get(k) == None
      ensures forall k' :: k' != k ==> d.Get(k') == Get(k')
      ensures |d.keys| == if k in entries then |keys| - 1 else |keys|
    {
      RemoveKeepsDistinct(keys, k);
      Dict(Without(keys, k), entries - {k})
    }

    /** `list(d.values())`, in key order. */
    function Values(): (vs: seq<V>)
      requires Valid()
      ensures |vs| == |entries| == |keys|
      ensures forall i :: 0 <= i < |vs| ==> vs[i] == entries[keys[i]]
      ensures forall i :: 0 <= i < |vs| ==> vs[i] in entries.Values
      ensures forall k :: k in entries ==> entries[k] in vs
    {
      DistinctLength(keys, entries.Keys);
      var vs := seq(|keys|, i requires 0 <= i < |keys| => entries[keys[i]]);
      assert forall k :: k in entries ==> entries[k] in vs by {
        forall k | k in entries ensures entries[k] in vs {
          var i :| 0 <= i < |keys| && keys[i] == k;
          assert vs[i] == entries[k];
        }
      }
      vs
    }
  }

  function Empty<K(==,!new), V(==)>(): (d: Dict<K, V>)
    ensures d.Valid() && d.entries == map[]
  {
    Dict([], map[])
  }

  /** `s` with every occurrence of `x` removed, the rest in order. */
  function Without<K(==,!new)>(s: seq<K>, x: K): (r: seq<K>)
    ensures forall y :: y in r <==> y in s && y != x
    decreases |s|
  {
    if s == [] then []
    else if s[0] == x then Without(s[1..], x)
    else [s[0]] + Without(s[1..], x)
  }

  lemma {:induction false} RemoveKeepsDistinct<K(!new)>(s: seq<K>, x: K)
    requires forall i, j :: 0 <= i < j < |s| ==> s[i] != s[j]
    ensures forall i, j :: 0 <= i < j < |Without(s, x)| ==> Without(s, x)[i] != Without(s, x)[j]
    ensures |Without(s, x)| == if x in s then |s| - 1 else |s|
    decreases |s|
  {
    if s != [] {
      assert forall i, j :: 0 <= i < j < |s[1..]| ==> s[1..][i] != s[1..][j] by {
        forall i, j | 0 <= i < j < |s[1..]| ensures s[1..][i] != s[1..][j] {
          assert s[1..][i] == s[i + 1] && s[1..][j] == s[j + 1];
        }
      }
      RemoveKeepsDistinct(s[1..], x);
      assert s[0] !in s[1..] by {
        forall i | 0 <= i < |s[1..]| ensures s[1..][i] != s[0] {
          assert s[1..][i] == s[i + 1];
        }
      }
      assert x in s <==> x == s[0] || x in s[1..];
    }
  }

  /** A list of distinct keys is as long as the set of keys it lists. */
  lemma {:induction false} DistinctLength<K(!new)>(s: seq<K>, ks: set<K>)
    requires forall i, j :: 0 <= i < j < |s| ==> s[i] != s[j]
    requires forall k :: k in ks <==> k in s
    ensures |s| == |ks|
    decreases |s|
  {
    if s != [] {
      var rest := s[1..];
      assert forall i, j :: 0 <= i < j < |rest| ==> rest[i] != rest[j] by {
        forall i, j | 0 <= i < j < |rest| ensures rest[i] != rest[j] {
          assert rest[i] == s[i + 1] && rest[j] == s[j + 1];
        }
      }
      assert s[0] !in rest by {
        forall i | 0 <= i < |rest| ensures rest[i] != s[0] {
          assert rest[i] == s[i + 1];
        }
      }
      assert forall k :: k in ks - {s[0]} <==> k in rest by {
        forall k ensures k in ks - {s[0]} <==> k in rest {
          assert k in s <==> k == s[0] || k in rest;
        }
      }
      DistinctLength(rest, ks - {s[0]});
    }
  }
}
