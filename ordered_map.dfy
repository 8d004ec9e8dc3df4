/** A JavaScript Map as a value: the keys in insertion order and the entries.
    `set` on a present key keeps its position, `set` on a new key appends it,
    `delete` drops the key and leaves the others in order. */
module OrderedMap {
  import opened Model

  datatype OMap<V> = OMap(keys: seq<string>, vals: map<string, V>)

  ghost predicate Distinct(s: seq<string>)
  {
    forall i, j :: 0 <= i < j < |s| ==> s[i] != s[j]
  }

  /** The keys are listed once each, and they are exactly the entries' keys. */
  ghost predicate Wf<V>(m: OMap<V>)
  {
    Distinct(m.keys) && forall k :: k in m.vals <==> k in m.keys
  }

  function Size<V>(m: OMap<V>): nat
  {
    |m.keys|
  }

  function Get<V>(m: OMap<V>, k: string): Option<V>
  {
    if k in m.vals then Some(m.vals[k]) else None
  }

  /** Map.prototype.set. */
  function Set<V>(m: OMap<V>, k: string, v: V): (r: OMap<V>)
    requires Wf(m)
    ensures Wf(r)
    ensures Get(r, k) == Some(v)
    ensures forall k' :: k' != k ==> Get(r, k') == Get(m, k')
    ensures m.keys <= r.keys
    ensures k in m.vals ==> r.keys == m.keys
    ensures k !in m.vals ==> r.keys == m.keys + [k]
  {
    if k in m.vals then OMap(m.keys, m.vals[k := v])
    else OMap(m.keys + [k], m.vals[k := v])
  }

  /** The sequence without k, the other elements in their order. */
  function Remove(s: seq<string>, k: string): (r: seq<string>)
    ensures forall x :: x in r <==> x in s && x != k
    ensures k !in s ==> r == s
    ensures Distinct(s) ==> Distinct(r)
    ensures Distinct(s) && k in s ==> |r| == |s| - 1
  {
    if s == [] then []
    else if s[0] == k then Remove(s[1..], k)
    else
      var rest := Remove(s[1..], k);
      assert Distinct(s) ==> Distinct(s[1..]) && s[0] !in rest;
      assert forall j :: 0 < j < |[s[0]] + rest| ==> ([s[0]] + rest)[j] == rest[j - 1];
      [s[0]] + rest
  }

  /** Removing a listed key closes the gap at its index. */
  lemma {:induction false} RemoveAt(s: seq<string>, i: nat)
    requires Distinct(s) && i < |s|
    ensures Remove(s, s[i]) == s[..i] + s[i + 1..]
  {
    if i == 0 {
      assert s[0] !in s[1..];
    } else {
      RemoveAt(s[1..], i - 1);
      assert s[1..][..i - 1] == s[1..i];
      assert s[1..][i..] == s[i + 1..];
      assert s[..i] == [s[0]] + s[1..i];
    }
  }

  /** Map.prototype.delete; deleting an absent key changes nothing. */
  function Delete<V>(m: OMap<V>, k: string): (r: OMap<V>)
    requires Wf(m)
    ensures Wf(r)
    ensures Get(r, k) == None
    ensures forall k' :: k' != k ==> Get(r, k') == Get(m, k')
    ensures Size(r) == if k in m.vals then Size(m) - 1 else Size(m)
    ensures k !in m.vals ==> r == m
  {
    OMap(Remove(m.keys, k), m.vals - {k})
  }

  /** Map.prototype.values, collected into an array. */
  function Values<V>(m: OMap<V>): (r: seq<V>)
    requires Wf(m)
    ensures |r| == Size(m)
    ensures forall i :: 0 <= i < |r| ==> m.keys[i] in m.vals && r[i] == m.vals[m.keys[i]]
  {
    seq(|m.keys|, i requires 0 <= i < |m.keys| => ValueAt(m, i))
  }

  /** values() lists every entry: each key of the map has its value at the
      key's position in the list. */
  lemma ValuesListsEveryEntry<V>(m: OMap<V>, k: string)
    requires Wf(m) && k in m.vals
    ensures exists i :: 0 <= i < |Values(m)| && m.keys[i] == k && Values(m)[i] == m.vals[k]
  {
    var i :| 0 <= i < |m.keys| && m.keys[i] == k;
    assert Values(m)[i] == m.vals[k];
  }

  function ValueAt<V>(m: OMap<V>, i: nat): V
    requires Wf(m) && i < |m.keys|
  {
    assert m.keys[i] in m.keys;
    m.vals[m.keys[i]]
  }
}
