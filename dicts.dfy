/** Python's `dict` with string keys: a finite map plus the order in which keys were first
    inserted. Assigning to a present key keeps its place; `del` drops it from the order;
    `values()` and `items()` follow the order. */
module Dicts {

  datatype Dict<V> = Dict(order: seq<string>, m: map<string, V>) {

    ghost predicate Valid() {
      && Distinct(order)
      && (forall k :: k in order <==> k in m)
    }
  }

  ghost predicate Distinct(s: seq<string>) {
    forall i, j :: 0 <= i < j < |s| ==> s[i] != s[j]
  }

  function Empty<V>(): (d: Dict<V>)
    ensures d.Valid() && d.m == map[] && d.order == []
  {
    Dict([], map[])
  }

  /** `d[k] = v`. */
  function Put<V>(d: Dict<V>, k: string, v: V): (r: Dict<V>)
    requires d.Valid()
    ensures r.Valid()
    ensures r.m == d.m[k := v]
    ensures r.order == if k in d.m then d.order else d.order + [k]
  {
    if k in d.m then Dict(d.order, d.m[k := v]) else Dict(d.order + [k], d.m[k := v])
  }

  /** The sequence with every occurrence of `k` taken out. */
  function Remove(s: seq<string>, k: string): (r: seq<string>)
    ensures forall x :: x in r <==> x in s && x != k
    ensures |r| <= |s|
  {
    if s == [] then []
    else (if s[0] == k then [] else [s[0]]) + Remove(s[1..], k)
  }

  lemma {:induction false} RemoveKeepsDistinct(s: seq<string>, k: string)
    requires Distinct(s)
    ensures Distinct(Remove(s, k))
  {
    if s != [] {
      RemoveKeepsDistinct(s[1..], k);
      assert s[0] !in s[1..];
    }
  }

  lemma {:induction false} RemoveAbsent(s: seq<string>, k: string)
    requires k !in s
    ensures Remove(s, k) == s
  {
    if s != [] {
      RemoveAbsent(s[1..], k);
      assert [s[0]] + s[1..] == s;
    }
  }

  lemma {:induction false} RemoveLast(s: seq<string>, k: string)
    requires k !in s
    ensures Remove(s + [k], k) == s
  {
    if s == [] {
    } else {
      assert (s + [k])[1..] == s[1..] + [k];
      RemoveLast(s[1..], k);
      assert [s[0]] + s[1..] == s;
    }
  }

  /** `del d[k]`; Python raises `KeyError` for an absent key, which the callers here never do. */
  function Delete<V>(d: Dict<V>, k: string): (r: Dict<V>)
    requires d.Valid() && k in d.m
    ensures r.Valid()
    ensures r.m == d.m - {k}
    ensures r.order == Remove(d.order, k)
  {
    RemoveKeepsDistinct(d.order, k);
    Dict(Remove(d.order, k), d.m - {k})
  }

  /** `list(d.values())`. */
  function Values<V>(d: Dict<V>): (r: seq<V>)
    requires d.Valid()
    ensures |r| == |d.order|
    ensures forall i :: 0 <= i < |d.order| ==> r[i] == d.m[d.order[i]]
  {
    seq(|d.order|, i requires 0 <= i < |d.order| => d.m[d.order[i]])
  }

  /** Deleting a key that was just inserted gives the dict back exactly. */
  lemma DeleteAfterInsert<V>(d: Dict<V>, k: string, v: V)
    requires d.Valid() && k !in d.m
    ensures Delete(Put(d, k, v), k) == d
  {
    RemoveLast(d.order, k);
    assert d.m[k := v] - {k} == d.m;
  }

  /** Re-inserting a key that was just deleted keeps every key and moves that key to the end. */
  lemma InsertAfterDelete<V>(d: Dict<V>, k: string, v: V)
    requires d.Valid() && k in d.m
    ensures Put(Delete(d, k), k, v).m == d.m[k := v]
    ensures Put(Delete(d, k), k, v).order == Remove(d.order, k) + [k]
  {
    var e := Delete(d, k);
    assert k !in e.m;
    UpdateAfterRemoval(d.m, k, v);
  }

  lemma UpdateAfterRemoval<V>(m: map<string, V>, k: string, v: V)
    ensures (m - {k})[k := v] == m[k := v]
  {
  }
}
