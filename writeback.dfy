/** The merge `OutputBibtexRepo.Write` performs before writing: a dict built from the
    read-write repo's own entries, keyed by bibkey, then `update`d with the selected entries
    keyed by bibkey, so on a shared bibkey the later pair wins. A merged value that is `None`
    (a DBLP record whose BibTeX could not be fetched) stops the write. */
module WriteBack {
  import opened Records
  import opened Dicts

  /** One `bibkey: pyb_entry` pair of the dict comprehensions. */
  type Pair = (string, Option<PybEntry>)

  /** The map a sequence of pairs denotes when later pairs overwrite earlier ones. */
  function Assoc(ps: seq<Pair>): map<string, Option<PybEntry>>
  {
    if ps == [] then map[] else Assoc(ps[..|ps| - 1])[ps[|ps| - 1].0 := ps[|ps| - 1].1]
  }

  /** Inserting the pairs one after another into `d`, as a comprehension or `update` does. */
  function PutAll(d: Dict<Option<PybEntry>>, ps: seq<Pair>): (r: Dict<Option<PybEntry>>)
    requires d.Valid()
    ensures r.Valid()
    ensures r.m == d.m + Assoc(ps)
  {
    if ps == [] then d
    else
      var last := ps[|ps| - 1];
      var before := PutAll(d, ps[..|ps| - 1]);
      UpdateAfterUnion(d.m, Assoc(ps[..|ps| - 1]), last.0, last.1);
      Put(before, last.0, last.1)
  }

  lemma UpdateAfterUnion(a: map<string, Option<PybEntry>>, b: map<string, Option<PybEntry>>, k: string, v: Option<PybEntry>)
    ensures (a + b)[k := v] == a + b[k := v]
  {
  }

  /** `{k: v for ...}` followed by `.update({k: v for ...})`. */
  function Merge(own: seq<Pair>, selected: seq<Pair>): (r: Dict<Option<PybEntry>>)
    ensures r.Valid()
    ensures r.m == Assoc(own) + Assoc(selected)
  {
    var base := PutAll(Empty(), own);
    assert base.m == Assoc(own) by {
      assert map[] + Assoc(own) == Assoc(own);
    }
    PutAll(base, selected)
  }

  /** The key set of `Assoc(ps)` is the set of keys the pairs carry. */
  lemma {:induction false} AssocKeys(ps: seq<Pair>, k: string)
    ensures k in Assoc(ps) <==> exists i :: 0 <= i < |ps| && ps[i].0 == k
  {
    if ps != [] {
      var init := ps[..|ps| - 1];
      AssocKeys(init, k);
      if k in Assoc(init) {
        var i :| 0 <= i < |init| && init[i].0 == k;
        assert ps[i].0 == k;
      }
      if exists i :: 0 <= i < |ps| && ps[i].0 == k {
        var i :| 0 <= i < |ps| && ps[i].0 == k;
        if i < |init| {
          assert init[i].0 == k;
        }
      }
    }
  }

  /** The pair that wins is the last one with that key. */
  lemma {:induction false} AssocLastWins(ps: seq<Pair>, i: int)
    requires 0 <= i < |ps|
    requires forall j :: i < j < |ps| ==> ps[j].0 != ps[i].0
    ensures ps[i].0 in Assoc(ps) && Assoc(ps)[ps[i].0] == ps[i].1
  {
    if i < |ps| - 1 {
      var init := ps[..|ps| - 1];
      assert init[i] == ps[i];
      AssocLastWins(init, i);
    }
  }

  /** A selected entry overrides a read-write entry with the same bibkey; a bibkey that
      only the read-write repo has keeps its entry. */
  lemma SelectedWins(own: seq<Pair>, selected: seq<Pair>, k: string)
    ensures k in Assoc(selected) ==> Merge(own, selected).m[k] == Assoc(selected)[k]
    ensures k !in Assoc(selected) && k in Assoc(own) ==> Merge(own, selected).m[k] == Assoc(own)[k]
    ensures k in Merge(own, selected).m <==> k in Assoc(own) || k in Assoc(selected)
  {
  }

  /** What `Write` does once the panel is attached: stop at a `None`, or hand over the data. */
  datatype Outcome =
    | NotAttached
    | Aborted(key: string)
    | Written(file: string, data: map<string, PybEntry>)

  predicate HasNone(m: map<string, Option<PybEntry>>) {
    exists k :: k in m && m[k] == None
  }

  /** The merged map with every value known to be present. */
  function Unwrap(m: map<string, Option<PybEntry>>): (r: map<string, PybEntry>)
    requires !HasNone(m)
    ensures r.Keys == m.Keys
    ensures forall k :: k in m ==> m[k] == Some(r[k])
  {
    map k | k in m :: m[k].value
  }

  /** The loop over `entries.items()`: the first key in dict order whose value is `None`. */
  method FirstNone(d: Dict<Option<PybEntry>>) returns (r: Option<string>)
    requires d.Valid()
    ensures r.None? <==> !HasNone(d.m)
    ensures r.Some? ==> r.value in d.m && d.m[r.value] == None
    ensures r.Some? ==> forall i :: 0 <= i < |d.order| && d.order[i] == r.value ==>
      forall j :: 0 <= j < i ==> d.m[d.order[j]] != None
  {
    var i := 0;
    while i < |d.order|
      invariant 0 <= i <= |d.order|
      invariant forall j :: 0 <= j < i ==> d.m[d.order[j]] != None
    {
      var key := d.order[i];
      if d.m[key] == None {
        forall n | 0 <= n < |d.order| && d.order[n] == key
          ensures n == i
        {
        }
        return Some(key);
      }
      i := i + 1;
    }
    return None;
  }
}
