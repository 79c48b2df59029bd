/**
 * Python's insertion-ordered `dict` with string keys, as a sequence of
 * (key, value) entries.
 * Assigning to a key that is present replaces its value where it stands;
 * assigning to a new key appends an entry at the end.
 */
module Dict {
  import opened Wrappers

  type Dict<V> = seq<(string, V)>

  function Keys<V>(d: Dict<V>): (ks: seq<string>)
    ensures |ks| == |d|
    ensures forall i :: 0 <= i < |d| ==> ks[i] == d[i].0
  {
    if |d| == 0 then [] else [d[0].0] + Keys(d[1..])
  }

  ghost predicate DistinctKeys<V>(d: Dict<V>)
  {
    forall i, j :: 0 <= i < j < |d| ==> d[i].0 != d[j].0
  }

  /** `d.get(k)`: the value stored under `k`, if any. */
  function Get<V>(d: Dict<V>, k: string): (r: Option<V>)
    ensures r.Some? <==> k in Keys(d)
  {
    if |d| == 0 then None
    else if d[0].0 == k then Some(d[0].1)
    else Get(d[1..], k)
  }

  /** `d[k] = v`. */
  function Put<V>(d: Dict<V>, k: string, v: V): (r: Dict<V>)
    ensures Get(r, k) == Some(v)
    ensures forall k' :: k' != k ==> Get(r, k') == Get(d, k')
    ensures k in Keys(d) ==> Keys(r) == Keys(d)
    ensures k !in Keys(d) ==> r == d + [(k, v)]
  {
    if |d| == 0 then [(k, v)]
    else if d[0].0 == k then
      var r := [(k, v)] + d[1..];
      assert r[1..] == d[1..];
      assert Keys(r) == [k] + Keys(d[1..]);
      assert Keys(d) == [k] + Keys(d[1..]);
      r
    else
      var rest := Put(d[1..], k, v);
      var r := [d[0]] + rest;
      assert r[0] == d[0] && r[1..] == rest;
      assert d == [d[0]] + d[1..];
      assert Keys(d) == [d[0].0] + Keys(d[1..]);
      assert Keys(r) == [d[0].0] + Keys(rest);
      assert k !in Keys(d) ==> r == d + [(k, v)] by {
        if k !in Keys(d) {
          assert rest == d[1..] + [(k, v)];
        }
      }
      r
  }

  /** Assignment never introduces a second entry for a key. */
  lemma {:induction false} PutDistinct<V>(d: Dict<V>, k: string, v: V)
    requires DistinctKeys(d)
    ensures DistinctKeys(Put(d, k, v))
  {
    var r := Put(d, k, v);
    if k in Keys(d) {
      assert Keys(r) == Keys(d);
      forall i, j | 0 <= i < j < |r|
        ensures r[i].0 != r[j].0
      {
        assert Keys(r)[i] == Keys(d)[i] && Keys(r)[j] == Keys(d)[j];
      }
    }
  }

  /** The dict built by assigning the pairs of `ps` one after another. */
  function FromPairs<V>(ps: seq<(string, V)>): (d: Dict<V>)
  {
    if |ps| == 0 then [] else
      var last := ps[|ps| - 1];
      Put(FromPairs(ps[..|ps| - 1]), last.0, last.1)
  }

  /** Reference reading of "the later assignment wins": the last value paired with `k`. */
  function LastValue<V>(ps: seq<(string, V)>, k: string): (r: Option<V>)
    ensures r.None? <==> k !in Keys(ps)
  {
    if |ps| == 0 then None
    else if ps[|ps| - 1].0 == k then Some(ps[|ps| - 1].1)
    else
      assert Keys(ps) == Keys(ps[..|ps| - 1]) + [ps[|ps| - 1].0];
      LastValue(ps[..|ps| - 1], k)
  }

  /** Building a dict keeps, for every key, the value of its last assignment. */
  lemma {:induction false} FromPairsLaterWins<V>(ps: seq<(string, V)>, k: string)
    ensures Get(FromPairs(ps), k) == LastValue(ps, k)
  {
    if |ps| > 0 {
      FromPairsLaterWins(ps[..|ps| - 1], k);
    }
  }

  /** Building a dict from pairs whose keys are distinct gives back the pairs themselves. */
  lemma {:induction false} FromDistinctPairs<V>(ps: seq<(string, V)>)
    requires DistinctKeys(ps)
    ensures FromPairs(ps) == ps
  {
    if |ps| > 0 {
      var init := ps[..|ps| - 1];
      FromDistinctPairs(init);
      var last := ps[|ps| - 1];
      assert last.0 !in Keys(init);
      assert init + [last] == ps;
    }
  }

  /** A built dict never holds the same key twice. */
  lemma {:induction false} FromPairsDistinct<V>(ps: seq<(string, V)>)
    ensures DistinctKeys(FromPairs(ps))
  {
    if |ps| > 0 {
      FromPairsDistinct(ps[..|ps| - 1]);
      PutDistinct(FromPairs(ps[..|ps| - 1]), ps[|ps| - 1].0, ps[|ps| - 1].1);
    }
  }

  /** A built dict has exactly the keys the pairs mention. */
  lemma FromPairsKeys<V>(ps: seq<(string, V)>, k: string)
    ensures k in Keys(FromPairs(ps)) <==> k in Keys(ps)
  {
    FromPairsLaterWins(ps, k);
  }

  /** With distinct keys, looking a key up finds the entry that carries it. */
  lemma {:induction false} GetAt<V>(d: Dict<V>, i: int)
    requires DistinctKeys(d)
    requires 0 <= i < |d|
    ensures Get(d, d[i].0) == Some(d[i].1)
  {
    if i > 0 {
      assert d[1..][i - 1] == d[i];
      GetAt(d[1..], i - 1);
    }
  }

  /** Assigning the pairs one more pair at a time: the last assignment is the outermost `Put`. */
  lemma FromPairsSnoc<V>(ps: seq<(string, V)>, k: string, v: V)
    ensures FromPairs(ps + [(k, v)]) == Put(FromPairs(ps), k, v)
  {
    assert (ps + [(k, v)])[..|ps|] == ps;
  }

  /** When every pair for `k` carries the same value, that value is the last one. */
  lemma {:induction false} LastValueUniform<V>(ps: seq<(string, V)>, k: string, v: V, i: int)
    requires 0 <= i < |ps| && ps[i].0 == k
    requires forall j :: 0 <= j < |ps| && ps[j].0 == k ==> ps[j].1 == v
    ensures LastValue(ps, k) == Some(v)
  {
    if ps[|ps| - 1].0 != k {
      LastValueUniform(ps[..|ps| - 1], k, v, i);
    }
  }
}
