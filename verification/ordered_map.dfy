/** A Python `dict` as the resolver and generator use it: entries in insertion
    order, a key looked up by its first occurrence, and `d[k] = v` that keeps
    the position of an existing key and replaces its value. */
module OrderedMap {
  import opened Results

  function Keys<K, V>(m: seq<(K, V)>): (ks: seq<K>)
    ensures |ks| == |m|
    ensures forall i :: 0 <= i < |m| ==> ks[i] == m[i].0
  {
    seq(|m|, i requires 0 <= i < |m| => m[i].0)
  }

  predicate Distinct<T(==)>(s: seq<T>) {
    forall i, j :: 0 <= i < j < |s| ==> s[i] != s[j]
  }

  /** Position of the entry for `k`, if there is one. */
  function IndexOf<K(==), V>(m: seq<(K, V)>, k: K): (r: Option<nat>)
    ensures r.Some? ==> r.value < |m| && m[r.value].0 == k
    ensures r.Some? ==> forall j :: 0 <= j < r.value ==> m[j].0 != k
    ensures r.None? <==> k !in Keys(m)
  {
    if |m| == 0 then None
    else if m[0].0 == k then Some(0)
    else
      match IndexOf(m[1..], k)
      case None => None
      case Some(i) => Some(i + 1)
  }

  /** `d.get(k)`: the value stored under `k`, if any. */
  function Get<K(==), V>(m: seq<(K, V)>, k: K): (r: Option<V>)
    ensures r.Some? <==> k in Keys(m)
    ensures r.Some? ==> (k, r.value) in m
  {
    match IndexOf(m, k)
    case None => None
    case Some(i) => Some(m[i].1)
  }

  /** `d[k] = v`. */
  function Put<K(==), V>(m: seq<(K, V)>, k: K, v: V): (r: seq<(K, V)>)
    ensures k !in Keys(m) ==> r == m + [(k, v)]
    ensures k in Keys(m) ==> Keys(r) == Keys(m)
  {
    match IndexOf(m, k)
    case None => m + [(k, v)]
    case Some(i) =>
      assert Keys(m[i := (k, v)]) == Keys(m);
      m[i := (k, v)]
  }

  /** The position of a key depends only on the key sequence. */
  lemma {:induction false} IndexOfByKeys<K(!new), V>(a: seq<(K, V)>, b: seq<(K, V)>, k: K)
    requires Keys(a) == Keys(b)
    ensures IndexOf(a, k) == IndexOf(b, k)
  {
    if |a| > 0 && a[0].0 != k {
      assert Keys(a[1..]) == Keys(a)[1..];
      assert Keys(b[1..]) == Keys(b)[1..];
      IndexOfByKeys(a[1..], b[1..], k);
    }
  }

  /** After `d[k] = v`, `k` maps to `v` and every other key keeps its value. */
  lemma PutGet<K(!new), V>(m: seq<(K, V)>, k: K, v: V, k': K)
    ensures Get(Put(m, k, v), k') == if k' == k then Some(v) else Get(m, k')
  {
    var r := Put(m, k, v);
    match IndexOf(m, k)
    case None =>
      assert Keys(r) == Keys(m) + [k];
      assert Keys(r)[..|m|] == Keys(m);
      if IndexOf(r, k').Some? && IndexOf(r, k').value < |m| {
        IndexOfPrefix(m, r, k', IndexOf(r, k').value);
      }
    case Some(i) =>
      IndexOfByKeys(r, m, k');
  }

  /** The first entry for `k` in `b` lies in the common prefix with `a`. */
  lemma {:induction false} IndexOfPrefix<K(!new), V>(a: seq<(K, V)>, b: seq<(K, V)>, k: K, i: nat)
    requires i < |a| <= |b| && a == b[..|a|] && IndexOf(b, k) == Some(i)
    ensures IndexOf(a, k) == Some(i)
  {
    if |a| > 0 && a[0].0 != k {
      assert a[1..] == b[1..][..|a| - 1];
      IndexOfPrefix(a[1..], b[1..], k, i - 1);
    }
  }

  /** `d[k] = v` never introduces a duplicate key. */
  lemma PutDistinct<K(!new), V>(m: seq<(K, V)>, k: K, v: V)
    requires Distinct(Keys(m))
    ensures Distinct(Keys(Put(m, k, v)))
  {
  }

  /** The dict built by assigning the pairs of `ps` in order. */
  function FromPairs<K(==), V>(ps: seq<(K, V)>): seq<(K, V)>
  {
    if |ps| == 0 then [] else Put(FromPairs(ps[..|ps| - 1]), ps[|ps| - 1].0, ps[|ps| - 1].1)
  }

  /** The keys of `s` without repetitions, each at its first occurrence. */
  function Dedup<T(==,!new)>(s: seq<T>): (r: seq<T>)
    ensures forall x :: x in r <==> x in s
    ensures Distinct(r)
  {
    if |s| == 0 then []
    else
      var d := Dedup(s[..|s| - 1]);
      assert s == s[..|s| - 1] + [s[|s| - 1]];
      if s[|s| - 1] in d then d else d + [s[|s| - 1]]
  }

  /** The value of the last pair of `ps` whose key is `k`. */
  function LastValue<K(==), V>(ps: seq<(K, V)>, k: K): Option<V>
  {
    if |ps| == 0 then None
    else if ps[|ps| - 1].0 == k then Some(ps[|ps| - 1].1)
    else LastValue(ps[..|ps| - 1], k)
  }

  /** Assigning pairs in order gives a dict whose keys are the distinct keys of
      the pairs, in order of first assignment. */
  lemma {:induction false} FromPairsKeys<K(!new), V>(ps: seq<(K, V)>)
    ensures Keys(FromPairs(ps)) == Dedup(Keys(ps))
  {
    if |ps| > 0 {
      var init := ps[..|ps| - 1];
      FromPairsKeys(init);
      assert Keys(init) == Keys(ps)[..|ps| - 1];
    }
  }

  /** ... and whose value under each key is the last one assigned to it. */
  lemma {:induction false} FromPairsLastWins<K(!new), V>(ps: seq<(K, V)>, k: K)
    ensures Get(FromPairs(ps), k) == LastValue(ps, k)
  {
    if |ps| > 0 {
      FromPairsLastWins(ps[..|ps| - 1], k);
      PutGet(FromPairs(ps[..|ps| - 1]), ps[|ps| - 1].0, ps[|ps| - 1].1, k);
    }
  }

  /** When no key repeats, the dict holds exactly the pairs, in order. */
  lemma {:induction false} FromPairsDistinct<K(!new), V>(ps: seq<(K, V)>)
    requires Distinct(Keys(ps))
    ensures FromPairs(ps) == ps
  {
    if |ps| > 0 {
      var init := ps[..|ps| - 1];
      assert Keys(init) == Keys(ps)[..|ps| - 1];
      FromPairsDistinct(init);
      assert forall i :: 0 <= i < |init| ==> Keys(init)[i] == Keys(ps)[i];
      assert ps[|ps| - 1].0 !in Keys(init);
      assert init + [ps[|ps| - 1]] == ps;
    }
  }

  /** In a dict without repeated keys, each entry is found under its key. */
  lemma GetAt<K(!new), V>(m: seq<(K, V)>, i: nat)
    requires Distinct(Keys(m)) && i < |m|
    ensures Get(m, m[i].0) == Some(m[i].1)
  {
    var r := IndexOf(m, m[i].0);
    assert r.Some?;
    assert Keys(m)[r.value] == Keys(m)[i];
  }
}
