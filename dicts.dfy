/** Python's insertion-ordered `dict` of strings, as a sequence of key/value pairs with
    distinct keys. Iteration order (`d.items()`) is the sequence order, which
    the row parser depends on. */
module Dicts {
  import opened Wrappers

  type Dict = seq<(string, string)>

  /** The invariant of every Python dict: no key appears twice. */
  predicate DistinctKeys(d: Dict)
  {
    forall i, j :: 0 <= i < j < |d| ==> d[i].0 != d[j].0
  }

  /** `d.get(k)`. */
  function Lookup(d: Dict, k: string): (r: Option<string>)
    ensures r.Some? <==> exists i :: 0 <= i < |d| && d[i].0 == k
    ensures r.Some? ==> exists i :: 0 <= i < |d| && d[i] == (k, r.value)
  {
    if |d| == 0 then None
    else if d[0].0 == k then Some(d[0].1)
    else
      var r := Lookup(d[1..], k);
      assert forall i :: 1 <= i < |d| ==> d[i] == d[1..][i - 1];
      r
  }

  /** In a dict, the value found for a key is the one stored with it. */
  lemma {:induction false} LookupAt(d: Dict, i: nat)
    requires DistinctKeys(d) && i < |d|
    ensures Lookup(d, d[i].0) == Some(d[i].1)
  {
    if i > 0 {
      assert DistinctKeys(d[1..]);
      assert d[1..][i - 1] == d[i];
      LookupAt(d[1..], i - 1);
    }
  }

  /** Looking up in a dict with one more pair in front. */
  lemma LookupCons(x: (string, string), s: Dict)
    ensures forall k :: Lookup([x] + s, k) == if x.0 == k then Some(x.1) else Lookup(s, k)
  {
    assert ([x] + s)[1..] == s;
  }

  /** A pair in front keeps the keys distinct exactly when its key is new. */
  lemma DistinctCons(x: (string, string), s: Dict)
    ensures DistinctKeys([x] + s) <==> DistinctKeys(s) && Lookup(s, x.0).None?
  {
    var xs := [x] + s;
    if DistinctKeys(xs) {
      forall i, j | 0 <= i < j < |s|
        ensures s[i].0 != s[j].0
      {
        assert s[i] == xs[i + 1] && s[j] == xs[j + 1];
      }
      forall i | 0 <= i < |s|
        ensures s[i].0 != x.0
      {
        assert xs[0] == x && xs[i + 1] == s[i];
      }
    }
    if DistinctKeys(s) && Lookup(s, x.0).None? {
      forall i, j | 0 <= i < j < |xs|
        ensures xs[i].0 != xs[j].0
      {
        assert xs[j] == s[j - 1];
        if i > 0 {
          assert xs[i] == s[i - 1];
        }
      }
    }
  }

  /** The contract of Put, stated on its arguments and result. */
  ghost predicate PutResult(d: Dict, k: string, v: string, r: Dict)
  {
    && (DistinctKeys(d) ==> DistinctKeys(r))
    && Lookup(r, k) == Some(v)
    && (forall k' :: k' != k ==> Lookup(r, k') == Lookup(d, k'))
    && (Lookup(d, k).Some? ==> |r| == |d|)
    && (Lookup(d, k).None? ==> r == d + [(k, v)])
  }

  /** Putting a key other than the first one's: the first pair stays in
      front of what putting into the rest gives. */
  lemma PutBehind(x: (string, string), tail: Dict, k: string, v: string, rest: Dict)
    requires x.0 != k && PutResult(tail, k, v, rest)
    ensures PutResult([x] + tail, k, v, [x] + rest)
  {
    LookupCons(x, tail);
    LookupCons(x, rest);
    DistinctCons(x, tail);
    DistinctCons(x, rest);
    assert Lookup(tail, k).None? ==> [x] + rest == ([x] + tail) + [(k, v)];
  }

  /** Putting the first pair's key replaces that pair in place. */
  lemma PutFront(x: (string, string), tail: Dict, v: string)
    ensures PutResult([x] + tail, x.0, v, [(x.0, v)] + tail)
  {
    LookupCons(x, tail);
    LookupCons((x.0, v), tail);
    DistinctCons(x, tail);
    DistinctCons((x.0, v), tail);
  }

  /** `d[k] = v`: an existing key keeps its position and takes the new value,
      a new key is appended at the end. */
  function Put(d: Dict, k: string, v: string): Dict
  {
    if |d| == 0 then [(k, v)]
    else if d[0].0 == k then [(k, v)] + d[1..]
    else [d[0]] + Put(d[1..], k, v)
  }

  /** Put keeps keys distinct, maps `k` to `v`, leaves every other key
      alone, and appends only a new key. */
  lemma {:induction false} PutSpec(d: Dict, k: string, v: string)
    ensures PutResult(d, k, v, Put(d, k, v))
  {
    if |d| > 0 {
      var x, tail := d[0], d[1..];
      assert d == [x] + tail;
      if x.0 == k {
        PutFront(x, tail, v);
      } else {
        PutSpec(tail, k, v);
        PutBehind(x, tail, k, v, Put(tail, k, v));
      }
    }
  }

  /** The keys, in insertion order (`list(d)`). */
  function Keys(d: Dict): (ks: seq<string>)
    ensures |ks| == |d|
    ensures forall i :: 0 <= i < |d| ==> ks[i] == d[i].0
  {
    seq(|d|, i requires 0 <= i < |d| => d[i].0)
  }

  /** The dict as a finite map (what `dict(d)` compares equal to). */
  function ToMap(d: Dict): (m: map<string, string>)
    requires DistinctKeys(d)
    ensures forall k :: k in m <==> Lookup(d, k).Some?
    ensures forall k :: k in m ==> Lookup(d, k) == Some(m[k])
  {
    if |d| == 0 then map[]
    else
      var m := ToMap(d[1..]);
      assert forall i :: 1 <= i < |d| ==> d[i] == d[1..][i - 1];
      assert d[0].0 !in m;
      m[d[0].0 := d[0].1]
  }
}
