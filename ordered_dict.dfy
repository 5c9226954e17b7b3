/** Python's insertion-ordered `dict`, as a sequence of (key, value) pairs.
    Assigning to a key that is present overwrites its value where it stands;
    assigning to a new key appends it. */
module OrderedDict {

  datatype Option<T> = None | Some(value: T)

  /** The keys in iteration order. */
  function Keys<K, V>(d: seq<(K, V)>): (ks: seq<K>)
    ensures |ks| == |d| && forall i :: 0 <= i < |d| ==> ks[i] == d[i].0
  {
    seq(|d|, i requires 0 <= i < |d| => d[i].0)
  }

  /** No key appears twice: what every real `dict` satisfies. */
  predicate UniqueKeys<K(==), V>(d: seq<(K, V)>) {
    forall i, j :: 0 <= i < j < |d| ==> d[i].0 != d[j].0
  }

  lemma KeysPrefix<K, V>(d: seq<(K, V)>, n: nat)
    requires n <= |d|
    ensures Keys(d[..n]) == Keys(d)[..n]
  {
  }

  /** `d.get(k)`: the value stored under `k`, if any. */
  function Lookup<K(==), V>(d: seq<(K, V)>, k: K): (r: Option<V>)
    ensures r.None? <==> k !in Keys(d)
    ensures r.Some? ==> (k, r.value) in d
  {
    if k in Keys(d) then Some(d[IndexOf(Keys(d), k)].1) else None
  }

  /** In a dict, the value stored under the key of entry `i` is that entry's value. */
  lemma LookupAt<K, V>(d: seq<(K, V)>, i: nat)
    requires UniqueKeys(d) && i < |d|
    ensures Lookup(d, d[i].0) == Some(d[i].1)
  {
    FirstIndexUnique(Keys(d), d[i].0, IndexOf(Keys(d), d[i].0), i);
  }

  /** A key of a prefix has the same value in the whole. */
  lemma LookupPrefix<K, V>(d: seq<(K, V)>, n: nat, k: K)
    requires n <= |d| && k in Keys(d[..n])
    ensures Lookup(d, k) == Lookup(d[..n], k)
  {
    KeysPrefix(d, n);
    IndexOfPrefix(Keys(d), n, k);
  }

  /** `d[k]` for a key that is present. */
  function Get<K(==), V>(d: seq<(K, V)>, k: K): (v: V)
    requires k in Keys(d)
    ensures (k, v) in d
  {
    Lookup(d, k).value
  }

  /** `d[k] = v`: overwrite where the key stands, or append a new key. */
  function Insert<K(==), V>(d: seq<(K, V)>, k: K, v: V): (r: seq<(K, V)>)
    ensures k !in Keys(d) ==> r == d + [(k, v)]
    ensures UniqueKeys(d) ==> forall i :: 0 <= i < |d| && d[i].0 == k ==> r == d[i := (k, v)]
    ensures Keys(r) == if k in Keys(d) then Keys(d) else Keys(d) + [k]
    ensures Lookup(r, k) == Some(v)
    ensures forall k' :: k' in Keys(d) && k' != k ==> Lookup(r, k') == Lookup(d, k')
    ensures UniqueKeys(d) ==> UniqueKeys(r)
  {
    if k in Keys(d) then
      var i := IndexOf(Keys(d), k);
      var r := d[i := (k, v)];
      assert Keys(r) == Keys(d);
      forall j | 0 <= j < |d| && d[j].0 == k && UniqueKeys(d) ensures j == i {
        FirstIndexUnique(Keys(d), k, i, j);
      }
      r
    else
      var r := d + [(k, v)];
      assert Keys(r) == Keys(d) + [k];
      forall k' | k' in Keys(d) ensures IndexOf(Keys(r), k') == IndexOf(Keys(d), k') {
        IndexOfPrefix(Keys(r), |d|, k');
        assert Keys(r)[..|d|] == Keys(d);
      }
      r
  }

  /** `if present: d[k] = v`. */
  function InsertIf<K(==), V>(d: seq<(K, V)>, k: K, v: V, present: bool): (r: seq<(K, V)>) {
    if present then Insert(d, k, v) else d
  }

  /** `if present: d[k] = v` with `k` new: the pair is appended exactly when `present`. */
  lemma InsertOptional<K, V>(d: seq<(K, V)>, k: K, v: V, present: bool)
    requires UniqueKeys(d) && k !in Keys(d)
    ensures var r := InsertIf(d, k, v, present);
            && r == d + (if present then [(k, v)] else [])
            && UniqueKeys(r)
            && Keys(r) == Keys(d) + (if present then [k] else [])
  {
    if !present {
      assert d + [] == d;
      assert Keys(d) + [] == Keys(d);
    }
  }

  /** Two optional assignments of distinct new keys append their pairs in order. */
  lemma InsertOptionalTwice<K, V>(d: seq<(K, V)>, k1: K, v1: V, p1: bool, k2: K, v2: V, p2: bool)
    requires UniqueKeys(d) && k1 !in Keys(d) && k2 !in Keys(d) && k1 != k2
    ensures var r := InsertIf(InsertIf(d, k1, v1, p1), k2, v2, p2);
            && r == d + (if p1 then [(k1, v1)] else []) + (if p2 then [(k2, v2)] else [])
            && UniqueKeys(r)
  {
    InsertOptional(d, k1, v1, p1);
    var mid := InsertIf(d, k1, v1, p1);
    assert k2 !in Keys(mid) by {
      assert k2 !in (if p1 then [k1] else []);
    }
    InsertOptional(mid, k2, v2, p2);
  }

  /** The last value paired with `k`, reading the pairs from the end. */
  function LastValue<K(==), V>(ps: seq<(K, V)>, k: K): (r: Option<V>)
  {
    if ps == [] then None
    else if ps[|ps| - 1].0 == k then Some(ps[|ps| - 1].1)
    else LastValue(ps[..|ps| - 1], k)
  }

  /** The first index at or after `i` holding `x`. */
  function IndexFrom<T(==)>(s: seq<T>, x: T, i: nat): (r: nat)
    requires i <= |s| && x in s[i..]
    ensures i <= r < |s| && s[r] == x
    ensures forall j :: i <= j < r ==> s[j] != x
    decreases |s| - i
  {
    if s[i] == x then i
    else
      assert s[i..] == [s[i]] + s[i + 1..];
      IndexFrom(s, x, i + 1)
  }

  /** Python's `s.index(x)`: the position of the first occurrence. */
  function IndexOf<T(==)>(s: seq<T>, x: T): (r: nat)
    requires x in s
    ensures r < |s| && s[r] == x && x !in s[..r]
  {
    assert s[0..] == s;
    IndexFrom(s, x, 0)
  }

  /** The first occurrence of `x` in a prefix is its first occurrence in the whole. */
  lemma IndexOfPrefix<T>(s: seq<T>, n: nat, x: T)
    requires n <= |s| && x in s[..n]
    ensures x in s && IndexOf(s, x) == IndexOf(s[..n], x)
  {
    var b := IndexOf(s[..n], x);
    assert s[..n][b] == s[b];
    assert s[..n][..b] == s[..b];
    FirstIndexUnique(s, x, IndexOf(s, x), b);
  }

  /** Only one index holds the first occurrence. */
  lemma FirstIndexUnique<T>(s: seq<T>, x: T, a: nat, b: nat)
    requires a < |s| && s[a] == x && x !in s[..a]
    requires b < |s| && s[b] == x && x !in s[..b]
    ensures a == b
  {
  }

  /** The elements of `s` without repetitions, each where it first appears. */
  function Distinct<T(==)>(s: seq<T>): (r: seq<T>)
    ensures forall x :: x in r ==> x in s
    ensures forall x :: x in s ==> x in r
    ensures forall i, j :: 0 <= i < j < |r| ==> r[i] != r[j]
    ensures forall i, j :: 0 <= i < j < |r| ==> IndexOf(s, r[i]) < IndexOf(s, r[j])
    decreases |s|
  {
    if s == [] then []
    else
      var n := |s| - 1;
      var t := Distinct(s[..n]);
      assert s == s[..n] + [s[n]];
      forall x | x in t ensures IndexOf(s, x) == IndexOf(s[..n], x) && IndexOf(s, x) < n {
        IndexOfPrefix(s, n, x);
      }
      if s[n] in t then t
      else
        assert IndexOf(s, s[n]) == n;
        t + [s[n]]
  }

  /** `dict(pairs)` or a dict display: the pairs inserted from left to right. */
  function FromPairs<K(==), V>(ps: seq<(K, V)>): (d: seq<(K, V)>)
    decreases |ps|
  {
    if ps == [] then []
    else Insert(FromPairs(ps[..|ps| - 1]), ps[|ps| - 1].0, ps[|ps| - 1].1)
  }

  /** The keys of `dict(pairs)` are the distinct keys of the pairs, in order of first appearance. */
  lemma {:induction false} FromPairsKeys<K, V>(ps: seq<(K, V)>)
    ensures Keys(FromPairs(ps)) == Distinct(Keys(ps))
    decreases |ps|
  {
    if ps != [] {
      var n := |ps| - 1;
      FromPairsKeys(ps[..n]);
      KeysPrefix(ps, n);
      assert Keys(ps)[..n] == Keys(ps)[..|Keys(ps)| - 1];
    }
  }

  /** `dict(pairs)` has no repeated key. */
  lemma {:induction false} FromPairsUnique<K, V>(ps: seq<(K, V)>)
    ensures UniqueKeys(FromPairs(ps))
    decreases |ps|
  {
    if ps != [] {
      FromPairsUnique(ps[..|ps| - 1]);
    }
  }

  /** In `dict(pairs)`, the last pair with a given key wins. */
  lemma {:induction false} FromPairsLookup<K, V>(ps: seq<(K, V)>, k: K)
    ensures Lookup(FromPairs(ps), k) == LastValue(ps, k)
    decreases |ps|
  {
    if ps != [] {
      FromPairsLookup(ps[..|ps| - 1], k);
    }
  }

  /** Building from one more pair inserts that pair. */
  lemma FromPairsSnoc<K, V>(ps: seq<(K, V)>, i: nat)
    requires i < |ps|
    ensures FromPairs(ps[..i + 1]) == Insert(FromPairs(ps[..i]), ps[i].0, ps[i].1)
  {
    assert ps[..i + 1][..i] == ps[..i];
  }

  /** What `dict(pairs)` is: distinct keys in order of first appearance, the last pair winning. */
  lemma FromPairsDict<K, V>(ps: seq<(K, V)>)
    ensures UniqueKeys(FromPairs(ps)) && Keys(FromPairs(ps)) == Distinct(Keys(ps))
    ensures forall k :: Lookup(FromPairs(ps), k) == LastValue(ps, k)
  {
    FromPairsUnique(ps);
    FromPairsKeys(ps);
    forall k ensures Lookup(FromPairs(ps), k) == LastValue(ps, k) {
      FromPairsLookup(ps, k);
    }
  }

  /** Pairs with distinct keys come out of `dict(pairs)` unchanged and in order. */
  lemma {:induction false} FromPairsOfUnique<K, V>(ps: seq<(K, V)>)
    requires UniqueKeys(ps)
    ensures FromPairs(ps) == ps
    decreases |ps|
  {
    if ps != [] {
      var n := |ps| - 1;
      var init := ps[..n];
      assert UniqueKeys(init);
      FromPairsOfUnique(init);
      LastKeyFresh(ps);
      SplitLast(ps);
    }
  }

  /** A sequence is its front followed by its last element. */
  lemma SplitLast<T>(s: seq<T>)
    requires |s| > 0
    ensures s == s[..|s| - 1] + [s[|s| - 1]]
  {
  }

  /** In a dict, the last key does not occur among the earlier ones. */
  lemma LastKeyFresh<K, V>(d: seq<(K, V)>)
    requires UniqueKeys(d) && |d| > 0
    ensures d[|d| - 1].0 !in Keys(d[..|d| - 1])
  {
    var n := |d| - 1;
    forall i | 0 <= i < n ensures Keys(d[..n])[i] != d[n].0 {
      assert Keys(d[..n])[i] == d[i].0;
    }
  }

  /** The first element of `s` comes first among its distinct elements. */
  lemma DistinctHead<T>(s: seq<T>)
    requires |s| > 0
    ensures |Distinct(s)| > 0 && Distinct(s)[0] == s[0]
  {
    var r := Distinct(s);
    assert s[0] in r;
    var j :| 0 <= j < |r| && r[j] == s[0];
    assert IndexOf(s, s[0]) == 0 by {
      assert s[..0] == [];
    }
  }

  /** With distinct keys, the last pair for a key is its only pair. */
  lemma LastValueUnique<K, V>(ps: seq<(K, V)>, k: K)
    requires UniqueKeys(ps)
    ensures LastValue(ps, k) == Lookup(ps, k)
  {
    FromPairsOfUnique(ps);
    FromPairsLookup(ps, k);
  }

  /** The last pair for `k` in `a + b` is the last one in `b` if `b` has one. */
  lemma {:induction false} LastValueSplit<K, V>(a: seq<(K, V)>, b: seq<(K, V)>, k: K)
    ensures LastValue(a + b, k) == if LastValue(b, k).Some? then LastValue(b, k) else LastValue(a, k)
    decreases |b|
  {
    if b != [] {
      var n := |b| - 1;
      assert (a + b)[..|a + b| - 1] == a + b[..n];
      LastValueSplit(a, b[..n], k);
    } else {
      assert a + b == a;
    }
  }
}
