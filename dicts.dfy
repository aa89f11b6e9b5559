/**
  Python dicts as insertion-ordered association lists.

  A Python `dict` remembers the order in which keys were first inserted;
  assigning to an existing key replaces its value without moving it. The
  preprocessing script depends on that order (county order, sort tie-breaks,
  which write survives), so a dict is modelled as a sequence of key/value
  pairs whose keys are distinct, and `Lookup` is its map view.
 */
module Dicts {

  datatype Option<T> = None | Some(value: T) {
    /** `dict.get(k, default)` once the lookup is done. */
    function GetOr(default: T): T {
      if Some? then value else default
    }
  }

  /** No element occurs twice. */
  predicate Distinct<T(==)>(s: seq<T>) {
    forall i, j :: 0 <= i < j < |s| ==> s[i] != s[j]
  }

  /** No key occurs twice. */
  predicate DistinctKeys<K(==), V>(d: seq<(K, V)>) {
    forall i, j :: 0 <= i < j < |d| ==> d[i].0 != d[j].0
  }

  /** A dict: its entries in insertion order, each key at most once. */
  type Dict<K(==), V> = d: seq<(K, V)> | DistinctKeys(d) witness []

  /** The keys of a sequence of pairs, in order (`d.keys()` for a dict). */
  function Firsts<K, V>(kvs: seq<(K, V)>): seq<K> {
    seq(|kvs|, i requires 0 <= i < |kvs| => kvs[i].0)
  }

  lemma FirstsAppend<K, V>(kvs: seq<(K, V)>, p: (K, V))
    ensures Firsts(kvs + [p]) == Firsts(kvs) + [p.0]
  {
  }

  /** `d.get(k)`: the value stored under `k`, or None when `k` is absent. */
  function Lookup<K(==), V>(d: Dict<K, V>, k: K): (r: Option<V>)
    ensures r.None? <==> k !in Firsts(d)
    ensures forall i :: 0 <= i < |d| && d[i].0 == k ==> r == Some(d[i].1)
  {
    if |d| == 0 then None
    else if d[0].0 == k then
      assert Firsts(d)[0] == k;
      Some(d[0].1)
    else
      var r := Lookup(d[1..], k);
      assert forall i :: 1 <= i < |d| ==> d[1..][i - 1] == d[i];
      assert Firsts(d) == [d[0].0] + Firsts(d[1..]);
      assert k in Firsts(d) <==> k in Firsts(d[1..]);
      r
  }

  /** The position of a key that is present. */
  function IndexOfKey<K(==), V>(d: Dict<K, V>, k: K): (i: nat)
    requires k in Firsts(d)
    ensures i < |d| && d[i].0 == k
  {
    if d[0].0 == k then 0
    else
      assert Firsts(d)[1..] == Firsts(d[1..]);
      1 + IndexOfKey(d[1..], k)
  }

  /**
    `d[k] = v`: a present key keeps its position and gets the new value,
    an absent key is appended at the end.
   */
  function Put<K(==,!new), V>(d: Dict<K, V>, k: K, v: V): (r: Dict<K, V>)
    ensures Firsts(r) == if k in Firsts(d) then Firsts(d) else Firsts(d) + [k]
    ensures forall k' :: Lookup(r, k') == if k' == k then Some(v) else Lookup(d, k')
  {
    if k in Firsts(d) then
      var i := IndexOfKey(d, k);
      var r := d[i := (k, v)];
      assert Firsts(r) == Firsts(d);
      r
    else
      var r := d + [(k, v)];
      assert forall i :: 0 <= i < |d| ==> Firsts(d)[i] == d[i].0;
      assert Firsts(r) == Firsts(d) + [k];
      r
  }

  /** The dict without its last entry. */
  function DropLast<K, V>(d: Dict<K, V>): (r: Dict<K, V>)
    requires d != []
    ensures d == r + [d[|d| - 1]]
    ensures d[|d| - 1].0 !in Firsts(r)
  {
    var r := d[..|d| - 1];
    assert forall i :: 0 <= i < |r| ==> Firsts(r)[i] == d[i].0;
    r
  }

  /** Assigning to an absent key appends it. */
  lemma PutAbsent<K(!new), V>(d: Dict<K, V>, k: K, v: V)
    requires k !in Firsts(d)
    ensures Put(d, k, v) == d + [(k, v)]
  {
  }

  /** Looking up a key in a dict, its last entry apart. */
  lemma LookupLast<K(!new), V>(d: Dict<K, V>, k: K)
    requires d != []
    ensures Lookup(d, k) == if k == d[|d| - 1].0 then Some(d[|d| - 1].1) else Lookup(DropLast(d), k)
  {
    PutAbsent(DropLast(d), d[|d| - 1].0, d[|d| - 1].1);
  }

  /**
    The keys of `s` with repeats removed, each kept at its first occurrence:
    the key order of a dict that `s`'s keys are inserted into one by one.
   */
  function Dedup<T(==,!new)>(s: seq<T>): (r: seq<T>)
    ensures Distinct(r)
    ensures forall x :: x in r <==> x in s
  {
    if s == [] then []
    else
      var p := Dedup(s[..|s| - 1]);
      assert s == s[..|s| - 1] + [s[|s| - 1]];
      if s[|s| - 1] in p then p else p + [s[|s| - 1]]
  }

  lemma DedupAppend<T(!new)>(s: seq<T>, x: T)
    ensures Dedup(s + [x]) == if x in Dedup(s) then Dedup(s) else Dedup(s) + [x]
  {
    assert (s + [x])[..|s + [x]| - 1] == s;
  }

  /** `a` occurs in `s` before `b` does. */
  ghost predicate Precedes<T>(s: seq<T>, a: T, b: T) {
    exists i, j :: 0 <= i < j < |s| && s[i] == a && s[j] == b
  }

  /** An order in the tail of `s` holds in `s`. */
  lemma PrecedesInTail<T>(s: seq<T>, a: T, b: T)
    requires s != [] && Precedes(s[1..], a, b)
    ensures Precedes(s, a, b)
  {
    var i, j :| 0 <= i < j < |s[1..]| && s[1..][i] == a && s[1..][j] == b;
    assert s[i + 1] == a && s[j + 1] == b;
  }

  /** The head of `s` comes before anything in its tail. */
  lemma PrecedesFromHead<T>(s: seq<T>, b: T)
    requires s != [] && b in s[1..]
    ensures Precedes(s, s[0], b)
  {
    var n :| 0 <= n < |s[1..]| && s[1..][n] == b;
    assert s[n + 1] == b;
  }

  /**
    Dedup keeps first-appearance order: of two entries of the result, every
    occurrence in `s` of the later one comes after an occurrence of the
    earlier one.
   */
  lemma {:induction false} DedupFirstSeenOrder<T(!new)>(s: seq<T>, i: nat, j: nat, q: nat)
    requires i < j < |Dedup(s)| && q < |s| && s[q] == Dedup(s)[j]
    ensures Dedup(s)[i] in s[..q]
  {
    var init := s[..|s| - 1];
    var last := s[|s| - 1];
    assert s == init + [last];
    var p := Dedup(init);
    if last in p {
      if q < |s| - 1 {
        DedupFirstSeenOrder(init, i, j, q);
        assert init[..q] == s[..q];
      } else {
        var j' :| 0 <= j' < |p| && p[j'] == last;
        assert j' == j;
        var q' :| 0 <= q' < |init| && init[q'] == last;
        DedupFirstSeenOrder(init, i, j, q');
        assert Dedup(s)[i] in init[..q'];
        assert init[..q'] <= s[..q];
      }
    } else {
      if j == |p| {
        assert Dedup(s)[i] == p[i];
        assert p[i] in init;
        assert q == |s| - 1;
        assert s[..q] == init;
      } else {
        assert Dedup(s)[j] == p[j] && p[j] in init;
        assert q < |s| - 1;
        DedupFirstSeenOrder(init, i, j, q);
        assert init[..q] == s[..q];
      }
    }
  }

  /** The last entry of `kvs` with key `k` has no later entry with that key. */
  ghost predicate IsLastWith<K, V>(kvs: seq<(K, V)>, j: int) {
    0 <= j < |kvs| && forall j' :: j < j' < |kvs| ==> kvs[j'].0 != kvs[j].0
  }

  /**
    The value the last pair with key `k` carries: what a dict holds after
    the pairs of `kvs` are assigned in order (last writer wins).
   */
  function LastValue<K(==), V>(kvs: seq<(K, V)>, k: K): (r: Option<V>)
    ensures r.None? <==> k !in Firsts(kvs)
    ensures forall j :: IsLastWith(kvs, j) && kvs[j].0 == k ==> r == Some(kvs[j].1)
  {
    if kvs == [] then None
    else
      var init := kvs[..|kvs| - 1];
      assert kvs == init + [kvs[|kvs| - 1]];
      FirstsAppend(init, kvs[|kvs| - 1]);
      if kvs[|kvs| - 1].0 == k then Some(kvs[|kvs| - 1].1)
      else
        assert forall j :: IsLastWith(kvs, j) && kvs[j].0 == k ==> IsLastWith(init, j);
        LastValue(init, k)
  }

  lemma LastValueAppend<K, V>(kvs: seq<(K, V)>, p: (K, V), k: K)
    ensures LastValue(kvs + [p], k) == if p.0 == k then Some(p.1) else LastValue(kvs, k)
  {
    assert (kvs + [p])[..|kvs + [p]| - 1] == kvs;
  }

  /** The value that wins was assigned under that key. */
  lemma {:induction false} LastValueIsAssigned<K, V>(kvs: seq<(K, V)>, k: K)
    requires LastValue(kvs, k).Some?
    ensures (k, LastValue(kvs, k).value) in kvs
  {
    var n := |kvs| - 1;
    var init := kvs[..n];
    assert kvs == init + [kvs[n]];
    LastValueAppend(init, kvs[n], k);
    if kvs[n].0 != k {
      LastValueIsAssigned(init, k);
      var m :| 0 <= m < |init| && init[m] == (k, LastValue(init, k).value);
      assert kvs[m] == init[m];
    } else {
      assert kvs[n] == (k, LastValue(kvs, k).value);
    }
  }

  /**
    `d` is the dict that assigning `kvs` in order produces: its keys in
    first-insertion order and, under each key, the last value assigned.
   */
  ghost predicate Indexes<K(!new), V>(d: Dict<K, V>, kvs: seq<(K, V)>) {
    && Firsts(d) == Dedup(Firsts(kvs))
    && forall k :: Lookup(d, k) == LastValue(kvs, k)
  }

  /** One more assignment keeps a dict in step with its history. */
  lemma {:induction false} PutIndexes<K(!new), V>(d: Dict<K, V>, kvs: seq<(K, V)>, k: K, v: V, kvs': seq<(K, V)>)
    requires Indexes(d, kvs) && kvs' == kvs + [(k, v)]
    ensures Indexes(Put(d, k, v), kvs')
  {
    FirstsAppend(kvs, (k, v));
    DedupAppend(Firsts(kvs), k);
    forall k' ensures Lookup(Put(d, k, v), k') == LastValue(kvs + [(k, v)], k') {
      LastValueAppend(kvs, (k, v), k');
    }
  }

  /** The keys of a dict are distinct. */
  lemma FirstsDistinct<K, V>(d: Dict<K, V>)
    ensures Distinct(Firsts(d))
  {
  }

  /** Number of occurrences of `x` in `s`. */
  function Count<T(==)>(s: seq<T>, x: T): nat {
    if s == [] then 0
    else Count(s[..|s| - 1], x) + (if s[|s| - 1] == x then 1 else 0)
  }

  lemma CountAppend<T>(s: seq<T>, y: T, x: T)
    ensures Count(s + [y], x) == Count(s, x) + (if y == x then 1 else 0)
  {
    assert (s + [y])[..|s|] == s;
  }

  lemma {:induction false} CountPositive<T>(s: seq<T>, x: T)
    ensures Count(s, x) > 0 <==> x in s
  {
    if s != [] {
      var init := s[..|s| - 1];
      CountPositive(init, x);
      assert s == init + [s[|s| - 1]];
    }
  }

  lemma {:induction false} CountConcat<T>(a: seq<T>, b: seq<T>, x: T)
    ensures Count(a + b, x) == Count(a, x) + Count(b, x)
  {
    if b != [] {
      var init := b[..|b| - 1];
      CountConcat(a, init, x);
      assert a + b == (a + init) + [b[|b| - 1]];
      CountAppend(a + init, b[|b| - 1], x);
      CountAppend(init, b[|b| - 1], x);
      assert b == init + [b[|b| - 1]];
    } else {
      assert a + b == a;
    }
  }

  /** In a sequence without repeats, an element occurs once or not at all. */
  lemma {:induction false} CountDistinct<T>(s: seq<T>, x: T)
    requires Distinct(s)
    ensures Count(s, x) == if x in s then 1 else 0
  {
    if s != [] {
      var init := s[..|s| - 1];
      assert s == init + [s[|s| - 1]];
      assert Distinct(init);
      CountDistinct(init, x);
      CountPositive(init, x);
    }
  }
}
