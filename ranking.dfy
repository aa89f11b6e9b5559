/**
  `get_common_occupations`: the SOC codes found in the most areas.

  Every area of the wage table contributes one to the count of each SOC
  code it holds; the (code, count) pairs are then sorted by decreasing
  count with Python's stable `sorted`, so codes with equal counts stay in
  the order the counting dict first met them, and the first 100 codes are
  kept.
 */
module Ranking {
  import opened Dicts
  import opened Wages

  /** How many codes `get_common_occupations` keeps. */
  const TopN: nat := 100

  function Min(a: nat, b: nat): nat {
    if a <= b then a else b
  }

  /** The SOC codes of every area, area after area, each in its area's order. */
  function AllSocs(wages: seq<(string, Dict<string, Levels>)>): seq<string> {
    if wages == [] then []
    else AllSocs(wages[..|wages| - 1]) + Firsts(wages[|wages| - 1].1)
  }

  /** The number of areas whose table holds `soc`. */
  function AreasWith(wages: seq<(string, Dict<string, Levels>)>, soc: string): nat {
    if wages == [] then 0
    else AreasWith(wages[..|wages| - 1], soc) + (if soc in Firsts(wages[|wages| - 1].1) then 1 else 0)
  }

  lemma AllSocsPrefix(wages: seq<(string, Dict<string, Levels>)>, i: nat)
    requires i < |wages|
    ensures AllSocs(wages[..i + 1]) == AllSocs(wages[..i]) + Firsts(wages[i].1)
  {
    assert wages[..i + 1][..i] == wages[..i];
  }

  /** A code occurs in the flattened codes once per area that holds it. */
  lemma {:induction false} CountIsAreas(wages: seq<(string, Dict<string, Levels>)>, soc: string)
    ensures Count(AllSocs(wages), soc) == AreasWith(wages, soc)
  {
    if wages != [] {
      var init := wages[..|wages| - 1];
      var last := wages[|wages| - 1].1;
      CountIsAreas(init, soc);
      CountConcat(AllSocs(init), Firsts(last), soc);
      FirstsDistinct(last);
      CountDistinct(Firsts(last), soc);
    }
  }

  /** A code is held by some area exactly when it occurs among the flattened codes. */
  lemma AreasWithPositive(wages: seq<(string, Dict<string, Levels>)>, soc: string)
    ensures AreasWith(wages, soc) > 0 <==> soc in AllSocs(wages)
  {
    CountIsAreas(wages, soc);
    CountPositive(AllSocs(wages), soc);
  }

  /** A code held by some area: one such area. */
  lemma {:induction false} AreaHolding(wages: seq<(string, Dict<string, Levels>)>, soc: string) returns (t: nat)
    requires AreasWith(wages, soc) > 0
    ensures t < |wages| && soc in Firsts(wages[t].1)
  {
    var init := wages[..|wages| - 1];
    if soc in Firsts(wages[|wages| - 1].1) {
      t := |wages| - 1;
    } else {
      t := AreaHolding(init, soc);
      assert wages[t] == init[t];
    }
  }

  /**
    `counts` is the `defaultdict(int)` after `counts[k] += 1` for each `k`
    of `keys` in turn: its keys in order of first occurrence, each with the
    number of its occurrences.
   */
  ghost predicate Tallies(counts: Dict<string, nat>, keys: seq<string>) {
    && Firsts(counts) == Dedup(keys)
    && forall s :: Lookup(counts, s) == if s in keys then Some(Count(keys, s)) else None
  }

  lemma TallyStep(counts: Dict<string, nat>, keys: seq<string>, soc: string)
    requires Tallies(counts, keys)
    ensures Tallies(Put(counts, soc, Lookup(counts, soc).GetOr(0) + 1), keys + [soc])
  {
    DedupAppend(keys, soc);
    forall s ensures Lookup(Put(counts, soc, Lookup(counts, soc).GetOr(0) + 1), s)
                     == if s in keys + [soc] then Some(Count(keys + [soc], s)) else None
    {
      TallyStepAt(counts, keys, soc, s);
    }
  }

  lemma TallyStepAt(counts: Dict<string, nat>, keys: seq<string>, soc: string, s: string)
    requires Lookup(counts, s) == if s in keys then Some(Count(keys, s)) else None
    requires Lookup(counts, soc) == if soc in keys then Some(Count(keys, soc)) else None
    ensures Lookup(Put(counts, soc, Lookup(counts, soc).GetOr(0) + 1), s)
            == if s in keys + [soc] then Some(Count(keys + [soc], s)) else None
  {
    if s == soc {
      TallyStepSame(counts, keys, soc);
      assert soc in keys + [soc];
    } else {
      TallyStepOther(counts, keys, soc, s);
      assert s in keys + [soc] <==> s in keys;
    }
  }

  /** The code being added gains one. */
  lemma TallyStepSame(counts: Dict<string, nat>, keys: seq<string>, soc: string)
    requires Lookup(counts, soc) == if soc in keys then Some(Count(keys, soc)) else None
    ensures Lookup(Put(counts, soc, Lookup(counts, soc).GetOr(0) + 1), soc) == Some(Count(keys + [soc], soc))
  {
    CountAppend(keys, soc, soc);
    CountPositive(keys, soc);
  }

  /** Every other code keeps its count. */
  lemma TallyStepOther(counts: Dict<string, nat>, keys: seq<string>, soc: string, s: string)
    requires s != soc
    requires Lookup(counts, s) == if s in keys then Some(Count(keys, s)) else None
    ensures Lookup(Put(counts, soc, Lookup(counts, soc).GetOr(0) + 1), s)
            == if s in keys then Some(Count(keys + [soc], s)) else None
  {
    CountAppend(keys, soc, s);
  }

  /** The inner loop: one area's codes added to the counts. */
  method TallyArea(counts: Dict<string, nat>, ghost keys: seq<string>, socData: Dict<string, Levels>)
    returns (counts': Dict<string, nat>)
    requires Tallies(counts, keys)
    ensures Tallies(counts', keys + Firsts(socData))
  {
    counts' := counts;
    var j := 0;
    ghost var done := keys;
    assert socData[..0] == [];
    while j < |socData|
      invariant j <= |socData|
      invariant done == keys + Firsts(socData[..j])
      invariant Tallies(counts', done)
    {
      var soc := socData[j].0;
      TallyStep(counts', done, soc);
      counts' := Put(counts', soc, Lookup(counts', soc).GetOr(0) + 1);
      done := done + [soc];
      FirstsPrefixStep(keys, socData, j);
      j := j + 1;
    }
    assert socData[..j] == socData;
  }

  lemma FirstsPrefixStep(keys: seq<string>, kvs: seq<(string, Levels)>, j: nat)
    requires j < |kvs|
    ensures keys + Firsts(kvs[..j + 1]) == keys + Firsts(kvs[..j]) + [kvs[j].0]
  {
    FirstsAppend(kvs[..j], kvs[j]);
    assert kvs[..j + 1] == kvs[..j] + [kvs[j]];
  }

  /**
    The counting loops of `get_common_occupations`: one entry per code held
    by some area, in order of first appearance, counting the areas that
    hold it.
   */
  method CountAreasPerSoc(wages: WageTable) returns (counts: Dict<string, nat>)
    ensures Firsts(counts) == Dedup(AllSocs(wages))
    ensures forall s :: Lookup(counts, s) == if AreasWith(wages, s) > 0 then Some(AreasWith(wages, s)) else None
  {
    counts := [];
    var i := 0;
    while i < |wages|
      invariant i <= |wages|
      invariant Tallies(counts, AllSocs(wages[..i]))
    {
      AllSocsPrefix(wages, i);
      counts := TallyArea(counts, AllSocs(wages[..i]), wages[i].1);
      i := i + 1;
    }
    assert wages[..i] == wages;
    forall s ensures Lookup(counts, s) == if AreasWith(wages, s) > 0 then Some(AreasWith(wages, s)) else None {
      AreasWithPositive(wages, s);
      CountIsAreas(wages, s);
    }
  }

  /** Counts do not increase along `s`. */
  predicate NonIncreasing(s: seq<(string, nat)>) {
    forall p, q :: 0 <= p < q < |s| ==> s[p].1 >= s[q].1
  }

  /** The pairs of `s` whose count is `c`, in their order in `s`. */
  function WithCount(s: seq<(string, nat)>, c: nat): (r: seq<(string, nat)>)
    ensures forall e :: e in r ==> e in s && e.1 == c
  {
    if s == [] then []
    else if s[0].1 == c then [s[0]] + WithCount(s[1..], c)
    else WithCount(s[1..], c)
  }

  /** A pair put in front of a run it does not undercut. */
  lemma ConsNonIncreasing(h: (string, nat), t: seq<(string, nat)>)
    requires NonIncreasing(t) && (t != [] ==> h.1 >= t[0].1)
    ensures NonIncreasing([h] + t)
  {
    var r := [h] + t;
    forall p, q | 0 <= p < q < |r| ensures r[p].1 >= r[q].1 {
      if p == 0 {
        assert r[q] == t[q - 1] && t[0].1 >= t[q - 1].1;
      } else {
        assert r[p] == t[p - 1] && r[q] == t[q - 1];
      }
    }
  }

  /** Insertion of `x` before the first pair of `s` whose count is at most its own. */
  function InsertByCount(x: (string, nat), s: seq<(string, nat)>): (r: seq<(string, nat)>)
    requires NonIncreasing(s)
    ensures NonIncreasing(r)
    ensures multiset(r) == multiset(s) + multiset{x}
    ensures r[0] == x || (s != [] && r[0] == s[0])
  {
    if s == [] then [x]
    else if s[0].1 <= x.1 then
      ConsNonIncreasing(x, s);
      [x] + s
    else
      var r' := InsertByCount(x, s[1..]);
      assert s == [s[0]] + s[1..];
      ConsNonIncreasing(s[0], r');
      [s[0]] + r'
  }

  /**
    `x` lands in front of every pair of `s` with the same count, and the
    pairs of any other count keep their order.
   */
  lemma {:induction false} InsertWithCount(x: (string, nat), s: seq<(string, nat)>, c: nat)
    requires NonIncreasing(s)
    ensures WithCount(InsertByCount(x, s), c) == if x.1 == c then [x] + WithCount(s, c) else WithCount(s, c)
  {
    if s != [] {
      if s[0].1 <= x.1 {
        assert ([x] + s)[1..] == s;
      } else {
        var r' := InsertByCount(x, s[1..]);
        InsertWithCount(x, s[1..], c);
        assert ([s[0]] + r')[1..] == r';
      }
    }
  }

  /**
    `sorted(items, key=lambda x: -x[1])`: by decreasing count, as a
    permutation of `items`. Python's sort is stable: `SortKeepsTies`.
   */
  function SortByCount(items: seq<(string, nat)>): (r: seq<(string, nat)>)
    ensures NonIncreasing(r)
    ensures multiset(r) == multiset(items)
  {
    if items == [] then []
    else
      assert items == [items[0]] + items[1..];
      InsertByCount(items[0], SortByCount(items[1..]))
  }

  /** Stability: the pairs of any one count come out in the order they went in. */
  lemma {:induction false} SortKeepsTies(items: seq<(string, nat)>, c: nat)
    ensures WithCount(SortByCount(items), c) == WithCount(items, c)
  {
    if items != [] {
      SortKeepsTies(items[1..], c);
      InsertWithCount(items[0], SortByCount(items[1..]), c);
    }
  }

  /** An insertion into distinct keys of a key not yet present keeps keys distinct. */
  lemma {:induction false} InsertKeepsKeysDistinct(x: (string, nat), s: seq<(string, nat)>)
    requires NonIncreasing(s) && DistinctKeys(s) && x.0 !in Firsts(s)
    ensures DistinctKeys(InsertByCount(x, s))
  {
    if s != [] {
      if s[0].1 <= x.1 {
        forall q | 0 <= q < |s| ensures s[q].0 != x.0 {
          assert Firsts(s)[q] == s[q].0;
        }
      } else {
        var r' := InsertByCount(x, s[1..]);
        assert Firsts(s[1..]) == Firsts(s)[1..];
        InsertKeepsKeysDistinct(x, s[1..]);
        forall q | 0 <= q < |r'| ensures r'[q].0 != s[0].0 {
          assert r'[q] in multiset(r');
          if r'[q] == x {
            assert Firsts(s)[0] == s[0].0;
          } else {
            var m :| 0 <= m < |s[1..]| && s[1..][m] == r'[q];
            assert s[m + 1] == r'[q];
          }
        }
      }
    }
  }

  /** Sorting pairs with distinct keys gives pairs with distinct keys. */
  lemma {:induction false} SortKeepsKeysDistinct(items: seq<(string, nat)>)
    requires DistinctKeys(items)
    ensures DistinctKeys(SortByCount(items))
  {
    if items != [] {
      var rest := SortByCount(items[1..]);
      SortKeepsKeysDistinct(items[1..]);
      forall q | 0 <= q < |rest| ensures rest[q].0 != items[0].0 {
        assert rest[q] in multiset(items[1..]);
        var m :| 0 <= m < |items[1..]| && items[1..][m] == rest[q];
        assert items[m + 1] == rest[q];
      }
      assert items[0].0 !in Firsts(rest);
      InsertKeepsKeysDistinct(items[0], rest);
    }
  }

  /** `soc_counts[soc]` for a code that is present, 0 otherwise. */
  function CountOf(counts: Dict<string, nat>, soc: string): nat {
    Lookup(counts, soc).GetOr(0)
  }

  /** `[soc for soc, count in sorted_socs[:100]]`. */
  function TopSocs(counts: Dict<string, nat>): seq<string> {
    var sorted := SortByCount(counts);
    Firsts(sorted[..Min(TopN, |sorted|)])
  }

  /** Every sorted pair is an entry of the counts. */
  lemma SortedEntry(counts: Dict<string, nat>, p: nat)
    requires p < |SortByCount(counts)|
    ensures SortByCount(counts)[p].0 in Firsts(counts)
    ensures CountOf(counts, SortByCount(counts)[p].0) == SortByCount(counts)[p].1
  {
    var e := SortByCount(counts)[p];
    assert e in multiset(counts);
    var m :| 0 <= m < |counts| && counts[m] == e;
    assert Firsts(counts)[m] == e.0;
  }

  /** Every entry of the counts is somewhere in the sorted pairs. */
  lemma SortedIndexOf(counts: Dict<string, nat>, soc: string) returns (m: nat)
    requires soc in Firsts(counts)
    ensures m < |SortByCount(counts)| && SortByCount(counts)[m] == (soc, CountOf(counts, soc))
  {
    var i := IndexOfKey(counts, soc);
    assert counts[i] in multiset(SortByCount(counts));
    m :| 0 <= m < |SortByCount(counts)| && SortByCount(counts)[m] == counts[i];
  }

  /**
    The shape of the list: as many codes as the counts hold, up to 100,
    none twice, each a key of the counts.
   */
  lemma TopSocsShape(counts: Dict<string, nat>)
    ensures |TopSocs(counts)| == Min(TopN, |counts|)
    ensures Distinct(TopSocs(counts))
    ensures forall p :: 0 <= p < |TopSocs(counts)| ==> TopSocs(counts)[p] in Firsts(counts)
  {
    var sorted := SortByCount(counts);
    assert |multiset(sorted)| == |multiset(counts[..])|;
    SortKeepsKeysDistinct(counts);
    forall p | 0 <= p < |TopSocs(counts)| ensures TopSocs(counts)[p] in Firsts(counts) {
      SortedEntry(counts, p);
    }
  }

  /** Codes earlier in the list are held by at least as many areas. */
  lemma TopSocsOrder(counts: Dict<string, nat>)
    ensures forall p, q :: 0 <= p < q < |TopSocs(counts)|
              ==> CountOf(counts, TopSocs(counts)[p]) >= CountOf(counts, TopSocs(counts)[q])
  {
    var sorted := SortByCount(counts);
    forall p, q | 0 <= p < q < |TopSocs(counts)|
      ensures CountOf(counts, TopSocs(counts)[p]) >= CountOf(counts, TopSocs(counts)[q])
    {
      SortedEntry(counts, p);
      SortedEntry(counts, q);
    }
  }

  /** No code left out has a higher count than a code kept. */
  lemma TopSocsCut(counts: Dict<string, nat>, soc: string, p: nat)
    requires soc in Firsts(counts) && soc !in TopSocs(counts) && p < |TopSocs(counts)|
    ensures CountOf(counts, TopSocs(counts)[p]) >= CountOf(counts, soc)
  {
    var sorted := SortByCount(counts);
    var m := SortedIndexOf(counts, soc);
    assert forall t :: 0 <= t < |TopSocs(counts)| ==> TopSocs(counts)[t] == sorted[t].0;
    assert m >= |TopSocs(counts)|;
    SortedEntry(counts, p);
  }

  /** A pair of count `c` is kept by `WithCount`. */
  lemma {:induction false} WithCountMember(s: seq<(string, nat)>, c: nat, q: nat)
    requires q < |s| && s[q].1 == c
    ensures s[q] in WithCount(s, c)
  {
    if q > 0 {
      WithCountMember(s[1..], c, q - 1);
      assert s[1..][q - 1] == s[q];
    }
  }

  /** Two pairs of count `c` keep their order in `WithCount`. */
  lemma {:induction false} WithCountOrder(s: seq<(string, nat)>, c: nat, p: nat, q: nat)
    requires p < q < |s| && s[p].1 == c && s[q].1 == c
    ensures Precedes(WithCount(s, c), s[p], s[q])
  {
    var w := WithCount(s, c);
    var w' := WithCount(s[1..], c);
    assert s[1..][q - 1] == s[q];
    if p == 0 {
      WithCountMember(s[1..], c, q - 1);
      var j :| 0 <= j < |w'| && w'[j] == s[q];
      assert w == [s[0]] + w';
      assert w[0] == s[0] && w[j + 1] == s[q];
    } else {
      assert s[1..][p - 1] == s[p];
      WithCountOrder(s[1..], c, p - 1, q - 1);
      var i, j :| 0 <= i < j < |w'| && w'[i] == s[p] && w'[j] == s[q];
      if s[0].1 == c {
        assert w == [s[0]] + w';
        assert w[i + 1] == s[p] && w[j + 1] == s[q];
      } else {
        assert w == w';
      }
    }
  }

  /** Two pairs in order in `WithCount(s, c)` are in that order in `s`. */
  lemma {:induction false} WithCountOrderBack(s: seq<(string, nat)>, c: nat, i: nat, j: nat)
    requires i < j < |WithCount(s, c)|
    ensures Precedes(s, WithCount(s, c)[i], WithCount(s, c)[j])
    decreases |s|, 2
  {
    assert s != [];
    if s[0].1 == c {
      WithCountOrderBackHead(s, c, i, j);
    } else {
      var w := WithCount(s, c);
      assert w == WithCount(s[1..], c);
      WithCountOrderBack(s[1..], c, i, j);
      PrecedesInTail(s, w[i], w[j]);
    }
  }

  /** `WithCountOrderBack` when the head of `s` has count `c`. */
  lemma {:induction false} WithCountOrderBackHead(s: seq<(string, nat)>, c: nat, i: nat, j: nat)
    requires s != [] && s[0].1 == c && i < j < |WithCount(s, c)|
    ensures Precedes(s, WithCount(s, c)[i], WithCount(s, c)[j])
    decreases |s|, 1
  {
    if i == 0 {
      WithCountFirst(s, c);
      WithCountCons(s, c, j);
      PrecedesFromHead(s, WithCount(s, c)[j]);
    } else {
      WithCountOrderBackLater(s, c, i, j);
    }
  }

  /** `WithCountOrderBackHead` past the head. */
  lemma {:induction false} WithCountOrderBackLater(s: seq<(string, nat)>, c: nat, i: nat, j: nat)
    requires s != [] && s[0].1 == c && 0 < i < j < |WithCount(s, c)|
    ensures Precedes(s, WithCount(s, c)[i], WithCount(s, c)[j])
    decreases |s|, 0
  {
    var a, b := WithCount(s, c)[i], WithCount(s, c)[j];
    WithCountCons(s, c, i);
    WithCountCons(s, c, j);
    WithCountOrderBack(s[1..], c, i - 1, j - 1);
    assert Precedes(s[1..], a, b);
    PrecedesInTail(s, a, b);
  }

  /** A pair of count `c` at the head of `s` opens `WithCount(s, c)`. */
  lemma WithCountFirst(s: seq<(string, nat)>, c: nat)
    requires s != [] && s[0].1 == c
    ensures |WithCount(s, c)| > 0 && WithCount(s, c)[0] == s[0]
  {
  }

  /** Past a head of count `c`, `WithCount(s, c)` continues with the tail's. */
  lemma WithCountCons(s: seq<(string, nat)>, c: nat, k: nat)
    requires s != [] && s[0].1 == c && 0 < k < |WithCount(s, c)|
    ensures WithCount(s, c)[k] == WithCount(s[1..], c)[k - 1]
    ensures WithCount(s, c)[k] in s[1..]
  {
    assert WithCount(s, c) == [s[0]] + WithCount(s[1..], c);
  }

  /** Sorted pairs with equal counts appear in the order of the counts' keys. */
  lemma SortedTiePrecedes(counts: Dict<string, nat>, p: nat, m: nat)
    requires p < m < |SortByCount(counts)| && SortByCount(counts)[p].1 == SortByCount(counts)[m].1
    ensures Precedes(Firsts(counts), SortByCount(counts)[p].0, SortByCount(counts)[m].0)
  {
    var sorted := SortByCount(counts);
    var c := sorted[p].1;
    WithCountOrder(sorted, c, p, m);
    var w := WithCount(sorted, c);
    var i, j :| 0 <= i < j < |w| && w[i] == sorted[p] && w[j] == sorted[m];
    SortKeepsTies(counts, c);
    WithCountOrderBack(counts, c, i, j);
    var a, b :| 0 <= a < b < |counts| && counts[a] == sorted[p] && counts[b] == sorted[m];
    assert Firsts(counts)[a] == sorted[p].0 && Firsts(counts)[b] == sorted[m].0;
  }

  /** Kept codes with equal counts are in the order the counts first met them. */
  lemma TopSocsTies(counts: Dict<string, nat>, p: nat, q: nat)
    requires p < q < |TopSocs(counts)|
    requires CountOf(counts, TopSocs(counts)[p]) == CountOf(counts, TopSocs(counts)[q])
    ensures Precedes(Firsts(counts), TopSocs(counts)[p], TopSocs(counts)[q])
  {
    SortedEntry(counts, p);
    SortedEntry(counts, q);
    SortedTiePrecedes(counts, p, q);
  }

  /** Of two codes with equal counts, one kept and one left out, the kept one came first. */
  lemma TopSocsCutTies(counts: Dict<string, nat>, soc: string, p: nat)
    requires soc in Firsts(counts) && soc !in TopSocs(counts) && p < |TopSocs(counts)|
    requires CountOf(counts, TopSocs(counts)[p]) == CountOf(counts, soc)
    ensures Precedes(Firsts(counts), TopSocs(counts)[p], soc)
  {
    var sorted := SortByCount(counts);
    var m := SortedIndexOf(counts, soc);
    assert forall t :: 0 <= t < |TopSocs(counts)| ==> TopSocs(counts)[t] == sorted[t].0;
    assert p < |TopSocs(counts)| <= m;
    SortedEntry(counts, p);
    SortedTiePrecedes(counts, p, m);
  }

  /**
    `common` is what `get_common_occupations` returns for `wages`: at most
    100 distinct codes, each held by some area, by decreasing number of
    areas; no code left out is held by more areas than a code kept, and
    among codes held by equally many areas the one met first in the wage
    table comes first, inside the list and at the cut.
   */
  ghost predicate IsCommonOccupations(wages: WageTable, common: seq<string>) {
    && |common| == Min(TopN, |Dedup(AllSocs(wages))|)
    && Distinct(common)
    && (forall p :: 0 <= p < |common| ==> AreasWith(wages, common[p]) > 0)
    && (forall p, q :: 0 <= p < q < |common| ==> AreasWith(wages, common[p]) >= AreasWith(wages, common[q]))
    && (forall soc, p :: soc !in common && 0 <= p < |common| ==> AreasWith(wages, common[p]) >= AreasWith(wages, soc))
    && (forall p, q :: 0 <= p < q < |common| && AreasWith(wages, common[p]) == AreasWith(wages, common[q])
          ==> Precedes(Dedup(AllSocs(wages)), common[p], common[q]))
    && (forall soc, p :: soc !in common && 0 <= p < |common| && AreasWith(wages, soc) > 0
          && AreasWith(wages, common[p]) == AreasWith(wages, soc)
          ==> Precedes(Dedup(AllSocs(wages)), common[p], soc))
  }

  /** `get_common_occupations`, through the counts of `CountAreasPerSoc`. */
  method GetCommonOccupations(wages: WageTable) returns (common: seq<string>)
    ensures IsCommonOccupations(wages, common)
  {
    var counts := CountAreasPerSoc(wages);
    common := TopSocs(counts);
    assert forall s :: CountOf(counts, s) == AreasWith(wages, s);
    TopSocsShape(counts);
    TopSocsOrder(counts);
    forall soc, p | soc !in common && 0 <= p < |common|
      ensures AreasWith(wages, common[p]) >= AreasWith(wages, soc)
    {
      if AreasWith(wages, soc) > 0 {
        TopSocsCut(counts, soc, p);
      }
    }
    forall p, q | 0 <= p < q < |common| && AreasWith(wages, common[p]) == AreasWith(wages, common[q])
      ensures Precedes(Dedup(AllSocs(wages)), common[p], common[q])
    {
      TopSocsTies(counts, p, q);
    }
    forall soc, p | soc !in common && 0 <= p < |common| && AreasWith(wages, soc) > 0
      && AreasWith(wages, common[p]) == AreasWith(wages, soc)
      ensures Precedes(Dedup(AllSocs(wages)), common[p], soc)
    {
      TopSocsCutTies(counts, soc, p);
    }
  }
}
