/**
  `create_county_search_index`: the county search file `counties.json`.

  Every county of every area, areas in dict order and counties in list
  order, is stored under the key `"county, state"` with the area's code,
  name and state; a later county with the same key overwrites an earlier
  one.
 */
module CountyIndex {
  import opened Dicts
  import opened Geography

  /** The value `{area, areaName, state, county}` stored per key. */
  datatype CountyEntry = CountyEntry(area: string, areaName: string, state: string, county: string)

  /** The searchable key `"county, state"`. */
  function SearchKey(county: string, state: string): string {
    county + ", " + state
  }

  /** The assignment made for the `k`-th county of an area. */
  function CountyPair(area: string, info: AreaInfo, k: nat): (string, CountyEntry)
    requires k < |info.counties|
  {
    (SearchKey(info.counties[k], info.state), CountyEntry(area, info.areaName, info.state, info.counties[k]))
  }

  /** The assignments made for one area, in county order. */
  function AreaPairs(area: string, info: AreaInfo): seq<(string, CountyEntry)> {
    seq(|info.counties|, k requires 0 <= k < |info.counties| => CountyPair(area, info, k))
  }

  /** All assignments the loops make, area after area. */
  function SearchPairs(geography: seq<(string, AreaInfo)>): seq<(string, CountyEntry)> {
    if geography == [] then []
    else
      var (area, info) := geography[|geography| - 1];
      SearchPairs(geography[..|geography| - 1]) + AreaPairs(area, info)
  }

  lemma IndexCountyStep(index: Dict<string, CountyEntry>, before: seq<(string, CountyEntry)>, area: string, info: AreaInfo, k: nat)
    requires k < |info.counties|
    requires Indexes(index, before + AreaPairs(area, info)[..k])
    ensures Indexes(Put(index, CountyPair(area, info, k).0, CountyPair(area, info, k).1), before + AreaPairs(area, info)[..k + 1])
  {
    var p := CountyPair(area, info, k);
    assert AreaPairs(area, info)[..k + 1] == AreaPairs(area, info)[..k] + [p];
    assert before + AreaPairs(area, info)[..k + 1] == before + AreaPairs(area, info)[..k] + [p];
    PutIndexes(index, before + AreaPairs(area, info)[..k], p.0, p.1, before + AreaPairs(area, info)[..k + 1]);
  }

  /** The inner loop: the counties of one area stored. */
  method IndexArea(index: Dict<string, CountyEntry>, ghost before: seq<(string, CountyEntry)>, area: string, info: AreaInfo)
    returns (index': Dict<string, CountyEntry>)
    requires Indexes(index, before)
    ensures Indexes(index', before + AreaPairs(area, info))
  {
    index' := index;
    var k := 0;
    assert before + AreaPairs(area, info)[..0] == before;
    while k < |info.counties|
      invariant k <= |info.counties|
      invariant Indexes(index', before + AreaPairs(area, info)[..k])
    {
      var county := info.counties[k];
      IndexCountyStep(index', before, area, info, k);
      index' := Put(index', SearchKey(county, info.state), CountyEntry(area, info.areaName, info.state, county));
      k := k + 1;
    }
    assert AreaPairs(area, info)[..k] == AreaPairs(area, info);
  }

  /**
    `create_county_search_index`: the index is what assigning every
    county's entry in turn produces; its keys in order of first appearance,
    each holding the entry of the last county with that key.
   */
  method CreateCountySearchIndex(geography: Dict<string, AreaInfo>) returns (index: Dict<string, CountyEntry>)
    ensures Indexes(index, SearchPairs(geography))
  {
    index := [];
    var i := 0;
    while i < |geography|
      invariant i <= |geography|
      invariant Indexes(index, SearchPairs(geography[..i]))
    {
      var (area, info) := geography[i];
      index := IndexArea(index, SearchPairs(geography[..i]), area, info);
      assert geography[..i + 1][..i] == geography[..i];
      i := i + 1;
    }
    assert geography[..i] == geography;
  }

  /** Every assignment comes from some county of some area of the dict. */
  lemma {:induction false} SearchPairOrigin(geography: seq<(string, AreaInfo)>, key: string, e: CountyEntry) returns (i: nat)
    requires (key, e) in SearchPairs(geography)
    ensures i < |geography| && geography[i].0 == e.area
    ensures var info := geography[i].1;
              && e.areaName == info.areaName && e.state == info.state && e.county in info.counties
              && key == SearchKey(e.county, e.state)
  {
    var n := |geography| - 1;
    var (area, info) := geography[n];
    var init := geography[..n];
    if (key, e) in AreaPairs(area, info) {
      var k :| 0 <= k < |AreaPairs(area, info)| && AreaPairs(area, info)[k] == (key, e);
      i := n;
    } else {
      i := SearchPairOrigin(init, key, e);
      assert geography[i] == init[i];
    }
  }

  /**
    The fields of an entry match its key: the entry under `"county, state"`
    names that county and state, and an area of the dict whose name and
    state they are and whose counties include that county.
   */
  lemma IndexEntryMatchesKey(geography: Dict<string, AreaInfo>, index: Dict<string, CountyEntry>, key: string)
    requires Indexes(index, SearchPairs(geography))
    requires Lookup(index, key).Some?
    ensures var e := Lookup(index, key).value;
              && key == SearchKey(e.county, e.state)
              && Lookup(geography, e.area).Some?
              && Lookup(geography, e.area).value.areaName == e.areaName
              && Lookup(geography, e.area).value.state == e.state
              && e.county in Lookup(geography, e.area).value.counties
  {
    var e := Lookup(index, key).value;
    LastValueIsAssigned(SearchPairs(geography), key);
    var i := SearchPairOrigin(geography, key, e);
  }

  /** The assignments of an area of the dict are among all assignments. */
  lemma {:induction false} AreaPairsIncluded(geography: seq<(string, AreaInfo)>, i: nat, k: nat)
    requires i < |geography| && k < |geography[i].1.counties|
    ensures CountyPair(geography[i].0, geography[i].1, k) in SearchPairs(geography)
  {
    var n := |geography| - 1;
    var init := geography[..n];
    if i < n {
      assert geography[i] == init[i];
      AreaPairsIncluded(init, i, k);
    } else {
      assert AreaPairs(geography[n].0, geography[n].1)[k] == CountyPair(geography[i].0, geography[i].1, k);
    }
  }

  /** Every county of every area can be searched for. */
  lemma EveryCountySearchable(geography: Dict<string, AreaInfo>, index: Dict<string, CountyEntry>, area: string, county: string)
    requires Indexes(index, SearchPairs(geography))
    requires Lookup(geography, area).Some? && county in Lookup(geography, area).value.counties
    ensures SearchKey(county, Lookup(geography, area).value.state) in Firsts(index)
  {
    var info := Lookup(geography, area).value;
    var i := IndexOfKey(geography, area);
    var k :| 0 <= k < |info.counties| && info.counties[k] == county;
    AreaPairsIncluded(geography, i, k);
    var p := CountyPair(area, info, k);
    var m :| 0 <= m < |SearchPairs(geography)| && SearchPairs(geography)[m] == p;
    assert Firsts(SearchPairs(geography))[m] == p.0;
  }
}
