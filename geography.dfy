/**
  `load_geography`: grouping the rows of the geography table by wage area.

  Each row names a wage area (code, display name, state) and one county or
  town of it. The loop builds two dicts: the per-area record, whose name and
  state come from the area's first row and whose county list grows in row
  order, and an index from `"county|state"` to the areas listed under it.
 */
module Geography {
  import opened Dicts

  /** One row of the geography table, as the CSV reader yields it. */
  datatype GeoRow = GeoRow(area: string, areaName: string, state: string, county: string)

  /** The value `geography[area]`: `{areaName, state, counties}`. */
  datatype AreaInfo = AreaInfo(areaName: string, state: string, counties: seq<string>)

  /** The area codes of the rows, in row order. */
  function Areas(rows: seq<GeoRow>): seq<string> {
    seq(|rows|, j requires 0 <= j < |rows| => rows[j].area)
  }

  /** Row `j` is the first row of its area. */
  ghost predicate IsFirstOfArea(rows: seq<GeoRow>, j: int) {
    0 <= j < |rows| && forall k :: 0 <= k < j ==> rows[k].area != rows[j].area
  }

  /** The counties of the rows of area `a`, in row order, repeats included. */
  function CountiesOf(rows: seq<GeoRow>, a: string): seq<string> {
    if rows == [] then []
    else
      var last := rows[|rows| - 1];
      CountiesOf(rows[..|rows| - 1], a) + (if last.area == a then [last.county] else [])
  }

  /** The key of `county_to_area`. */
  function CountyKey(county: string, state: string): string {
    county + "|" + state
  }

  /** The county keys of the rows, in row order. */
  function CountyKeys(rows: seq<GeoRow>): seq<string> {
    seq(|rows|, j requires 0 <= j < |rows| => CountyKey(rows[j].county, rows[j].state))
  }

  /** The areas of the rows whose county key is `key`, in row order. */
  function AreasUnder(rows: seq<GeoRow>, key: string): seq<string> {
    if rows == [] then []
    else
      var last := rows[|rows| - 1];
      AreasUnder(rows[..|rows| - 1], key)
        + (if CountyKey(last.county, last.state) == key then [last.area] else [])
  }

  lemma AreasAppend(rows: seq<GeoRow>, i: nat)
    requires i < |rows|
    ensures Areas(rows[..i + 1]) == Areas(rows[..i]) + [rows[i].area]
    ensures CountyKeys(rows[..i + 1]) == CountyKeys(rows[..i]) + [CountyKey(rows[i].county, rows[i].state)]
    ensures rows[..i + 1][..i] == rows[..i]
  {
    assert rows[..i + 1][..i] == rows[..i];
  }

  lemma PrefixStep(rows: seq<GeoRow>, i: nat, a: string, key: string)
    requires i < |rows|
    ensures CountiesOf(rows[..i + 1], a) == CountiesOf(rows[..i], a) + (if rows[i].area == a then [rows[i].county] else [])
    ensures AreasUnder(rows[..i + 1], key)
              == AreasUnder(rows[..i], key) + (if CountyKey(rows[i].county, rows[i].state) == key then [rows[i].area] else [])
  {
    assert rows[..i + 1][..i] == rows[..i];
  }

  /** An area with no row has no county. */
  lemma {:induction false} CountiesOfAbsent(rows: seq<GeoRow>, a: string)
    requires a !in Areas(rows)
    ensures CountiesOf(rows, a) == []
  {
    if rows != [] {
      var init := rows[..|rows| - 1];
      assert Areas(rows) == Areas(init) + [rows[|rows| - 1].area];
      CountiesOfAbsent(init, a);
    }
  }

  /** What the loop has built from the first `n` rows, per area. */
  ghost predicate GroupedUpTo(rows: seq<GeoRow>, n: nat, geography: Dict<string, AreaInfo>) {
    && n <= |rows|
    && Firsts(geography) == Dedup(Areas(rows[..n]))
    && forall j | IsFirstOfArea(rows, j) && j < n ::
         Lookup(geography, rows[j].area)
           == Some(AreaInfo(rows[j].areaName, rows[j].state, CountiesOf(rows[..n], rows[j].area)))
  }

  /** What the loop has built from the first `n` rows, per county key. */
  ghost predicate IndexedUpTo(rows: seq<GeoRow>, n: nat, countyToArea: Dict<string, seq<string>>) {
    && n <= |rows|
    && Firsts(countyToArea) == Dedup(CountyKeys(rows[..n]))
    && forall key :: Lookup(countyToArea, key)
         == if key in CountyKeys(rows[..n]) then Some(Dedup(AreasUnder(rows[..n], key))) else None
  }

  /** The record of `row`'s area once `row` is added to it. */
  function WithRow(info: Option<AreaInfo>, row: GeoRow): AreaInfo {
    match info
    case None => AreaInfo(row.areaName, row.state, [row.county])
    case Some(i) => i.(counties := i.counties + [row.county])
  }

  lemma {:induction false} GroupStep(rows: seq<GeoRow>, i: nat, g: Dict<string, AreaInfo>, g': Dict<string, AreaInfo>)
    requires i < |rows| && GroupedUpTo(rows, i, g)
    requires Firsts(g') == if rows[i].area in Firsts(g) then Firsts(g) else Firsts(g) + [rows[i].area]
    requires forall a :: Lookup(g', a) == if a == rows[i].area then Some(WithRow(Lookup(g, a), rows[i])) else Lookup(g, a)
    ensures GroupedUpTo(rows, i + 1, g')
  {
    var row := rows[i];
    AreasAppend(rows, i);
    DedupAppend(Areas(rows[..i]), row.area);
    forall j | IsFirstOfArea(rows, j) && j < i + 1
      ensures Lookup(g', rows[j].area)
                == Some(AreaInfo(rows[j].areaName, rows[j].state, CountiesOf(rows[..i + 1], rows[j].area)))
    {
      var a := rows[j].area;
      PrefixStep(rows, i, a, "");
      if j == i {
        assert a !in Areas(rows[..i]) by {
          forall k | 0 <= k < i ensures Areas(rows[..i])[k] != a { }
        }
        assert Lookup(g, a) == None;
        CountiesOfAbsent(rows[..i], a);
        assert CountiesOf(rows[..i + 1], a) == [row.county];
        assert Lookup(g', a) == Some(WithRow(None, row));
      } else {
        assert Lookup(g, a) == Some(AreaInfo(rows[j].areaName, rows[j].state, CountiesOf(rows[..i], a)));
        if a == row.area {
          assert Lookup(g', a) == Some(WithRow(Lookup(g, a), row));
          assert CountiesOf(rows[..i + 1], a) == CountiesOf(rows[..i], a) + [row.county];
        } else {
          assert CountiesOf(rows[..i + 1], a) == CountiesOf(rows[..i], a);
          assert Lookup(g', a) == Lookup(g, a);
        }
      }
    }
  }

  lemma {:induction false} IndexStep(rows: seq<GeoRow>, i: nat, c: Dict<string, seq<string>>, c': Dict<string, seq<string>>)
    requires i < |rows| && IndexedUpTo(rows, i, c)
    requires var key := CountyKey(rows[i].county, rows[i].state);
      var areas := Lookup(c, key).GetOr([]);
      c' == if rows[i].area in areas then c else Put(c, key, areas + [rows[i].area])
    ensures IndexedUpTo(rows, i + 1, c')
  {
    var key := CountyKey(rows[i].county, rows[i].state);
    AreasAppend(rows, i);
    DedupAppend(CountyKeys(rows[..i]), key);
    forall key' ensures Lookup(c', key')
                  == if key' in CountyKeys(rows[..i + 1]) then Some(Dedup(AreasUnder(rows[..i + 1], key'))) else None
    {
      IndexStepAt(rows, i, c, c', key');
    }
  }

  lemma IndexStepAt(rows: seq<GeoRow>, i: nat, c: Dict<string, seq<string>>, c': Dict<string, seq<string>>, key': string)
    requires i < |rows| && IndexedUpTo(rows, i, c)
    requires var key := CountyKey(rows[i].county, rows[i].state);
      var areas := Lookup(c, key).GetOr([]);
      c' == if rows[i].area in areas then c else Put(c, key, areas + [rows[i].area])
    ensures Lookup(c', key')
              == if key' in CountyKeys(rows[..i + 1]) then Some(Dedup(AreasUnder(rows[..i + 1], key'))) else None
  {
    if key' == CountyKey(rows[i].county, rows[i].state) {
      AreasAppend(rows, i);
      SameKeyStep(rows, i, c, c');
    } else {
      OtherKeyStep(rows, i, c, c', key');
    }
  }

  lemma OtherKeyStep(rows: seq<GeoRow>, i: nat, c: Dict<string, seq<string>>, c': Dict<string, seq<string>>, key': string)
    requires i < |rows| && IndexedUpTo(rows, i, c)
    requires var key := CountyKey(rows[i].county, rows[i].state);
      var areas := Lookup(c, key).GetOr([]);
      c' == if rows[i].area in areas then c else Put(c, key, areas + [rows[i].area])
    requires key' != CountyKey(rows[i].county, rows[i].state)
    ensures Lookup(c', key')
              == if key' in CountyKeys(rows[..i + 1]) then Some(Dedup(AreasUnder(rows[..i + 1], key'))) else None
  {
    assert Lookup(c', key') == Lookup(c, key');
    OtherKeyPrefix(rows, i, key');
  }

  lemma OtherKeyPrefix(rows: seq<GeoRow>, i: nat, key': string)
    requires i < |rows| && key' != CountyKey(rows[i].county, rows[i].state)
    ensures (key' in CountyKeys(rows[..i + 1])) == (key' in CountyKeys(rows[..i]))
    ensures AreasUnder(rows[..i + 1], key') == AreasUnder(rows[..i], key')
  {
    AreasAppend(rows, i);
    PrefixStep(rows, i, "", key');
  }

  lemma SameKeyStep(rows: seq<GeoRow>, i: nat, c: Dict<string, seq<string>>, c': Dict<string, seq<string>>)
    requires i < |rows| && IndexedUpTo(rows, i, c)
    requires var key := CountyKey(rows[i].county, rows[i].state);
      var areas := Lookup(c, key).GetOr([]);
      c' == if rows[i].area in areas then c else Put(c, key, areas + [rows[i].area])
    ensures var key := CountyKey(rows[i].county, rows[i].state);
      Lookup(c', key) == Some(Dedup(AreasUnder(rows[..i + 1], key)))
  {
    var row := rows[i];
    var key := CountyKey(row.county, row.state);
    var under := AreasUnder(rows[..i], key);
    PrefixStep(rows, i, "", key);
    DedupAppend(under, row.area);
    if key in CountyKeys(rows[..i]) {
      assert Lookup(c, key) == Some(Dedup(under));
    } else {
      AreasUnderAbsent(rows[..i], key);
      assert Dedup(under + [row.area]) == [row.area];
    }
  }

  /**
    The first half of the loop body of `load_geography`: the area's record is
    created from its first row, then every row appends its county.
   */
  method GroupRow(rows: seq<GeoRow>, i: nat, geography: Dict<string, AreaInfo>)
    returns (g: Dict<string, AreaInfo>)
    requires i < |rows| && GroupedUpTo(rows, i, geography)
    ensures GroupedUpTo(rows, i + 1, g)
  {
    var row := rows[i];
    g := geography;
    if Lookup(g, row.area).None? {
      g := Put(g, row.area, AreaInfo(row.areaName, row.state, []));
    }
    var info := Lookup(g, row.area).value;
    g := Put(g, row.area, info.(counties := info.counties + [row.county]));
    assert Lookup(g, row.area) == Some(WithRow(Lookup(geography, row.area), row)) by {
      if Lookup(geography, row.area).None? {
        assert info.counties + [row.county] == [row.county];
      }
    }
    GroupStep(rows, i, geography, g);
  }

  /**
    The second half: the row's area is appended under its county key unless
    it is already listed there.
   */
  method IndexRow(rows: seq<GeoRow>, i: nat, countyToArea: Dict<string, seq<string>>)
    returns (c: Dict<string, seq<string>>)
    requires i < |rows| && IndexedUpTo(rows, i, countyToArea)
    ensures IndexedUpTo(rows, i + 1, c)
  {
    var row := rows[i];
    var key := CountyKey(row.county, row.state);
    var areas := Lookup(countyToArea, key).GetOr([]);
    c := countyToArea;
    if row.area !in areas {
      c := Put(c, key, areas + [row.area]);
    }
    IndexStep(rows, i, countyToArea, c);
  }

  /**
    The loop of `load_geography`. The per-area dict lists each area once, in
    order of its first row; the name and state of an area are those of its
    first row; its counties are those of all its rows, in row order. The
    county index lists each key once, in order of first appearance, and
    under it the areas of that key's rows without repeats, in order of first
    appearance.
   */
  method LoadGeography(rows: seq<GeoRow>)
    returns (geography: Dict<string, AreaInfo>, countyToArea: Dict<string, seq<string>>)
    ensures Firsts(geography) == Dedup(Areas(rows))
    ensures forall j | IsFirstOfArea(rows, j) ::
              Lookup(geography, rows[j].area)
                == Some(AreaInfo(rows[j].areaName, rows[j].state, CountiesOf(rows, rows[j].area)))
    ensures Firsts(countyToArea) == Dedup(CountyKeys(rows))
    ensures forall key :: Lookup(countyToArea, key)
              == if key in CountyKeys(rows) then Some(Dedup(AreasUnder(rows, key))) else None
  {
    geography := [];
    countyToArea := [];
    var i := 0;
    while i < |rows|
      invariant GroupedUpTo(rows, i, geography)
      invariant IndexedUpTo(rows, i, countyToArea)
    {
      geography := GroupRow(rows, i, geography);
      countyToArea := IndexRow(rows, i, countyToArea);
      i := i + 1;
    }
    assert rows[..|rows|] == rows;
  }

  /** A key no row produces has no area. */
  lemma {:induction false} AreasUnderAbsent(rows: seq<GeoRow>, key: string)
    requires key !in CountyKeys(rows)
    ensures AreasUnder(rows, key) == []
  {
    if rows != [] {
      var init := rows[..|rows| - 1];
      AreasAppend(rows, |rows| - 1);
      assert rows[..|rows|] == rows;
      AreasUnderAbsent(init, key);
    }
  }

  /** The first row of an area that has rows. */
  lemma FirstRowOf(rows: seq<GeoRow>, a: string) returns (j: nat)
    requires a in Areas(rows)
    ensures IsFirstOfArea(rows, j) && rows[j].area == a
  {
    var k :| 0 <= k < |rows| && Areas(rows)[k] == a;
    j := FirstRowFrom(rows, a, 0, k);
  }

  lemma FirstRowFrom(rows: seq<GeoRow>, a: string, i: nat, k: nat) returns (j: nat)
    requires i <= k < |rows| && rows[k].area == a
    requires forall m :: 0 <= m < i ==> rows[m].area != a
    ensures IsFirstOfArea(rows, j) && rows[j].area == a
    decreases k - i
  {
    if rows[i].area == a {
      j := i;
    } else {
      j := FirstRowFrom(rows, a, i + 1, k);
    }
  }
}
