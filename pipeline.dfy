/**
  `main`: the four data files the app reads, built from the three tables.

  The geography, occupation and wage tables are loaded; the common codes
  are ranked; the wage file keeps the levels of those codes, the county
  index is built from the geography, and the occupations list keeps the
  common codes that have a title. Together the files are consistent: every
  county entry points at an area of the geography file, and every listed
  occupation has levels for at least one area in the wage file.
 */
module Pipeline {
  import opened Dicts
  import opened Geography
  import opened Wages
  import opened Ranking
  import opened WageLookup
  import opened CountyIndex
  import opened Occupations

  /** `wages.json`, `geography.json`, `counties.json` and `occupations.json`. */
  datatype DataFiles = DataFiles(
    wageFile: WageFile,
    geography: Dict<string, AreaInfo>,
    countyIndex: Dict<string, CountyEntry>,
    occupationList: seq<OccEntry>)

  /** The wage file has levels for `soc` in at least one area. */
  ghost predicate HasWages(wageFile: WageFile, soc: string) {
    exists area :: Entry(wageFile, area, soc).Some?
  }

  /** `set(common_socs)`. */
  function AsSet(s: seq<string>): set<string> {
    set x | x in s
  }

  /**
    `main` without its I/O. The ghost results are the tables `main` loads
    and the codes it selects; the ensures tie every file to them, and them
    to the rows, then state the files' mutual consistency.
   */
  method BuildDataFiles(geoRows: seq<GeoRow>, occRows: seq<OccRow>, wageRows: seq<WageRow>, toAnnual: string -> Option<int>)
    returns (files: DataFiles, ghost wages: WageTable, ghost occupations: Dict<string, string>, ghost common: seq<string>)
    // the loaded tables and the selected codes
    ensures Firsts(wages) == Dedup(ValidAreas(wageRows, toAnnual))
    ensures forall a | a in Firsts(wages) :: Indexes(Lookup(wages, a).value, Updates(wageRows, toAnnual, a))
    ensures Indexes(occupations, OccPairs(occRows))
    ensures IsCommonOccupations(wages, common)
    // geography.json is the loaded geography
    ensures Firsts(files.geography) == Dedup(Areas(geoRows))
    ensures forall j | IsFirstOfArea(geoRows, j) ::
              Lookup(files.geography, geoRows[j].area)
                == Some(AreaInfo(geoRows[j].areaName, geoRows[j].state, CountiesOf(geoRows, geoRows[j].area)))
    // wages.json, counties.json and occupations.json
    ensures files.wageFile == WageFileOf(wages, AsSet(common))
    ensures Indexes(files.countyIndex, SearchPairs(files.geography))
    ensures files.occupationList == OccupationList(common, occupations)
    // consistency between the files
    ensures |files.occupationList| <= TopN
    ensures forall key :: Lookup(files.countyIndex, key).Some?
              ==> Lookup(files.geography, Lookup(files.countyIndex, key).value.area).Some?
    ensures forall p :: 0 <= p < |files.occupationList|
              ==> HasWages(files.wageFile, files.occupationList[p].code)
  {
    var geography, countyToArea := LoadGeography(geoRows);
    var occTable := LoadOccupations(occRows);
    var wageTable := LoadWages(wageRows, toAnnual);
    var selectedSocs := GetCommonOccupations(wageTable);
    var selected := AsSet(selectedSocs);
    var wageFile := CreateWageLookupFile(wageTable, geography, occTable, selected);
    var countyIndex := CreateCountySearchIndex(geography);
    var occList := OccupationList(selectedSocs, occTable);
    files := DataFiles(wageFile, geography, countyIndex, occList);
    wages, occupations, common := wageTable, occTable, selectedSocs;

    OccupationListLength(selectedSocs, occTable);
    IndexPointsIntoGeography(geography, countyIndex);
    ListedOccupationsHaveWages(wageTable, selectedSocs, occTable, wageFile);
  }

  /** Every entry of the county index names an area of the geography file. */
  lemma IndexPointsIntoGeography(geography: Dict<string, AreaInfo>, countyIndex: Dict<string, CountyEntry>)
    requires Indexes(countyIndex, SearchPairs(geography))
    ensures forall key :: Lookup(countyIndex, key).Some?
              ==> Lookup(geography, Lookup(countyIndex, key).value.area).Some?
  {
    forall key | Lookup(countyIndex, key).Some?
      ensures Lookup(geography, Lookup(countyIndex, key).value.area).Some?
    {
      IndexEntryMatchesKey(geography, countyIndex, key);
    }
  }

  /** Every listed occupation has levels in the wage file for some area. */
  lemma ListedOccupationsHaveWages(wages: WageTable, common: seq<string>, occupations: Dict<string, string>, wageFile: WageFile)
    requires forall q :: 0 <= q < |common| ==> AreasWith(wages, common[q]) > 0
    requires wageFile == WageFileOf(wages, AsSet(common))
    ensures forall p :: 0 <= p < |OccupationList(common, occupations)|
              ==> HasWages(wageFile, OccupationList(common, occupations)[p].code)
  {
    forall p | 0 <= p < |OccupationList(common, occupations)|
      ensures HasWages(wageFile, OccupationList(common, occupations)[p].code)
    {
      var area := ListedHasWages(wages, common, occupations, wageFile, p);
    }
  }

  /** A listed occupation has levels in the wage file for an area that holds it. */
  lemma ListedHasWages(wages: WageTable, common: seq<string>, occupations: Dict<string, string>, wageFile: WageFile, p: nat)
    returns (area: string)
    requires forall q :: 0 <= q < |common| ==> AreasWith(wages, common[q]) > 0
    requires wageFile == WageFileOf(wages, AsSet(common))
    requires p < |OccupationList(common, occupations)|
    ensures Entry(wageFile, area, OccupationList(common, occupations)[p].code).Some?
  {
    var soc := OccupationList(common, occupations)[p].code;
    OccupationListEntries(common, occupations, p);
    var t := AreaHolding(wages, soc);
    assert WageOf(wages, wages[t].0, soc).Some?;
    WageFileEntry(wages, AsSet(common), wages[t].0, soc);
    area := wages[t].0;
  }

  /**
    Every entry of `counties.json` is keyed by its county and the state of
    the first geography row of its area, whatever state the county's own
    rows carry; the county is one of that area's.
   */
  lemma CountyKeyUsesFirstRowState(geoRows: seq<GeoRow>, geography: Dict<string, AreaInfo>,
                                   countyIndex: Dict<string, CountyEntry>, key: string) returns (j: nat)
    requires Firsts(geography) == Dedup(Areas(geoRows))
    requires forall j | IsFirstOfArea(geoRows, j) ::
               Lookup(geography, geoRows[j].area)
                 == Some(AreaInfo(geoRows[j].areaName, geoRows[j].state, CountiesOf(geoRows, geoRows[j].area)))
    requires Indexes(countyIndex, SearchPairs(geography))
    requires Lookup(countyIndex, key).Some?
    ensures IsFirstOfArea(geoRows, j)
    ensures var e := Lookup(countyIndex, key).value;
              && geoRows[j].area == e.area && e.state == geoRows[j].state
              && key == SearchKey(e.county, geoRows[j].state)
              && e.county in CountiesOf(geoRows, e.area)
  {
    var e := Lookup(countyIndex, key).value;
    IndexEntryMatchesKey(geography, countyIndex, key);
    assert e.area in Dedup(Areas(geoRows));
    j := FirstRowOf(geoRows, e.area);
  }

  /**
    The search key of a county carries its area's state, the state of the
    area's first geography row, rather than the county's own: in an area
    spanning Pennsylvania and New Jersey, the New Jersey county is keyed
    under PA, and no key names it with NJ.
   */
  lemma MultiStateAreaCountyKey(geography: Dict<string, AreaInfo>, countyIndex: Dict<string, CountyEntry>)
    requires var rows := [GeoRow("37980", "Philadelphia", "PA", "Philadelphia County"),
                          GeoRow("37980", "Philadelphia", "NJ", "Camden County")];
      && Firsts(geography) == Dedup(Areas(rows))
      && forall j | IsFirstOfArea(rows, j) ::
           Lookup(geography, rows[j].area)
             == Some(AreaInfo(rows[j].areaName, rows[j].state, CountiesOf(rows, rows[j].area)))
    requires Indexes(countyIndex, SearchPairs(geography))
    ensures Lookup(countyIndex, "Camden County, PA")
            == Some(CountyEntry("37980", "Philadelphia", "PA", "Camden County"))
    ensures "Camden County, NJ" !in Firsts(countyIndex)
  {
    var info := PhiladelphiaGeography(geography);
    PhiladelphiaIndex(info, countyIndex);
  }

  /** The Philadelphia rows load into one area with both counties, under the first row's state. */
  lemma PhiladelphiaGeography(geography: Dict<string, AreaInfo>) returns (info: AreaInfo)
    requires var rows := [GeoRow("37980", "Philadelphia", "PA", "Philadelphia County"),
                          GeoRow("37980", "Philadelphia", "NJ", "Camden County")];
      && Firsts(geography) == Dedup(Areas(rows))
      && forall j | IsFirstOfArea(rows, j) ::
           Lookup(geography, rows[j].area)
             == Some(AreaInfo(rows[j].areaName, rows[j].state, CountiesOf(rows, rows[j].area)))
    ensures info == AreaInfo("Philadelphia", "PA", ["Philadelphia County", "Camden County"])
    ensures geography == [("37980", info)]
  {
    var rows := [GeoRow("37980", "Philadelphia", "PA", "Philadelphia County"),
                 GeoRow("37980", "Philadelphia", "NJ", "Camden County")];
    assert rows[..1] == [rows[0]] && rows[..1][..0] == [];
    assert Areas(rows) == ["37980", "37980"];
    assert Dedup(Areas(rows)) == ["37980"] by {
      assert Areas(rows)[..1] == ["37980"];
      assert Dedup(Areas(rows)[..1]) == ["37980"];
    }
    assert CountiesOf(rows, "37980") == ["Philadelphia County", "Camden County"];
    info := AreaInfo("Philadelphia", "PA", ["Philadelphia County", "Camden County"]);
    assert IsFirstOfArea(rows, 0);
  }

  /** The county index of that geography. */
  lemma PhiladelphiaIndex(info: AreaInfo, countyIndex: Dict<string, CountyEntry>)
    requires info == AreaInfo("Philadelphia", "PA", ["Philadelphia County", "Camden County"])
    requires Indexes(countyIndex, SearchPairs([("37980", info)]))
    ensures Lookup(countyIndex, "Camden County, PA")
            == Some(CountyEntry("37980", "Philadelphia", "PA", "Camden County"))
    ensures "Camden County, NJ" !in Firsts(countyIndex)
  {
    var p0, p1 := PhiladelphiaPairs(info);
    assert [p0, p1] == [p0] + [p1];
    LastValueAppend([p0], p1, "Camden County, PA");
    LastValueAppend([p0], p1, "Camden County, NJ");
    LastValueAppend([], p0, "Camden County, NJ");
    assert [] + [p0] == [p0];
  }

  /** The two assignments the county loop makes for that geography. */
  lemma PhiladelphiaPairs(info: AreaInfo) returns (p0: (string, CountyEntry), p1: (string, CountyEntry))
    requires info == AreaInfo("Philadelphia", "PA", ["Philadelphia County", "Camden County"])
    ensures SearchPairs([("37980", info)]) == [p0, p1]
    ensures p0.0 == "Philadelphia County, PA"
    ensures p1 == ("Camden County, PA", CountyEntry("37980", "Philadelphia", "PA", "Camden County"))
  {
    var g := [("37980", info)];
    assert g[..0] == [];
    p0, p1 := CountyPair("37980", info, 0), CountyPair("37980", info, 1);
    assert SearchPairs(g) == AreaPairs("37980", info);
    assert info.counties[1] == "Camden County";
    assert p0.0 == "Philadelphia County, PA" && p1.0 == "Camden County, PA";
  }

}
