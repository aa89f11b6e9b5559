/**
  `create_wage_lookup_file`: the compact wage file `wages.json`.

  For each area of the wage table, in table order, the SOC codes that are
  among the selected ones are copied, in the area's order, with their four
  levels as a list; an area left with no code is dropped. The geography and
  occupation tables the function also receives play no part in the result.
 */
module WageLookup {
  import opened Dicts
  import opened Wages
  import opened Geography

  /** `[levels['l1'], levels['l2'], levels['l3'], levels['l4']]`. */
  function AsList(levels: Levels): seq<int> {
    [levels.l1, levels.l2, levels.l3, levels.l4]
  }

  /** The structure `{ areaCode: { socCode: [l1, l2, l3, l4] } }`. */
  type WageFile = Dict<string, Dict<string, seq<int>>>

  /** `wage_file[area][soc]`, None where either key is missing. */
  function Entry(file: WageFile, area: string, soc: string): Option<seq<int>> {
    match Lookup(file, area)
    case None => None
    case Some(areaWages) => Lookup(areaWages, soc)
  }

  /** `area_wages`: the selected codes of one area with their levels, in the area's order. */
  function SelectLevels(socData: seq<(string, Levels)>, selected: set<string>): Dict<string, seq<int>> {
    if socData == [] then []
    else
      var (soc, levels) := socData[|socData| - 1];
      var r := SelectLevels(socData[..|socData| - 1], selected);
      if soc in selected then Put(r, soc, AsList(levels)) else r
  }

  /** The whole file: every area with a non-empty selection, in table order. */
  function WageFileOf(wages: seq<(string, Dict<string, Levels>)>, selected: set<string>): WageFile {
    if wages == [] then []
    else
      var (area, socData) := wages[|wages| - 1];
      var r := WageFileOf(wages[..|wages| - 1], selected);
      var areaWages := SelectLevels(socData, selected);
      if areaWages != [] then Put(r, area, areaWages) else r
  }

  /** A code is in an area's selection exactly when it is selected and the area holds it. */
  lemma {:induction false} SelectLevelsLookup(socData: Dict<string, Levels>, selected: set<string>, soc: string)
    ensures Lookup(SelectLevels(socData, selected), soc)
            == if soc in selected && Lookup(socData, soc).Some? then Some(AsList(Lookup(socData, soc).value)) else None
  {
    if socData != [] {
      SelectLevelsLookup(DropLast(socData), selected, soc);
      LookupLast(socData, soc);
    }
  }

  /** An area is in the file with its selection, unless that selection is empty. */
  lemma {:induction false} WageFileLookup(wages: WageTable, selected: set<string>, area: string)
    ensures Lookup(WageFileOf(wages, selected), area)
            == match Lookup(wages, area)
               case None => None
               case Some(socData) =>
                 if SelectLevels(socData, selected) == [] then None else Some(SelectLevels(socData, selected))
  {
    if wages != [] {
      WageFileLookup(DropLast(wages), selected, area);
      LookupLast(wages, area);
    }
  }

  /**
    Soundness and completeness of the file: `wage_file[area][soc]` is the
    list of the table's four levels exactly when the code is selected and
    the table holds it for that area; otherwise it is missing.
   */
  lemma WageFileEntry(wages: WageTable, selected: set<string>, area: string, soc: string)
    ensures Entry(WageFileOf(wages, selected), area, soc)
            == if soc in selected && WageOf(wages, area, soc).Some? then Some(AsList(WageOf(wages, area, soc).value)) else None
  {
    WageFileLookup(wages, selected, area);
    if Lookup(wages, area).Some? {
      SelectLevelsLookup(Lookup(wages, area).value, selected, soc);
    }
  }

  /** No area of the file is empty. */
  lemma WageFileNoEmptyArea(wages: WageTable, selected: set<string>, area: string)
    requires area in Firsts(WageFileOf(wages, selected))
    ensures Lookup(WageFileOf(wages, selected), area).value != []
  {
    WageFileLookup(wages, selected, area);
  }

  /** An area is in the file exactly when the table holds some selected code for it. */
  lemma WageFileAreas(wages: WageTable, selected: set<string>, area: string)
    ensures area in Firsts(WageFileOf(wages, selected))
            <==> exists soc :: soc in selected && WageOf(wages, area, soc).Some?
  {
    var file := WageFileOf(wages, selected);
    if area in Firsts(file) {
      WageFileNoEmptyArea(wages, selected, area);
      var areaWages: Dict<string, seq<int>> := Lookup(file, area).value;
      var soc := areaWages[0].0;
      assert Lookup(areaWages, soc).Some?;
      WageFileEntry(wages, selected, area, soc);
    } else {
      forall soc | soc in selected ensures WageOf(wages, area, soc).None? {
        WageFileEntry(wages, selected, area, soc);
      }
    }
  }

  /** `WageFileEntry` and `WageFileNoEmptyArea` for every area and code at once. */
  lemma WageFileProperties(wages: WageTable, selected: set<string>)
    ensures forall area, soc :: Entry(WageFileOf(wages, selected), area, soc)
              == if soc in selected && WageOf(wages, area, soc).Some? then Some(AsList(WageOf(wages, area, soc).value)) else None
    ensures forall area :: area in Firsts(WageFileOf(wages, selected)) ==> Lookup(WageFileOf(wages, selected), area).value != []
  {
    forall area, soc ensures Entry(WageFileOf(wages, selected), area, soc)
              == if soc in selected && WageOf(wages, area, soc).Some? then Some(AsList(WageOf(wages, area, soc).value)) else None
    {
      WageFileEntry(wages, selected, area, soc);
    }
    forall area | area in Firsts(WageFileOf(wages, selected)) ensures Lookup(WageFileOf(wages, selected), area).value != [] {
      WageFileNoEmptyArea(wages, selected, area);
    }
  }

  /** The inner loop of `create_wage_lookup_file`: one area's selection. */
  method SelectArea(socData: Dict<string, Levels>, selected: set<string>) returns (areaWages: Dict<string, seq<int>>)
    ensures areaWages == SelectLevels(socData, selected)
  {
    areaWages := [];
    var j := 0;
    while j < |socData|
      invariant j <= |socData|
      invariant areaWages == SelectLevels(socData[..j], selected)
    {
      var (soc, levels) := socData[j];
      if soc in selected {
        areaWages := Put(areaWages, soc, AsList(levels));
      }
      assert socData[..j + 1][..j] == socData[..j];
      j := j + 1;
    }
    assert socData[..j] == socData;
  }

  /**
    `create_wage_lookup_file`. `geography` and `occupations` are received
    and not used, as in the script.
   */
  method CreateWageLookupFile(wages: WageTable, geography: Dict<string, AreaInfo>, occupations: Dict<string, string>,
                              selectedSocs: set<string>)
    returns (output: WageFile)
    ensures output == WageFileOf(wages, selectedSocs)
    ensures forall area, soc :: Entry(output, area, soc)
              == if soc in selectedSocs && WageOf(wages, area, soc).Some? then Some(AsList(WageOf(wages, area, soc).value)) else None
    ensures forall area :: area in Firsts(output) ==> Lookup(output, area).value != []
  {
    output := [];
    var i := 0;
    while i < |wages|
      invariant i <= |wages|
      invariant output == WageFileOf(wages[..i], selectedSocs)
    {
      var (area, socData) := wages[i];
      var areaWages := SelectArea(socData, selectedSocs);
      if areaWages != [] {
        output := Put(output, area, areaWages);
      }
      assert wages[..i + 1][..i] == wages[..i];
      i := i + 1;
    }
    assert wages[..i] == wages;
    WageFileProperties(wages, selectedSocs);
  }
}
