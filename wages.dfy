/**
  `load_wages`: the wage table, per area and per SOC code.

  Each row of the wage export carries an area, a SOC code and four hourly
  wage levels. A row whose four levels all convert to annual amounts is
  stored as `wages[area][soc]`, overwriting any earlier row for the same
  pair; a row where any conversion raises is skipped.
 */
module Wages {
  import opened Dicts

  /** One row of the wage export, as the CSV reader yields it. */
  datatype WageRow = WageRow(area: string, soc: string, level1: string, level2: string, level3: string, level4: string)

  /** The value `{'l1', 'l2', 'l3', 'l4'}` stored per area and SOC code: exactly four annual amounts. */
  datatype Levels = Levels(l1: int, l2: int, l3: int, l4: int)

  /** The table `wages`: area code -> SOC code -> levels. */
  type WageTable = Dict<string, Dict<string, Levels>>

  /** `wages[area][soc]`, None where either key is missing. */
  function WageOf(wages: WageTable, area: string, soc: string): Option<Levels> {
    match Lookup(wages, area)
    case None => None
    case Some(socData) => Lookup(socData, soc)
  }

  /**
    The four levels of a row once converted by `toAnnual` (the hourly to
    annual conversion `round(float(x) * 2080)`, None where it raises); None
    as soon as one of them fails.
   */
  function ParseLevels(row: WageRow, toAnnual: string -> Option<int>): Option<Levels> {
    match (toAnnual(row.level1), toAnnual(row.level2), toAnnual(row.level3), toAnnual(row.level4))
    case (Some(l1), Some(l2), Some(l3), Some(l4)) => Some(Levels(l1, l2, l3, l4))
    case _ => None
  }

  /** The areas of the rows that convert, in row order. */
  function ValidAreas(rows: seq<WageRow>, toAnnual: string -> Option<int>): seq<string> {
    if rows == [] then []
    else
      var last := rows[|rows| - 1];
      ValidAreas(rows[..|rows| - 1], toAnnual)
        + (if ParseLevels(last, toAnnual).Some? then [last.area] else [])
  }

  /** The assignments `wages[a][soc] = levels` the rows of area `a` make, in row order. */
  function Updates(rows: seq<WageRow>, toAnnual: string -> Option<int>, a: string): seq<(string, Levels)> {
    if rows == [] then []
    else
      var last := rows[|rows| - 1];
      var parsed := ParseLevels(last, toAnnual);
      Updates(rows[..|rows| - 1], toAnnual, a)
        + (if parsed.Some? && last.area == a then [(last.soc, parsed.value)] else [])
  }

  lemma ValidPrefix(rows: seq<WageRow>, toAnnual: string -> Option<int>, i: nat)
    requires i < |rows|
    ensures ValidAreas(rows[..i + 1], toAnnual)
              == ValidAreas(rows[..i], toAnnual) + (if ParseLevels(rows[i], toAnnual).Some? then [rows[i].area] else [])
  {
    assert rows[..i + 1][..i] == rows[..i];
  }

  lemma UpdatesPrefix(rows: seq<WageRow>, toAnnual: string -> Option<int>, i: nat, a: string)
    requires i < |rows|
    ensures Updates(rows[..i + 1], toAnnual, a)
              == Updates(rows[..i], toAnnual, a)
                 + (if ParseLevels(rows[i], toAnnual).Some? && rows[i].area == a
                    then [(rows[i].soc, ParseLevels(rows[i], toAnnual).value)] else [])
  {
    assert rows[..i + 1][..i] == rows[..i];
  }

  /** An area without a row that converts receives no assignment. */
  lemma {:induction false} UpdatesAbsent(rows: seq<WageRow>, toAnnual: string -> Option<int>, a: string)
    requires a !in ValidAreas(rows, toAnnual)
    ensures Updates(rows, toAnnual, a) == []
  {
    if rows != [] {
      var n := |rows| - 1;
      ValidPrefix(rows, toAnnual, n);
      UpdatesPrefix(rows, toAnnual, n, a);
      assert rows[..n + 1] == rows;
      UpdatesAbsent(rows[..n], toAnnual, a);
    }
  }

  /** What the loop has built from the first `n` rows. */
  ghost predicate LoadedUpTo(rows: seq<WageRow>, toAnnual: string -> Option<int>, n: nat, wages: WageTable) {
    && n <= |rows|
    && Firsts(wages) == Dedup(ValidAreas(rows[..n], toAnnual))
    && forall a | a in Firsts(wages) :: Indexes(Lookup(wages, a).value, Updates(rows[..n], toAnnual, a))
  }

  lemma {:induction false} SkipStep(rows: seq<WageRow>, toAnnual: string -> Option<int>, i: nat, wages: WageTable)
    requires i < |rows| && LoadedUpTo(rows, toAnnual, i, wages)
    requires ParseLevels(rows[i], toAnnual).None?
    ensures LoadedUpTo(rows, toAnnual, i + 1, wages)
  {
    ValidPrefix(rows, toAnnual, i);
    forall a | a in Firsts(wages)
      ensures Indexes(Lookup(wages, a).value, Updates(rows[..i + 1], toAnnual, a))
    {
      assert Indexes(Lookup(wages, a).value, Updates(rows[..i], toAnnual, a));
      UpdatesPrefix(rows, toAnnual, i, a);
      assert Updates(rows[..i + 1], toAnnual, a) == Updates(rows[..i], toAnnual, a);
    }
    assert ValidAreas(rows[..i + 1], toAnnual) == ValidAreas(rows[..i], toAnnual);
    assert Firsts(wages) == Dedup(ValidAreas(rows[..i + 1], toAnnual));
  }

  lemma StoreStep(rows: seq<WageRow>, toAnnual: string -> Option<int>, i: nat, wages: WageTable, wages': WageTable)
    requires i < |rows| && LoadedUpTo(rows, toAnnual, i, wages)
    requires ParseLevels(rows[i], toAnnual).Some?
    requires var row := rows[i];
      wages' == Put(wages, row.area, Put(Lookup(wages, row.area).GetOr([]), row.soc, ParseLevels(row, toAnnual).value))
    ensures LoadedUpTo(rows, toAnnual, i + 1, wages')
  {
    StoreStepKeys(rows, toAnnual, i, wages, wages');
    StoreStepValues(rows, toAnnual, i, wages, wages');
  }

  lemma StoreStepKeys(rows: seq<WageRow>, toAnnual: string -> Option<int>, i: nat, wages: WageTable, wages': WageTable)
    requires i < |rows| && Firsts(wages) == Dedup(ValidAreas(rows[..i], toAnnual))
    requires ParseLevels(rows[i], toAnnual).Some?
    requires var row := rows[i];
      wages' == Put(wages, row.area, Put(Lookup(wages, row.area).GetOr([]), row.soc, ParseLevels(row, toAnnual).value))
    ensures Firsts(wages') == Dedup(ValidAreas(rows[..i + 1], toAnnual))
  {
    ValidPrefix(rows, toAnnual, i);
    DedupAppend(ValidAreas(rows[..i], toAnnual), rows[i].area);
  }

  lemma StoreStepValues(rows: seq<WageRow>, toAnnual: string -> Option<int>, i: nat, wages: WageTable, wages': WageTable)
    requires i < |rows| && LoadedUpTo(rows, toAnnual, i, wages)
    requires ParseLevels(rows[i], toAnnual).Some?
    requires var row := rows[i];
      wages' == Put(wages, row.area, Put(Lookup(wages, row.area).GetOr([]), row.soc, ParseLevels(row, toAnnual).value))
    ensures forall a | a in Firsts(wages') :: Indexes(Lookup(wages', a).value, Updates(rows[..i + 1], toAnnual, a))
  {
    var row := rows[i];
    var inner := Lookup(wages, row.area).GetOr([]);
    var inner' := Put(inner, row.soc, ParseLevels(row, toAnnual).value);
    forall a | a in Firsts(wages')
      ensures Indexes(Lookup(wages', a).value, Updates(rows[..i + 1], toAnnual, a))
    {
      if a == row.area {
        InnerBefore(rows, toAnnual, i, wages);
        StoreStepAt(rows, toAnnual, i, inner, wages, wages');
      } else {
        StoreStepElsewhere(rows, toAnnual, i, wages, inner', wages', a);
      }
    }
  }

  /** Row `i` leaves the entry of every other area as it was. */
  lemma StoreStepElsewhere(rows: seq<WageRow>, toAnnual: string -> Option<int>, i: nat, wages: WageTable,
                           inner': Dict<string, Levels>, wages': WageTable, a: string)
    requires i < |rows| && a != rows[i].area && wages' == Put(wages, rows[i].area, inner')
    requires a in Firsts(wages')
    requires a in Firsts(wages) ==> Indexes(Lookup(wages, a).value, Updates(rows[..i], toAnnual, a))
    ensures Indexes(Lookup(wages', a).value, Updates(rows[..i + 1], toAnnual, a))
  {
    PutOther(wages, rows[i].area, inner', a);
    StoreStepOther(rows, toAnnual, i, wages, wages', a);
  }

  /** Before row `i`, the table under its area holds what that area's earlier rows assigned. */
  lemma InnerBefore(rows: seq<WageRow>, toAnnual: string -> Option<int>, i: nat, wages: WageTable)
    requires i < |rows| && LoadedUpTo(rows, toAnnual, i, wages)
    ensures Indexes(Lookup(wages, rows[i].area).GetOr([]), Updates(rows[..i], toAnnual, rows[i].area))
  {
    if rows[i].area !in Firsts(wages) {
      UpdatesAbsent(rows[..i], toAnnual, rows[i].area);
    }
  }

  lemma StoreStepOther(rows: seq<WageRow>, toAnnual: string -> Option<int>, i: nat, wages: WageTable, wages': WageTable, a: string)
    requires i < |rows| && a != rows[i].area && a in Firsts(wages)
    requires Indexes(Lookup(wages, a).value, Updates(rows[..i], toAnnual, a))
    requires Lookup(wages', a) == Lookup(wages, a)
    ensures Indexes(Lookup(wages', a).value, Updates(rows[..i + 1], toAnnual, a))
  {
    UpdatesPrefix(rows, toAnnual, i, a);
    assert Updates(rows[..i + 1], toAnnual, a) == Updates(rows[..i], toAnnual, a);
  }

  lemma PutOther(wages: WageTable, area: string, inner: Dict<string, Levels>, a: string)
    requires a != area
    ensures Lookup(Put(wages, area, inner), a) == Lookup(wages, a)
    ensures a in Firsts(Put(wages, area, inner)) <==> a in Firsts(wages)
  {
  }

  lemma StoreStepAt(rows: seq<WageRow>, toAnnual: string -> Option<int>, i: nat, inner: Dict<string, Levels>,
                    wages: WageTable, wages': WageTable)
    requires i < |rows| && ParseLevels(rows[i], toAnnual).Some?
    requires Indexes(inner, Updates(rows[..i], toAnnual, rows[i].area))
    requires wages' == Put(wages, rows[i].area, Put(inner, rows[i].soc, ParseLevels(rows[i], toAnnual).value))
    ensures Indexes(Lookup(wages', rows[i].area).value, Updates(rows[..i + 1], toAnnual, rows[i].area))
  {
    var row := rows[i];
    var levels := ParseLevels(row, toAnnual).value;
    UpdatesPrefix(rows, toAnnual, i, row.area);
    PutIndexes(inner, Updates(rows[..i], toAnnual, row.area), row.soc, levels, Updates(rows[..i + 1], toAnnual, row.area));
  }

  /** The body of the loop of `load_wages`, for row `i`. */
  method LoadRow(rows: seq<WageRow>, toAnnual: string -> Option<int>, i: nat, wages: WageTable) returns (wages': WageTable)
    requires i < |rows| && LoadedUpTo(rows, toAnnual, i, wages)
    ensures LoadedUpTo(rows, toAnnual, i + 1, wages')
  {
    var row := rows[i];
    var levels := ParseLevels(row, toAnnual);
    if levels.None? {
      // the conversion raised: `continue`
      SkipStep(rows, toAnnual, i, wages);
      wages' := wages;
    } else {
      var socData := Lookup(wages, row.area).GetOr([]);
      wages' := Put(wages, row.area, Put(socData, row.soc, levels.value));
      StoreStep(rows, toAnnual, i, wages, wages');
    }
  }

  /**
    The loop of `load_wages`. The areas are those with at least one row
    whose levels convert, in order of the first such row; under each area,
    its SOC codes are in order of their first converting row and each holds
    the levels of its last converting row. Rows that do not convert play no
    part.
   */
  method LoadWages(rows: seq<WageRow>, toAnnual: string -> Option<int>) returns (wages: WageTable)
    ensures Firsts(wages) == Dedup(ValidAreas(rows, toAnnual))
    ensures forall a | a in Firsts(wages) :: Indexes(Lookup(wages, a).value, Updates(rows, toAnnual, a))
  {
    wages := [];
    var i := 0;
    while i < |rows|
      invariant LoadedUpTo(rows, toAnnual, i, wages)
    {
      wages := LoadRow(rows, toAnnual, i, wages);
      i := i + 1;
    }
    assert rows[..|rows|] == rows;
  }

  /**
    A later converting row for the same area and SOC code overwrites an
    earlier one: the levels kept are those of the last converting row.
   */
  lemma {:induction false} LastValidRowWins(rows: seq<WageRow>, toAnnual: string -> Option<int>, j: nat)
    requires j < |rows| && ParseLevels(rows[j], toAnnual).Some?
    requires forall j' :: j < j' < |rows| && rows[j'].area == rows[j].area && rows[j'].soc == rows[j].soc
               ==> ParseLevels(rows[j'], toAnnual).None?
    ensures LastValue(Updates(rows, toAnnual, rows[j].area), rows[j].soc) == ParseLevels(rows[j], toAnnual)
  {
    var n := |rows| - 1;
    var row := rows[j];
    var init := rows[..n];
    var before := Updates(init, toAnnual, row.area);
    UpdatesPrefix(rows, toAnnual, n, row.area);
    assert rows[..n + 1] == rows;
    var p := ParseLevels(rows[n], toAnnual);
    var tail := if p.Some? && rows[n].area == row.area then [(rows[n].soc, p.value)] else [];
    assert Updates(rows, toAnnual, row.area) == before + tail;
    if j == n {
      LastValueAppend(before, (row.soc, p.value), row.soc);
    } else {
      assert init[j] == row;
      LastValidRowWins(init, toAnnual, j);
      assert LastValue(before, row.soc) == ParseLevels(row, toAnnual);
      if tail != [] {
        assert rows[n].soc != row.soc;
        LastValueAppend(before, tail[0], row.soc);
        assert before + tail == before + [tail[0]];
      } else {
        assert before + tail == before;
      }
    }
  }

  /** A row whose levels do not convert, wherever it stands, changes no area and no assignment. */
  lemma UnconvertibleRowIgnored(
    rows: seq<WageRow>, row: WageRow, more: seq<WageRow>, toAnnual: string -> Option<int>, a: string)
    requires ParseLevels(row, toAnnual).None?
    ensures ValidAreas(rows + [row] + more, toAnnual) == ValidAreas(rows + more, toAnnual)
    ensures Updates(rows + [row] + more, toAnnual, a) == Updates(rows + more, toAnnual, a)
  {
    UnconvertibleRowKeepsAreas(rows, row, more, toAnnual);
    UnconvertibleRowKeepsUpdates(rows, row, more, toAnnual, a);
  }

  /** The two row sequences end alike: either both are empty past the row, or their last rows agree. */
  lemma SplitLast(rows: seq<WageRow>, row: WageRow, more: seq<WageRow>)
    requires more != []
    ensures var s1, s2 := rows + [row] + more, rows + more;
      && s1[..|s1| - 1] == rows + [row] + more[..|more| - 1] && s1[|s1| - 1] == more[|more| - 1]
      && s2[..|s2| - 1] == rows + more[..|more| - 1] && s2[|s2| - 1] == more[|more| - 1]
  {
  }

  lemma {:induction false} UnconvertibleRowKeepsAreas(
    rows: seq<WageRow>, row: WageRow, more: seq<WageRow>, toAnnual: string -> Option<int>)
    requires ParseLevels(row, toAnnual).None?
    ensures ValidAreas(rows + [row] + more, toAnnual) == ValidAreas(rows + more, toAnnual)
  {
    if more == [] {
      assert rows + [row] + more == rows + [row];
      assert (rows + [row])[..|rows|] == rows;
      assert rows + more == rows;
    } else {
      UnconvertibleRowKeepsAreas(rows, row, more[..|more| - 1], toAnnual);
      SplitLast(rows, row, more);
    }
  }

  lemma {:induction false} UnconvertibleRowKeepsUpdates(
    rows: seq<WageRow>, row: WageRow, more: seq<WageRow>, toAnnual: string -> Option<int>, a: string)
    requires ParseLevels(row, toAnnual).None?
    ensures Updates(rows + [row] + more, toAnnual, a) == Updates(rows + more, toAnnual, a)
  {
    if more == [] {
      assert rows + [row] + more == rows + [row];
      assert (rows + [row])[..|rows|] == rows;
      assert rows + more == rows;
    } else {
      UnconvertibleRowKeepsUpdates(rows, row, more[..|more| - 1], toAnnual, a);
      SplitLast(rows, row, more);
    }
  }

  /** An area appears in the table exactly when some row of it converts. */
  lemma {:induction false} ValidAreasMembers(rows: seq<WageRow>, toAnnual: string -> Option<int>, a: string)
    ensures (a in ValidAreas(rows, toAnnual))
        <==> (exists j :: 0 <= j < |rows| && rows[j].area == a && ParseLevels(rows[j], toAnnual).Some?)
  {
    if rows != [] {
      var n := |rows| - 1;
      ValidPrefix(rows, toAnnual, n);
      assert rows[..n + 1] == rows;
      ValidAreasMembers(rows[..n], toAnnual, a);
      if a in ValidAreas(rows[..n], toAnnual) {
        var j :| 0 <= j < n && rows[..n][j].area == a && ParseLevels(rows[..n][j], toAnnual).Some?;
        assert rows[j] == rows[..n][j];
      }
    }
  }
}
