/**
  `load_occupations` and the occupations list `occupations.json`.

  The occupation table maps each SOC code to its title, a later row for a
  code replacing an earlier one. The list written for the app keeps, in
  ranked order, the common codes that have a title, each with that title.
 */
module Occupations {
  import opened Dicts

  /** One row of the occupation table, as the CSV reader yields it. */
  datatype OccRow = OccRow(code: string, title: string)

  /** One element `{'code': soc, 'title': title}` of the list. */
  datatype OccEntry = OccEntry(code: string, title: string)

  /** The assignments `occupations[code] = title`, in row order. */
  function OccPairs(rows: seq<OccRow>): seq<(string, string)> {
    seq(|rows|, j requires 0 <= j < |rows| => (rows[j].code, rows[j].title))
  }

  /**
    `load_occupations`: the codes in order of first appearance, each with
    the title of its last row.
   */
  method LoadOccupations(rows: seq<OccRow>) returns (occupations: Dict<string, string>)
    ensures Indexes(occupations, OccPairs(rows))
  {
    occupations := [];
    var i := 0;
    while i < |rows|
      invariant i <= |rows|
      invariant Indexes(occupations, OccPairs(rows[..i]))
    {
      assert OccPairs(rows[..i + 1]) == OccPairs(rows[..i]) + [(rows[i].code, rows[i].title)];
      PutIndexes(occupations, OccPairs(rows[..i]), rows[i].code, rows[i].title, OccPairs(rows[..i + 1]));
      occupations := Put(occupations, rows[i].code, rows[i].title);
      i := i + 1;
    }
    assert rows[..i] == rows;
  }

  /** The title of a code is that of the last row naming it. */
  lemma LastTitleWins(rows: seq<OccRow>, occupations: Dict<string, string>, j: nat)
    requires Indexes(occupations, OccPairs(rows))
    requires j < |rows| && forall j' :: j < j' < |rows| ==> rows[j'].code != rows[j].code
    ensures Lookup(occupations, rows[j].code) == Some(rows[j].title)
  {
    assert IsLastWith(OccPairs(rows), j);
  }

  /**
    `[{'code': soc, 'title': occupations.get(soc, soc)} for soc in
    common_socs if soc in occupations]`.
   */
  function OccupationList(common: seq<string>, occupations: Dict<string, string>): seq<OccEntry> {
    if common == [] then []
    else
      var soc := common[0];
      (if soc in Firsts(occupations) then [OccEntry(soc, Lookup(occupations, soc).GetOr(soc))] else [])
        + OccupationList(common[1..], occupations)
  }

  /** The codes of the list, in order. */
  function Codes(list: seq<OccEntry>): seq<string> {
    seq(|list|, p requires 0 <= p < |list| => list[p].code)
  }

  /**
    Each element is a common code that has a title and carries that title;
    the fallback to the code itself is never taken.
   */
  lemma {:induction false} OccupationListEntries(common: seq<string>, occupations: Dict<string, string>, p: nat)
    requires p < |OccupationList(common, occupations)|
    ensures OccupationList(common, occupations)[p].code in common
    ensures Lookup(occupations, OccupationList(common, occupations)[p].code)
            == Some(OccupationList(common, occupations)[p].title)
  {
    var soc := common[0];
    var head := if soc in Firsts(occupations) then [OccEntry(soc, Lookup(occupations, soc).GetOr(soc))] else [];
    var r := OccupationList(common, occupations);
    assert r == head + OccupationList(common[1..], occupations);
    if p >= |head| {
      OccupationListEntries(common[1..], occupations, p - |head|);
      assert r[p] == OccupationList(common[1..], occupations)[p - |head|];
    }
  }

  /** A code occurs in the list as often as in `common` if it has a title, and never otherwise. */
  lemma {:induction false} OccupationListCount(common: seq<string>, occupations: Dict<string, string>, soc: string)
    ensures Count(Codes(OccupationList(common, occupations)), soc)
            == if soc in Firsts(occupations) then Count(common, soc) else 0
  {
    if common != [] {
      var s := common[0];
      var head := if s in Firsts(occupations) then [OccEntry(s, Lookup(occupations, s).GetOr(s))] else [];
      var rest := OccupationList(common[1..], occupations);
      OccupationListCount(common[1..], occupations, soc);
      assert OccupationList(common, occupations) == head + rest;
      assert Codes(head + rest) == Codes(head) + Codes(rest);
      CountConcat(Codes(head), Codes(rest), soc);
      assert common == [s] + common[1..];
      CountConcat([s], common[1..], soc);
      assert [s] == [] + [s];
      CountAppend([], s, soc);
      if head != [] {
        assert Codes(head) == [s];
      } else {
        assert Codes(head) == [];
      }
    }
  }

  /** The list keeps the order of `common`. */
  lemma {:induction false} OccupationListOrder(common: seq<string>, occupations: Dict<string, string>, p: nat, q: nat)
    requires p < q < |OccupationList(common, occupations)|
    ensures Precedes(common, OccupationList(common, occupations)[p].code, OccupationList(common, occupations)[q].code)
  {
    var r := OccupationList(common, occupations);
    var a, b := r[p].code, r[q].code;
    var k := OccupationListSplit(common, occupations, q);
    if common[0] in Firsts(occupations) && p == 0 {
      OccupationListEntries(common[1..], occupations, q - k);
      OccupationListSplit0(common, occupations);
      PrecedesFromHead(common, b);
    } else {
      var k' := OccupationListSplit(common, occupations, p);
      OccupationListOrder(common[1..], occupations, p - k', q - k');
      assert Precedes(common[1..], a, b);
      PrecedesInTail(common, a, b);
    }
  }

  /**
    Past the entry `common[0]` contributes (`k` of them, none or one), the
    list continues with the list of the tail.
   */
  lemma OccupationListSplit(common: seq<string>, occupations: Dict<string, string>, p: nat) returns (k: nat)
    requires p < |OccupationList(common, occupations)|
    requires !(common[0] in Firsts(occupations) && p == 0)
    ensures k == (if common[0] in Firsts(occupations) then 1 else 0) && k <= p
    ensures OccupationList(common, occupations)[p] == OccupationList(common[1..], occupations)[p - k]
  {
    k := if common[0] in Firsts(occupations) then 1 else 0;
  }

  /** A titled first code opens the list. */
  lemma OccupationListSplit0(common: seq<string>, occupations: Dict<string, string>)
    requires 0 < |OccupationList(common, occupations)|
    requires common[0] in Firsts(occupations)
    ensures OccupationList(common, occupations)[0].code == common[0]
  {
  }

  /** The list is no longer than `common`. */
  lemma {:induction false} OccupationListLength(common: seq<string>, occupations: Dict<string, string>)
    ensures |OccupationList(common, occupations)| <= |common|
  {
    if common != [] {
      OccupationListLength(common[1..], occupations);
    }
  }
}
