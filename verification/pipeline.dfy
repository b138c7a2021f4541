/** One election year from its published tables to its dataset: parse table
    12, re-key it by district code, count the party votes, parse table 11,
    and build the sorted dataset. */
module Pipeline {
  import opened Wrappers
  import opened Records
  import Dicts
  import Extract
  import Registry
  import opened Aggregate
  import opened Dataset

  /** The corrected code -> name dictionary that table 12 of `year` is read
      with: the 2004 one for 2004, the standard (2011) one otherwise. */
  function YearNames(year: int, list2004: seq<(Code, string)>, list2011: seq<(Code, string)>): (d: Registry.Names)
    ensures Dicts.DistinctKeys(d)
    ensures year == 2004 ==> d == Registry.Correct2004(Registry.RidingList(list2004))
    ensures year != 2004 ==> d == Registry.CorrectStandard(Registry.RidingList(list2011))
  {
    if year == 2004 then Registry.Correct2004(Registry.RidingList(list2004))
    else Registry.CorrectStandard(Registry.RidingList(list2011))
  }

  /** Every row's code names, in the year's dictionary `names`, the district
      of some table-12 candidate row: the dataset invents no district. */
  predicate Named(rows: seq<Row>, candidates: seq<Candidate<string>>, names: Registry.Names) {
    forall row :: row in rows ==>
      exists i :: 0 <= i < |candidates| && Dicts.Get(names, row.district) == Some(candidates[i].district)
  }

  /** Every table-12 district that some table-11 record carries under the
      same code has a row: the dataset drops no matched district. */
  predicate Complete(rows: seq<Row>, candidates: seq<Candidate<string>>, names: Registry.Names,
                     turnout: seq<Turnout<Option<Code>>>) {
    forall i, t :: 0 <= i < |candidates| && t in turnout &&
                   t.district == Dicts.Get(Dicts.Invert(names), candidates[i].district) ==>
      exists row :: row in rows && Some(row.district) == t.district
  }

  /** The rows are, up to order, the summaries of the vote table of the
      re-keyed candidates joined with table 11: each row's party counts,
      electors and valid ballots are those the two tables give its district. */
  predicate Built(year: int, candidates: seq<Candidate<string>>, names: Registry.Names,
                  turnout: seq<Turnout<Option<Code>>>, rows: seq<Row>) {
    && Registry.Rekey(candidates, Dicts.Invert(names)).Ok?
    && SummariseAll(year, Merge(VoteTable(Registry.Rekey(candidates, Dicts.Invert(names)).value), turnout)).Ok?
    && multiset(rows) ==
       multiset(SummariseAll(year, Merge(VoteTable(Registry.Rekey(candidates, Dicts.Invert(names)).value), turnout)).value)
  }

  /** Every joined district's code prefix is one `pt_dict` knows, so the
      province lookup of `add_pt` raises no KeyError. */
  predicate ProvincesKnown(candidates: seq<Candidate<string>>, names: Registry.Names, turnout: seq<Turnout<Option<Code>>>) {
    && Registry.Rekey(candidates, Dicts.Invert(names)).Ok?
    && forall m :: m in Merge(VoteTable(Registry.Rekey(candidates, Dicts.Invert(names)).value), turnout) ==>
         m.district / 1000 in Prefixes
  }

  /** Table 12 of the year, parsed into candidate rows. */
  function Table12(results: seq<Extract.ResultRow>): Result<seq<Candidate<string>>, Error> {
    Extract.LoadResults(results)
  }

  /** Table 11 of the year, parsed into turnout records keyed by code. */
  function Table11(turnoutRows: seq<Extract.TurnoutRow>, list2004: seq<(Code, string)>, list2011: seq<(Code, string)>)
    : Result<seq<Turnout<Option<Code>>>, Error>
  {
    Extract.LoadTurnout(turnoutRows, Registry.Codes2004(list2004), Registry.CodesStandard(list2011))
  }

  /** The dataset of `year`. The first failing stage gives the error:
      table 12, then a table-12 district name the year's dictionary does not
      know, then table 11, then a code prefix outside `pt_dict`; past the
      first three, the dataset exists exactly when every joined prefix is
      known. A dataset holds a row for every table-12 district that table 11
      records under the same code, and only districts that table 12 names. */
  function YearDataset(
    year: int, results: seq<Extract.ResultRow>, turnoutRows: seq<Extract.TurnoutRow>,
    list2004: seq<(Code, string)>, list2011: seq<(Code, string)>): (r: Result<seq<Row>, Error>)
    ensures Table12(results).Err? ==> r == Err(Table12(results).error)
    ensures Table12(results).Ok? &&
            Registry.UnknownNames(DistrictsOf(Table12(results).value), YearNames(year, list2004, list2011)) != {} ==>
              r.Err? && r.error.UnknownDistrict? &&
              r.error.name in Registry.UnknownNames(DistrictsOf(Table12(results).value), YearNames(year, list2004, list2011))
    ensures Table12(results).Ok? &&
            Registry.UnknownNames(DistrictsOf(Table12(results).value), YearNames(year, list2004, list2011)) == {} &&
            Table11(turnoutRows, list2004, list2011).Err? ==>
              r == Err(Table11(turnoutRows, list2004, list2011).error)
    ensures Table12(results).Ok? &&
            Registry.UnknownNames(DistrictsOf(Table12(results).value), YearNames(year, list2004, list2011)) == {} &&
            Table11(turnoutRows, list2004, list2011).Ok? ==>
              && (r.Ok? <==> ProvincesKnown(Table12(results).value, YearNames(year, list2004, list2011),
                                            Table11(turnoutRows, list2004, list2011).value))
              && (r.Err? ==> r.error.UnknownProvince?)
    ensures r.Ok? ==>
      && Table12(results).Ok?
      && Registry.UnknownNames(DistrictsOf(Table12(results).value), YearNames(year, list2004, list2011)) == {}
      && Table11(turnoutRows, list2004, list2011).Ok?
      && Sorted(r.value)
      && (forall row :: row in r.value ==> Consistent(year, row))
      && Named(r.value, Table12(results).value, YearNames(year, list2004, list2011))
      && Complete(r.value, Table12(results).value, YearNames(year, list2004, list2011),
                  Table11(turnoutRows, list2004, list2011).value)
      && Built(year, Table12(results).value, YearNames(year, list2004, list2011),
               Table11(turnoutRows, list2004, list2011).value, r.value)
  {
    var candidates :- Table12(results);
    FromCandidates(year, candidates, YearNames(year, list2004, list2011), Table11(turnoutRows, list2004, list2011))
  }

  /** The stages after table 12 is parsed: re-key the candidate rows with
      the year's dictionary `names`, take the parsed table 11 (or its error),
      and build the dataset. */
  function FromCandidates(
    year: int, candidates: seq<Candidate<string>>, names: Registry.Names,
    turnout: Result<seq<Turnout<Option<Code>>>, Error>): (r: Result<seq<Row>, Error>)
    requires Dicts.DistinctKeys(names)
    ensures Registry.UnknownNames(DistrictsOf(candidates), names) != {} ==>
      r.Err? && r.error.UnknownDistrict? && r.error.name in Registry.UnknownNames(DistrictsOf(candidates), names)
    ensures Registry.UnknownNames(DistrictsOf(candidates), names) == {} && turnout.Err? ==> r == Err(turnout.error)
    ensures r.Ok? ==> Registry.UnknownNames(DistrictsOf(candidates), names) == {} && turnout.Ok?
    ensures r.Err? && Registry.UnknownNames(DistrictsOf(candidates), names) == {} && turnout.Ok? ==>
      r.error.UnknownProvince?
    ensures Registry.UnknownNames(DistrictsOf(candidates), names) == {} && turnout.Ok? ==>
      (r.Ok? <==> ProvincesKnown(candidates, names, turnout.value))
    ensures r.Ok? ==> Sorted(r.value) && forall row :: row in r.value ==> Consistent(year, row)
    ensures r.Ok? ==> Named(r.value, candidates, names) && Complete(r.value, candidates, names, turnout.value)
    ensures r.Ok? ==> Built(year, candidates, names, turnout.value, r.value)
  {
    Registry.RekeyByInverse(candidates, names);
    var keyed :- Registry.Rekey(candidates, Dicts.Invert(names));
    var t :- turnout;
    var r := BuildDataset(year, VoteTable(keyed), t);
    if r.Ok? then
      RowsNamed(year, candidates, names, keyed, t, r.value);
      RowsComplete(year, candidates, names, keyed, t, r.value);
      r
    else r
  }

  /** Every district of a built dataset is one that table 12 names: its code
      maps, in the year's dictionary, to the district of some candidate row. */
  lemma RowsNamed(
    year: int, candidates: seq<Candidate<string>>, names: Registry.Names,
    keyed: seq<Candidate<Code>>, turnout: seq<Turnout<Option<Code>>>, rows: seq<Row>)
    requires Dicts.DistinctKeys(names)
    requires Registry.Rekey(candidates, Dicts.Invert(names)) == Ok(keyed)
    requires BuildDataset(year, VoteTable(keyed), turnout) == Ok(rows)
    ensures Named(rows, candidates, names)
  {
    forall row | row in rows
      ensures exists i :: 0 <= i < |candidates| && Dicts.Get(names, row.district) == Some(candidates[i].district)
    {
      RowNamed(year, candidates, names, keyed, turnout, rows, row);
    }
  }

  /** One row of `RowsNamed`. */
  lemma RowNamed(
    year: int, candidates: seq<Candidate<string>>, names: Registry.Names,
    keyed: seq<Candidate<Code>>, turnout: seq<Turnout<Option<Code>>>, rows: seq<Row>, row: Row)
    requires Dicts.DistinctKeys(names)
    requires Registry.Rekey(candidates, Dicts.Invert(names)) == Ok(keyed)
    requires BuildDataset(year, VoteTable(keyed), turnout) == Ok(rows)
    requires row in rows
    ensures exists i :: 0 <= i < |candidates| && Dicts.Get(names, row.district) == Some(candidates[i].district)
  {
    var table := VoteTable(keyed);
    RowFromTable(year, table, turnout, rows, row);
    assert row.district in DistrictsOf(keyed);
    var i :| 0 <= i < |keyed| && DistrictsOf(keyed)[i] == row.district;
    KeyedName(candidates, names, keyed, i);
  }

  /** A row of a built dataset carries the code of some vote-table row. */
  lemma RowFromTable(year: int, counts: seq<VoteRow>, turnout: seq<Turnout<Option<Code>>>, rows: seq<Row>, row: Row)
    requires BuildDataset(year, counts, turnout) == Ok(rows)
    requires row in rows
    ensures row.district in TableDistricts(counts)
  {
    assert FromJoin(year, counts, turnout, row);
    var v, t :| v in counts && t in turnout && t.district == Some(v.district)
                && Summarise(year, Combine(v, t)) == Ok(row);
    var k :| 0 <= k < |counts| && counts[k] == v;
    assert TableDistricts(counts)[k] == row.district;
  }

  /** The code a candidate row was re-keyed to names that row's district. */
  lemma KeyedName(candidates: seq<Candidate<string>>, names: Registry.Names, keyed: seq<Candidate<Code>>, i: int)
    requires Dicts.DistinctKeys(names)
    requires Registry.Rekey(candidates, Dicts.Invert(names)) == Ok(keyed)
    requires 0 <= i < |keyed|
    ensures i < |candidates| && Dicts.Get(names, keyed[i].district) == Some(candidates[i].district)
  {
    Dicts.InvertKeys(names);
    assert Dicts.Get(Dicts.Invert(names), candidates[i].district) == Some(keyed[i].district);
    Dicts.InvertThenGet(names, candidates[i].district);
  }

  /** A built dataset has a row for every candidate's district that a
      turnout record carries under the same code. */
  lemma RowsComplete(
    year: int, candidates: seq<Candidate<string>>, names: Registry.Names,
    keyed: seq<Candidate<Code>>, turnout: seq<Turnout<Option<Code>>>, rows: seq<Row>)
    requires Registry.Rekey(candidates, Dicts.Invert(names)) == Ok(keyed)
    requires BuildDataset(year, VoteTable(keyed), turnout) == Ok(rows)
    ensures Complete(rows, candidates, names, turnout)
  {
    forall i, t | 0 <= i < |candidates| && t in turnout &&
                  t.district == Dicts.Get(Dicts.Invert(names), candidates[i].district)
      ensures exists row :: row in rows && Some(row.district) == t.district
    {
      JoinedRow(year, keyed, turnout, rows, i, t);
    }
  }

  /** The row of one candidate joined with one matching turnout record. */
  lemma JoinedRow(
    year: int, keyed: seq<Candidate<Code>>, turnout: seq<Turnout<Option<Code>>>, rows: seq<Row>,
    i: int, t: Turnout<Option<Code>>)
    requires 0 <= i < |keyed| && t in turnout && t.district == Some(keyed[i].district)
    requires BuildDataset(year, VoteTable(keyed), turnout) == Ok(rows)
    ensures exists row :: row in rows && Some(row.district) == t.district
  {
    var table := VoteTable(keyed);
    assert DistrictsOf(keyed)[i] == keyed[i].district;
    assert keyed[i].district in TableDistricts(table);
    var k :| 0 <= k < |table| && TableDistricts(table)[k] == keyed[i].district;
    JoinCovered(year, table, turnout, rows, table[k], t);
  }

  /** One district, 10001, with Liberal 5000 and Conservative 6000 votes of
      11500 valid ballots, gives one Newfoundland and Labrador row with 500
      other votes and a Conservative win. */
  lemma OneDistrict()
    ensures BuildDataset(2011, [VoteRow(10001, Tally(5000, 6000, 0, 0))], [Turnout(Some(10001), 20000, 11500)])
         == Ok([Row(10001, "NL", 20000, Tally(5000, 6000, 0, 0), 500, 11500, Won(Conservative))])
  {
    var v := VoteRow(10001, Tally(5000, 6000, 0, 0));
    var t: Turnout<Option<Code>> := Turnout(Some(10001), 20000, 11500);
    assert Matches(v, [t]) == [Combine(v, t)];
    assert Merge([v], [t]) == [Combine(v, t)];
    var row := Row(10001, "NL", 20000, Tally(5000, 6000, 0, 0), 500, 11500, Won(Conservative));
    assert Summarise(2011, Combine(v, t)) == Ok(row);
    assert [Combine(v, t)][1..] == [];
    assert SummariseAll(2011, [Combine(v, t)]) == Ok([row] + []);
    assert SortByDistrict([row]) == [row] by {
      assert [row][1..] == [];
    }
  }
}
