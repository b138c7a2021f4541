/** The table extractors: row filtering, forward-filling of district labels and
    the conversion of the detailed-results table (table 12) and the turnout
    table (table 11) into typed records. Rows already carry named columns. */
module Extract {
  import opened Wrappers
  import opened Records
  import Seqs
  import Dicts
  import Normalize

  /** One row of table 12 after column selection. */
  datatype ResultRow = ResultRow(district: Cell, candidate: string, count: Cell, percent: Cell)

  /** One row of table 11 after column selection. */
  datatype TurnoutRow = TurnoutRow(district: Cell, electors: Cell, valid: Cell, validPercent: Cell)

  /** The marker printed where a table repeats its header. */
  const Placeholder: string := "No./Nbre"
  /** The district label of table 11's totals row. */
  const TotalsLabel: string := "Totals/Totaux"
  /** A district name that exists only in the 2004 registry. */
  const Marker2004: string := "Fundy"

  /** The three filters of `load_table12`: the count is present, differs from
      the percentage cell, and is not the header placeholder. */
  predicate KeepResult(r: ResultRow) {
    && r.count.Text?
    && r.count != r.percent
    && r.count.text != Placeholder
  }

  /** The filters of `load_table11`: those of table 12 on the valid-ballots
      columns, and the district is not the totals row. */
  predicate KeepTurnout(r: TurnoutRow) {
    && r.valid.Text?
    && r.valid != r.validPercent
    && r.valid.text != Placeholder
    && r.district != Text(TotalsLabel)
  }

  /** `fillna(method='pad')`: an empty cell takes the value of the cell above
      it after filling; leading empty cells stay empty. */
  function Pad(cells: seq<Cell>): (r: seq<Cell>)
    ensures |r| == |cells|
    ensures forall i :: 0 <= i < |cells| && cells[i].Text? ==> r[i] == cells[i]
    ensures forall i :: 0 < i < |cells| && cells[i].Blank? ==> r[i] == r[i - 1]
    ensures |cells| > 0 && cells[0].Blank? ==> r[0].Blank?
  {
    if |cells| == 0 then []
    else
      var init := Pad(cells[..|cells| - 1]);
      var last := cells[|cells| - 1];
      if last.Text? || |init| == 0 then init + [last] else init + [init[|init| - 1]]
  }

  /** Each filled cell holds the nearest non-empty cell at or above it, and is
      empty exactly when every cell up to it is empty. */
  lemma {:induction false} PadNearest(cells: seq<Cell>, i: int, j: int)
    requires 0 <= j <= i < |cells|
    requires cells[j].Text?
    requires forall k :: j < k <= i ==> cells[k].Blank?
    ensures Pad(cells)[i] == cells[j]
    decreases i - j
  {
    if i > j {
      PadNearest(cells, i - 1, j);
    }
  }

  lemma {:induction false} PadLeadingBlank(cells: seq<Cell>, i: int)
    requires 0 <= i < |cells|
    requires forall k :: 0 <= k <= i ==> cells[k].Blank?
    ensures Pad(cells)[i].Blank?
  {
    if i > 0 {
      PadLeadingBlank(cells, i - 1);
    }
  }

  /** The rows of table 12 that survive the filters, in their original order. */
  function FilterResults(rows: seq<ResultRow>): (kept: seq<ResultRow>)
    ensures forall r :: r in kept <==> r in rows && KeepResult(r)
    ensures forall i :: 0 <= i < |kept| ==> KeepResult(kept[i])
  {
    Seqs.Filter(rows, KeepResult)
  }

  /** `load_table12` after column selection: filter the rows, parse the counts,
      forward-fill then normalise the district names. It fails exactly when a
      kept count is not a number or a kept row has no district above it. */
  function LoadResults(rows: seq<ResultRow>): (r: Result<seq<Candidate<string>>, Error>)
    ensures r.Ok? <==> CountsParse(FilterResults(rows)) && DistrictsFilled(FilterResults(rows))
    ensures r.Ok? ==> |r.value| == |FilterResults(rows)|
    ensures r.Ok? ==> forall i :: 0 <= i < |r.value| ==> ResultRecord(FilterResults(rows), i, r.value[i])
  {
    var kept := FilterResults(rows);
    var counts := Normalize.NumProcess(Counts(kept));
    var names := Normalize.RdnameProcess(Pad(Districts(kept)));
    if counts.Err? then Err(counts.error)
    else if names.Err? then Err(names.error)
    else
      var out := seq(|kept|, i requires 0 <= i < |kept| => Candidate(names.value[i], kept[i].candidate, counts.value[i]));
      assert forall i :: 0 <= i < |out| ==> ResultRecord(kept, i, out[i]);
      Ok(out)
  }

  /** Every kept count parses. */
  predicate CountsParse(kept: seq<ResultRow>) {
    forall i :: 0 <= i < |kept| ==> kept[i].count.Text? && Normalize.ParseCount(kept[i].count.text).Ok?
  }

  /** Every kept row has a district label at or above it. */
  predicate DistrictsFilled(kept: seq<ResultRow>) {
    forall i :: 0 <= i < |kept| ==> Pad(Districts(kept))[i].Text?
  }

  /** `c` is the candidate record made from the `i`-th kept row. */
  predicate ResultRecord(kept: seq<ResultRow>, i: int, c: Candidate<string>)
    requires 0 <= i < |kept| && CountsParse(kept) && DistrictsFilled(kept)
  {
    && c.district == Normalize.RidingName(Pad(Districts(kept))[i].text)
    && c.affiliation == kept[i].candidate
    && Normalize.ParseCount(kept[i].count.text) == Ok(c.count)
  }

  function Counts(rows: seq<ResultRow>): (c: seq<Cell>)
    ensures |c| == |rows| && forall i :: 0 <= i < |rows| ==> c[i] == rows[i].count
  {
    seq(|rows|, i requires 0 <= i < |rows| => rows[i].count)
  }

  function Districts(rows: seq<ResultRow>): (c: seq<Cell>)
    ensures |c| == |rows| && forall i :: 0 <= i < |rows| ==> c[i] == rows[i].district
  {
    seq(|rows|, i requires 0 <= i < |rows| => rows[i].district)
  }

  /** The rows of table 11 that survive the filters, without the last one
      (`iloc[:-1]`, the trailing row the totals filter does not catch). */
  function TrimTurnout(rows: seq<TurnoutRow>): (kept: seq<TurnoutRow>)
    ensures var all := Seqs.Filter(rows, KeepTurnout);
      |kept| == if |all| == 0 then 0 else |all| - 1
    ensures forall r :: r in kept ==> r in rows && KeepTurnout(r)
    ensures forall i :: 0 <= i < |kept| ==> KeepTurnout(kept[i])
    ensures forall i :: 0 <= i < |kept| ==> kept[i] == Seqs.Filter(rows, KeepTurnout)[i]
  {
    var all := Seqs.Filter(rows, KeepTurnout);
    if |all| == 0 then [] else all[..|all| - 1]
  }

  /** `load_table11` after column selection: filter and trim the rows, parse
      electors and valid ballots, normalise the names, then look each name up
      in the 2004 name -> code dictionary when "Fundy" is among them and in the
      standard one otherwise. A name missing from the dictionary gives `None`
      (pandas NaN), as `Series.map` does. */
  function LoadTurnout(rows: seq<TurnoutRow>, codes2004: Dicts.Dict<string, Code>, codesStandard: Dicts.Dict<string, Code>)
    : (r: Result<seq<Turnout<Option<Code>>>, Error>)
    ensures r.Ok? <==> TurnoutParses(TrimTurnout(rows))
    ensures r.Ok? ==> |r.value| == |TrimTurnout(rows)|
    ensures r.Ok? ==> forall i :: 0 <= i < |r.value| ==>
      TurnoutRecord(TrimTurnout(rows), CodesFor(TurnoutNames(TrimTurnout(rows)), codes2004, codesStandard), i, r.value[i])
  {
    var kept := TrimTurnout(rows);
    var voters := Normalize.NumProcess(Column(kept, Electors));
    var votes := Normalize.NumProcess(Column(kept, Valid));
    var names := Normalize.RdnameProcess(Column(kept, DistrictLabel));
    TurnoutColumnsParse(kept);
    if voters.Err? then Err(voters.error)
    else if votes.Err? then Err(votes.error)
    else if names.Err? then Err(names.error)
    else
      var codes := CodesFor(names.value, codes2004, codesStandard);
      Ok(MakeTurnout(kept, codes, voters.value, votes.value, names.value))
  }

  /** The three column conversions of `load_table11` all succeed exactly when
      every kept row is complete; they then yield the normalised names. */
  lemma TurnoutColumnsParse(kept: seq<TurnoutRow>)
    requires forall i :: 0 <= i < |kept| ==> KeepTurnout(kept[i])
    ensures TurnoutParses(kept) <==>
      && Normalize.NumProcess(Column(kept, Electors)).Ok?
      && Normalize.NumProcess(Column(kept, Valid)).Ok?
      && Normalize.RdnameProcess(Column(kept, DistrictLabel)).Ok?
    ensures Normalize.RdnameProcess(Column(kept, DistrictLabel)).Ok? ==>
      Normalize.RdnameProcess(Column(kept, DistrictLabel)).value == TurnoutNames(kept)
  {
  }

  /** The turnout records of the kept rows, given their parsed columns. */
  function MakeTurnout(kept: seq<TurnoutRow>, codes: Dicts.Dict<string, Code>, voters: seq<nat>, votes: seq<nat>, names: seq<string>)
    : (out: seq<Turnout<Option<Code>>>)
    requires TurnoutParses(kept)
    requires |voters| == |kept| && |votes| == |kept| && |names| == |kept|
    requires forall i :: 0 <= i < |kept| ==> Normalize.ParseCount(kept[i].electors.text) == Ok(voters[i])
    requires forall i :: 0 <= i < |kept| ==> Normalize.ParseCount(kept[i].valid.text) == Ok(votes[i])
    requires forall i :: 0 <= i < |kept| ==> names[i] == Normalize.RidingName(kept[i].district.text)
    ensures |out| == |kept|
    ensures forall i :: 0 <= i < |kept| ==> TurnoutRecord(kept, codes, i, out[i])
  {
    seq(|kept|, i requires 0 <= i < |kept| => Turnout(Dicts.Get(codes, names[i]), voters[i], votes[i]))
  }

  /** One column of the kept turnout rows. */
  function Column(kept: seq<TurnoutRow>, field: TurnoutRow -> Cell): (c: seq<Cell>)
    ensures |c| == |kept| && forall i :: 0 <= i < |kept| ==> c[i] == field(kept[i])
  {
    seq(|kept|, i requires 0 <= i < |kept| => field(kept[i]))
  }

  function Electors(t: TurnoutRow): Cell { t.electors }
  function Valid(t: TurnoutRow): Cell { t.valid }
  function DistrictLabel(t: TurnoutRow): Cell { t.district }

  /** Every kept row has a district label, a number of electors and a number
      of valid ballots. */
  predicate TurnoutParses(kept: seq<TurnoutRow>) {
    forall i :: 0 <= i < |kept| ==>
      && kept[i].district.Text?
      && kept[i].electors.Text?
      && kept[i].valid.Text?
      && Normalize.ParseCount(kept[i].electors.text).Ok?
      && Normalize.ParseCount(kept[i].valid.text).Ok?
  }

  /** `t` is the turnout record made from the `i`-th kept row with the
      name -> code dictionary `codes`. */
  predicate TurnoutRecord(kept: seq<TurnoutRow>, codes: Dicts.Dict<string, Code>, i: int, t: Turnout<Option<Code>>)
    requires 0 <= i < |kept| && TurnoutParses(kept)
  {
    && Normalize.ParseCount(kept[i].electors.text) == Ok(t.voters)
    && Normalize.ParseCount(kept[i].valid.text) == Ok(t.votes)
    && t.district == Dicts.Get(codes, Normalize.RidingName(kept[i].district.text))
  }

  /** The normalised district names of the kept turnout rows (an empty cell
      gives the empty name; such a table is rejected before names are used). */
  function TurnoutNames(kept: seq<TurnoutRow>): (names: seq<string>)
    ensures |names| == |kept|
    ensures forall i :: 0 <= i < |kept| && kept[i].district.Text? ==> names[i] == Normalize.RidingName(kept[i].district.text)
  {
    seq(|kept|, i requires 0 <= i < |kept| => if kept[i].district.Text? then Normalize.RidingName(kept[i].district.text) else "")
  }

  /** The name -> code dictionary `load_table11` picks: the 2004 one when a
      2004-only name is present, the standard one otherwise. */
  function CodesFor(names: seq<string>, codes2004: Dicts.Dict<string, Code>, codesStandard: Dicts.Dict<string, Code>)
    : (codes: Dicts.Dict<string, Code>)
    ensures Marker2004 in names ==> codes == codes2004
    ensures Marker2004 !in names ==> codes == codesStandard
  {
    if Marker2004 in names then codes2004 else codesStandard
  }
}
