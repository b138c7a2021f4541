/** The last stage of the data collection: join the vote table with the
    turnout table, add the "Others" and "Elected" columns, correct the known
    independent winners, attach the province and sort by district code. */
module Dataset {
  import opened Wrappers
  import opened Records
  import opened Aggregate

  /** A district's row after the inner join of the vote table with the
      turnout table on the district code. */
  datatype Merged = Merged(district: Code, tally: Tally, voters: nat, votes: nat)

  /** The joined row of a vote-table row and a turnout record. */
  function Combine(v: VoteRow, t: Turnout<Option<Code>>): Merged {
    Merged(v.district, v.tally, t.voters, t.votes)
  }

  /** The joined rows of `v` with the turnout records, in turnout order. */
  function Matches(v: VoteRow, turnout: seq<Turnout<Option<Code>>>): (r: seq<Merged>)
    ensures forall m :: m in r <==> exists t :: t in turnout && t.district == Some(v.district) && m == Combine(v, t)
  {
    if |turnout| == 0 then []
    else
      var t := turnout[0];
      var rest := Matches(v, turnout[1..]);
      assert forall u :: u in turnout <==> u == t || u in turnout[1..];
      if t.district == Some(v.district) then [Combine(v, t)] + rest else rest
  }

  /** `data.merge(t11, on='District')`: an inner join that keeps the order of
      the vote table and, within one district, the order of the turnout
      table. A turnout record whose name had no code (NaN) matches nothing:
      the vote table's codes are never missing here, because re-keying
      table 12 fails on a name it cannot map instead of leaving NaN. */
  function Merge(counts: seq<VoteRow>, turnout: seq<Turnout<Option<Code>>>): (r: seq<Merged>)
    ensures forall m :: m in r <==>
      exists v, t :: v in counts && t in turnout && t.district == Some(v.district) && m == Combine(v, t)
  {
    if |counts| == 0 then []
    else
      var v := counts[|counts| - 1];
      var init := Merge(counts[..|counts| - 1], turnout);
      assert forall w :: w in counts <==> w == v || w in counts[..|counts| - 1];
      init + Matches(v, turnout)
  }

  /** Where district codes are unique on both sides, every vote-table row
      with a turnout record appears exactly once in the join. */
  lemma {:induction false} MergeOneToOne(counts: seq<VoteRow>, turnout: seq<Turnout<Option<Code>>>, v: VoteRow, t: Turnout<Option<Code>>)
    requires v in counts && t in turnout && t.district == Some(v.district)
    requires forall i, j :: 0 <= i < j < |turnout| ==> turnout[i].district != turnout[j].district
    requires forall i, j :: 0 <= i < j < |counts| ==> counts[i].district != counts[j].district
    ensures multiset(Merge(counts, turnout))[Combine(v, t)] == 1
  {
    var w := counts[|counts| - 1];
    var init := counts[..|counts| - 1];
    if w == v {
      MatchesOnce(v, turnout, t);
      assert Combine(v, t) !in Merge(init, turnout);
    } else {
      MergeOneToOne(init, turnout, v, t);
      assert Combine(v, t) !in Matches(w, turnout);
    }
  }

  lemma {:induction false} MatchesOnce(v: VoteRow, turnout: seq<Turnout<Option<Code>>>, t: Turnout<Option<Code>>)
    requires t in turnout && t.district == Some(v.district)
    requires forall i, j :: 0 <= i < j < |turnout| ==> turnout[i].district != turnout[j].district
    ensures multiset(Matches(v, turnout))[Combine(v, t)] == 1
  {
    var u := turnout[0];
    var rest := turnout[1..];
    if u == t {
      assert Combine(v, t) !in Matches(v, rest);
    } else {
      assert t in rest;
      MatchesOnce(v, rest, t);
    }
  }

  /** The winner column: one of the four tracked parties, or "Others". */
  datatype Winner = Won(party: Party) | Others

  /** The position of a party among the vote-table columns. */
  function Rank(p: Party): nat {
    match p
    case Liberal => 0
    case Conservative => 1
    case NDP => 2
    case BQ => 3
  }

  /** `idxmax(axis=1)` over the four party columns: the party with the most
      votes, the leftmost one on a tie. */
  function Elected(t: Tally): (p: Party)
    ensures forall q :: t.Get(q) <= t.Get(p)
    ensures forall q :: Rank(q) < Rank(p) ==> t.Get(q) < t.Get(p)
  {
    var top := Max(Max(t.liberal, t.conservative), Max(t.ndp, t.bq));
    if t.liberal == top then Liberal
    else if t.conservative == top then Conservative
    else if t.ndp == top then NDP
    else BQ
  }

  function Max(a: nat, b: nat): nat {
    if a < b then b else a
  }

  /** The two properties of `Elected` pin it down. */
  lemma ElectedUnique(t: Tally, p: Party)
    requires forall q :: t.Get(q) <= t.Get(p)
    requires forall q :: Rank(q) < Rank(p) ==> t.Get(q) < t.Get(p)
    ensures p == Elected(t)
  {
    var e := Elected(t);
    assert t.Get(e) == t.Get(p);
  }

  /** The districts, per election year, won by a candidate outside the four
      tracked parties. */
  const Overrides: set<(int, Code)> := {(2004, 59028), (2006, 24051), (2008, 24051), (2008, 12007), (2011, 59024)}

  /** The winner column of a district: "Others" for the known exceptions of
      `year`, the preliminary `idxmax` winner otherwise. */
  function WinnerOf(year: int, district: Code, t: Tally): (w: Winner)
    ensures (year, district) in Overrides <==> w == Others
    ensures w.Won? ==> w.party == Elected(t)
  {
    if (year, district) in Overrides then Others else Won(Elected(t))
  }

  /** The prefixes `pt_dict` knows. */
  const Prefixes: set<int> := {10, 11, 12, 13, 24, 35, 46, 47, 48, 59, 60, 61, 62}

  /** `pt_dict`: province or territory by the first two digits of the code. */
  function PtDict(prefix: int): (r: Option<string>)
    ensures r.Some? <==> prefix in Prefixes
  {
    match prefix
    case 10 => Some("NL")
    case 11 => Some("PE")
    case 12 => Some("NS")
    case 13 => Some("NB")
    case 24 => Some("QC")
    case 35 => Some("ON")
    case 46 => Some("MB")
    case 47 => Some("SK")
    case 48 => Some("AB")
    case 59 => Some("BC")
    case 60 => Some("Territories")
    case 61 => Some("Territories")
    case 62 => Some("Territories")
    case _ => None
  }

  /** `pt_dict[code // 1000]`. For the positive divisor 1000, Dafny's
      Euclidean `/` agrees with Python's floor division `//`. */
  function Province(code: Code): (r: Option<string>)
    ensures r.Some? <==> code / 1000 in Prefixes
    ensures 60000 <= code < 63000 ==> r == Some("Territories")
  {
    PtDict(code / 1000)
  }

  /** The code 35075 lies in Ontario, 24051 in Quebec and 59028 in British Columbia. */
  lemma ProvinceExamples()
    ensures Province(35075) == Some("ON")
    ensures Province(24051) == Some("QC")
    ensures Province(59028) == Some("BC")
    ensures Province(9999) == None && Province(-1) == None
  {
  }

  /** One row of a year's dataset, in the final column order. */
  datatype Row = Row(
    district: Code, province: string, voters: nat, tally: Tally,
    others: int, votes: nat, elected: Winner)

  /** A dataset row of `year` is consistent when "Others" holds the valid
      ballots left after the four parties (negative if the table overcounts)
      and "Elected" holds the corrected winner. */
  predicate Consistent(year: int, row: Row) {
    && row.others + row.tally.Total() == row.votes
    && row.elected == WinnerOf(year, row.district, row.tally)
    && Province(row.district) == Some(row.province)
  }

  /** "Others" is not negative when the valid ballots cover every candidate
      row of the district and no label claims two party columns. */
  lemma OthersNonNegative(year: int, m: Merged, rows: seq<Candidate<Code>>)
    requires m.tally == DistrictTally(rows)
    requires SumCounts(rows) <= m.votes
    requires forall i :: 0 <= i < |rows| ==> SingleParty(rows[i].affiliation)
    requires m.district / 1000 in Prefixes
    ensures Summarise(year, m).Ok? && Summarise(year, m).value.others >= 0
  {
    TallyWithinCounts(rows);
  }

  /** `add_others`, `add_elected`, the corrections and `add_pt` on one joined
      row; a code whose prefix `pt_dict` lacks raises KeyError. */
  function Summarise(year: int, m: Merged): (r: Result<Row, Error>)
    ensures r.Ok? <==> m.district / 1000 in Prefixes
    ensures r.Err? ==> r.error == UnknownProvince(m.district / 1000)
    ensures r.Ok? ==> Consistent(year, r.value)
    ensures r.Ok? ==> && r.value.district == m.district && r.value.tally == m.tally
                      && r.value.voters == m.voters && r.value.votes == m.votes
  {
    match Province(m.district)
    case None => Err(UnknownProvince(m.district / 1000))
    case Some(p) =>
      Ok(Row(m.district, p, m.voters, m.tally, m.votes - m.tally.Total(), m.votes, WinnerOf(year, m.district, m.tally)))
  }

  /** The per-row stages over the whole joined table; the first row with an
      unknown prefix stops it. */
  function SummariseAll(year: int, ms: seq<Merged>): (r: Result<seq<Row>, Error>)
    ensures r.Ok? <==> forall i :: 0 <= i < |ms| ==> ms[i].district / 1000 in Prefixes
    ensures r.Ok? ==> |r.value| == |ms| && forall i :: 0 <= i < |ms| ==> Summarise(year, ms[i]) == Ok(r.value[i])
    ensures r.Err? ==> exists i :: 0 <= i < |ms| && r.error == UnknownProvince(ms[i].district / 1000)
                                   && ms[i].district / 1000 !in Prefixes
  {
    if |ms| == 0 then Ok([])
    else
      match Summarise(year, ms[0])
      case Err(e) => Err(e)
      case Ok(row) =>
        match SummariseAll(year, ms[1..])
        case Err(e) => Err(e)
        case Ok(rows) => Ok([row] + rows)
  }

  /** The rows are in non-decreasing order of district code. */
  predicate Sorted(rows: seq<Row>) {
    forall i, j :: 0 <= i < j < |rows| ==> rows[i].district <= rows[j].district
  }

  /** `row` placed into sorted `rows` before the first row with a code not below its own. */
  function Insert(row: Row, rows: seq<Row>): (r: seq<Row>)
    requires Sorted(rows)
    ensures Sorted(r)
    ensures multiset(r) == multiset(rows) + multiset{row}
  {
    if |rows| == 0 then [row]
    else if row.district <= rows[0].district then [row] + rows
    else
      SortedTail(rows);
      var rest := Insert(row, rows[1..]);
      InsertBehind(row, rows, rest);
      [rows[0]] + rest
  }

  /** Inserting behind the head of sorted `rows` keeps the head in front. */
  lemma InsertBehind(row: Row, rows: seq<Row>, rest: seq<Row>)
    requires Sorted(rows) && |rows| > 0 && rows[0].district < row.district
    requires Sorted(rest) && multiset(rest) == multiset(rows[1..]) + multiset{row}
    ensures Sorted([rows[0]] + rest)
    ensures multiset([rows[0]] + rest) == multiset(rows) + multiset{row}
  {
    assert rows == [rows[0]] + rows[1..];
    forall x | x in rest
      ensures rows[0].district <= x.district
    {
      assert x in multiset(rest);
    }
  }

  /** `sort_values(by='District')`: the rows ordered by district code. */
  function SortByDistrict(rows: seq<Row>): (r: seq<Row>)
    ensures Sorted(r)
    ensures multiset(r) == multiset(rows)
  {
    if |rows| == 0 then []
    else
      assert rows == [rows[0]] + rows[1..];
      Insert(rows[0], SortByDistrict(rows[1..]))
  }

  /** A sorted permutation of the rows is unique when the codes are distinct:
      sorting only fixes the order. */
  lemma {:induction false} SortedUnique(a: seq<Row>, b: seq<Row>)
    requires Sorted(a) && Sorted(b) && multiset(a) == multiset(b)
    requires forall i, j :: 0 <= i < j < |a| ==> a[i].district != a[j].district
    ensures a == b
    decreases |a|
  {
    if |a| > 0 {
      assert |b| > 0 && a[0] == b[0] by { SortedHead(a, b); }
      assert multiset(a[1..]) == multiset(b[1..]) by { TailMultiset(a); TailMultiset(b); }
      assert Sorted(a[1..]) && Sorted(b[1..]) by { SortedTail(a); SortedTail(b); }
      assert forall i, j :: 0 <= i < j < |a[1..]| ==> a[1..][i].district != a[1..][j].district by { SortedTail(a); }
      SortedUnique(a[1..], b[1..]);
      assert a == [a[0]] + a[1..];
      assert b == [b[0]] + b[1..];
    } else {
      assert |b| == |multiset(b)| == 0;
    }
  }

  /** Two sorted non-empty permutations with distinct codes start alike. */
  lemma SortedHead(a: seq<Row>, b: seq<Row>)
    requires Sorted(a) && Sorted(b) && multiset(a) == multiset(b) && |a| > 0
    requires forall i, j :: 0 <= i < j < |a| ==> a[i].district != a[j].district
    ensures |b| > 0 && a[0] == b[0]
  {
    assert a[0] in multiset(b);
    var i :| 0 <= i < |b| && b[i] == a[0];
    assert b[0] in multiset(a);
    var j :| 0 <= j < |a| && a[j] == b[0];
    assert a[j].district <= a[0].district;
  }

  lemma SortedTail(a: seq<Row>)
    requires Sorted(a) && |a| > 0
    ensures Sorted(a[1..])
    ensures (forall i, j :: 0 <= i < j < |a| ==> a[i].district != a[j].district) ==>
            forall i, j :: 0 <= i < j < |a| - 1 ==> a[1..][i].district != a[1..][j].district
  {
  }

  lemma TailMultiset(a: seq<Row>)
    requires |a| > 0
    ensures multiset(a[1..]) == multiset(a) - multiset{a[0]}
  {
    assert a == [a[0]] + a[1..];
  }

  /** `row` is the summary of a joined pair of a vote-table row and a
      turnout record. */
  ghost predicate FromJoin(year: int, counts: seq<VoteRow>, turnout: seq<Turnout<Option<Code>>>, row: Row) {
    exists v, t :: v in counts && t in turnout && t.district == Some(v.district) && Summarise(year, Combine(v, t)) == Ok(row)
  }

  /** Every summarised row of the join is consistent and comes from a joined pair. */
  lemma RowsFromJoin(year: int, counts: seq<VoteRow>, turnout: seq<Turnout<Option<Code>>>, rows: seq<Row>)
    requires SummariseAll(year, Merge(counts, turnout)) == Ok(rows)
    ensures forall row :: row in rows ==> Consistent(year, row) && FromJoin(year, counts, turnout, row)
  {
    var merged := Merge(counts, turnout);
    forall row | row in rows
      ensures Consistent(year, row) && FromJoin(year, counts, turnout, row)
    {
      var i :| 0 <= i < |rows| && rows[i] == row;
      assert Summarise(year, merged[i]) == Ok(row);
      assert merged[i] in merged;
    }
  }

  /** Two sequences with the same multiset have the same members. */
  lemma SameMembers(a: seq<Row>, b: seq<Row>)
    requires multiset(a) == multiset(b)
    ensures forall x :: x in a <==> x in b
  {
    forall x ensures x in a <==> x in b {
      assert x in a <==> x in multiset(a);
      assert x in b <==> x in multiset(b);
    }
  }

  /** The dataset of election `year` from its vote table and turnout table:
      join, summarise every row, sort by district. It fails exactly when some
      joined district has a code prefix outside `pt_dict`. */
  function BuildDataset(year: int, counts: seq<VoteRow>, turnout: seq<Turnout<Option<Code>>>): (r: Result<seq<Row>, Error>)
    ensures r.Ok? <==> forall m :: m in Merge(counts, turnout) ==> m.district / 1000 in Prefixes
    ensures r.Ok? ==> Sorted(r.value)
    ensures r.Ok? ==> |r.value| == |Merge(counts, turnout)|
    ensures r.Ok? ==> forall row :: row in r.value ==> Consistent(year, row) && FromJoin(year, counts, turnout, row)
    ensures r.Ok? ==> SummariseAll(year, Merge(counts, turnout)).Ok?
                      && multiset(r.value) == multiset(SummariseAll(year, Merge(counts, turnout)).value)
    ensures r.Err? ==> exists m :: m in Merge(counts, turnout) && m.district / 1000 !in Prefixes
                                   && r.error == UnknownProvince(m.district / 1000)
  {
    var merged := Merge(counts, turnout);
    var rows :- SummariseAll(year, merged);
    var sorted := SortByDistrict(rows);
    assert |sorted| == |multiset(sorted)| == |multiset(rows)| == |rows|;
    RowsFromJoin(year, counts, turnout, rows);
    SameMembers(sorted, rows);
    Ok(sorted)
  }

  /** The sort and the error path lose no joined pair: every vote-table row
      with a turnout record under its code has a dataset row carrying both. */
  lemma JoinCovered(year: int, counts: seq<VoteRow>, turnout: seq<Turnout<Option<Code>>>, rows: seq<Row>,
                    v: VoteRow, t: Turnout<Option<Code>>)
    requires BuildDataset(year, counts, turnout) == Ok(rows)
    requires v in counts && t in turnout && t.district == Some(v.district)
    ensures exists row :: row in rows && row.district == v.district && row.tally == v.tally
                          && row.voters == t.voters && row.votes == t.votes
  {
    var merged := Merge(counts, turnout);
    assert Combine(v, t) in merged;
    var j :| 0 <= j < |merged| && merged[j] == Combine(v, t);
    var summaries := SummariseAll(year, merged).value;
    assert Summarise(year, merged[j]) == Ok(summaries[j]);
    assert summaries[j] in multiset(summaries);
    assert summaries[j] in rows;
  }
}
