/** The vote aggregator `get_vote_count`: one row per district with the
    votes of the four tracked parties, found by substring matches on the
    candidate-and-affiliation labels. */
module Aggregate {
  import opened Wrappers
  import opened Records
  import Text
  import Seqs

  /** The tracked parties, in the column order of the vote table. */
  datatype Party = Liberal | Conservative | NDP | BQ

  const Parties: seq<Party> := [Liberal, Conservative, NDP, BQ]

  /** The label fragment that identifies each party. "Bloc Qu" avoids both
      candidate names containing "Bloc" and the accented letter of "Québécois". */
  function Fragment(p: Party): string {
    match p
    case Liberal => "Liberal"
    case Conservative => "Conservative"
    case NDP => "N.D.P."
    case BQ => "Bloc Qu"
  }

  /** The 2008 and 2011 abbreviation of the New Democratic Party. */
  const NdpVariant: string := "NDP"

  /** The four party columns of one district. */
  datatype Tally = Tally(liberal: nat, conservative: nat, ndp: nat, bq: nat) {

    function Get(p: Party): nat {
      match p
      case Liberal => liberal
      case Conservative => conservative
      case NDP => ndp
      case BQ => bq
    }

    /** The tally with column `p` set to `v` and the other columns kept. */
    function Set(p: Party, v: nat): (t: Tally)
      ensures t.Get(p) == v
      ensures forall q :: q != p ==> t.Get(q) == Get(q)
    {
      match p
      case Liberal => this.(liberal := v)
      case Conservative => this.(conservative := v)
      case NDP => this.(ndp := v)
      case BQ => this.(bq := v)
    }

    /** The votes of the four tracked parties together. */
    function Total(): nat {
      liberal + conservative + ndp + bq
    }
  }

  /** The zero-initialised row of a new district. */
  const Zero: Tally := Tally(0, 0, 0, 0)

  /** One inner-loop step of the scan for `party` over candidate `c`: a label
      with the party's fragment writes the party's column; otherwise a label
      with "NDP" writes the N.D.P. column. */
  function Step(t: Tally, party: Party, c: Candidate<Code>): Tally {
    if Text.Contains(c.affiliation, Fragment(party)) then t.Set(party, c.count)
    else if Text.Contains(c.affiliation, NdpVariant) then t.Set(NDP, c.count)
    else t
  }

  /** The column that the scan for `party` writes for a candidate labelled `affiliation`. */
  predicate Writes(party: Party, affiliation: string, column: Party) {
    if Text.Contains(affiliation, Fragment(party)) then column == party
    else Text.Contains(affiliation, NdpVariant) && column == NDP
  }

  /** The inner loop: one party's scan over the rows of a district. */
  function Pass(t: Tally, party: Party, rows: seq<Candidate<Code>>): Tally {
    if |rows| == 0 then t
    else Step(Pass(t, party, rows[..|rows| - 1]), party, rows[|rows| - 1])
  }

  /** The middle loop: the scans of `parties`, one after the other. */
  function Scan(t: Tally, parties: seq<Party>, rows: seq<Candidate<Code>>): Tally {
    if |parties| == 0 then t
    else Pass(Scan(t, parties[..|parties| - 1], rows), parties[|parties| - 1], rows)
  }

  /** The count of the last row whose label satisfies `m`, if any. */
  function LastMatch(rows: seq<Candidate<Code>>, m: string -> bool): (r: Option<nat>)
    ensures r.Some? <==> exists i :: 0 <= i < |rows| && m(rows[i].affiliation)
    ensures r.Some? ==> exists i :: 0 <= i < |rows| && m(rows[i].affiliation) && rows[i].count == r.value
                                    && forall j :: i < j < |rows| ==> !m(rows[j].affiliation)
  {
    if |rows| == 0 then None
    else
      var last := rows[|rows| - 1];
      if m(last.affiliation) then Some(last.count)
      else
        var r := LastMatch(rows[..|rows| - 1], m);
        assert forall i :: 0 <= i < |rows| - 1 ==> rows[i] == rows[..|rows| - 1][i];
        r
  }

  /** The first of two optional values that is present. */
  function OrElse(a: Option<nat>, b: Option<nat>): Option<nat> {
    if a.Some? then a else b
  }

  /** The party columns `get_vote_count` leaves for a district's rows, stated
      without the loops: the Liberal, Conservative and Bloc columns hold the
      count of the last row whose label contains the party's fragment (0 if
      none does); the N.D.P. column holds the count of the last row whose
      label contains "NDP" but not "Bloc Qu", failing that of the last row
      containing "N.D.P." or "NDP", failing that 0. */
  function DistrictTally(rows: seq<Candidate<Code>>): Tally {
    Tally(
      LastMatch(rows, (l: string) => Text.Contains(l, Fragment(Liberal))).GetOr(0),
      LastMatch(rows, (l: string) => Text.Contains(l, Fragment(Conservative))).GetOr(0),
      OrElse(
        LastMatch(rows, (l: string) => Text.Contains(l, NdpVariant) && !Text.Contains(l, Fragment(BQ))),
        LastMatch(rows, (l: string) => Text.Contains(l, Fragment(NDP)) || Text.Contains(l, NdpVariant))
      ).GetOr(0),
      LastMatch(rows, (l: string) => Text.Contains(l, Fragment(BQ))).GetOr(0))
  }

  /** A party's scan leaves each column at the count of the last row it
      writes into that column, or at its previous value. */
  lemma {:induction false} PassLastWrite(t: Tally, party: Party, rows: seq<Candidate<Code>>, column: Party)
    ensures Pass(t, party, rows).Get(column)
         == LastMatch(rows, (l: string) => Writes(party, l, column)).GetOr(t.Get(column))
  {
    if |rows| > 0 {
      PassLastWrite(t, party, rows[..|rows| - 1], column);
    }
  }

  lemma {:induction false} LastMatchSame(rows: seq<Candidate<Code>>, f: string -> bool, g: string -> bool)
    requires forall l :: f(l) == g(l)
    ensures LastMatch(rows, f) == LastMatch(rows, g)
  {
    if |rows| > 0 {
      LastMatchSame(rows[..|rows| - 1], f, g);
    }
  }

  lemma LastMatchNever(rows: seq<Candidate<Code>>, f: string -> bool)
    requires forall l :: !f(l)
    ensures LastMatch(rows, f) == None
  {
  }

  lemma LastMatchWeaker(rows: seq<Candidate<Code>>, f: string -> bool, g: string -> bool)
    requires forall l :: f(l) ==> g(l)
    requires LastMatch(rows, g) == None
    ensures LastMatch(rows, f) == None
  {
  }

  /** The four scans in the order Liberal, Conservative, N.D.P., Bloc leave
      the closed-form tally. */
  lemma ScanIsDistrictTally(rows: seq<Candidate<Code>>)
    ensures Scan(Zero, Parties, rows) == DistrictTally(rows)
  {
    assert Parties[..3] == [Liberal, Conservative, NDP];
    assert Parties[..3][..2] == [Liberal, Conservative];
    assert Parties[..3][..2][..1] == [Liberal];
    assert [Liberal][..0] == [];
    var t1 := Pass(Zero, Liberal, rows);
    var t2 := Pass(t1, Conservative, rows);
    var t3 := Pass(t2, NDP, rows);
    var t4 := Pass(t3, BQ, rows);
    assert Scan(Zero, [Liberal], rows) == t1;
    assert Scan(Zero, [Liberal, Conservative], rows) == t2;
    assert Scan(Zero, [Liberal, Conservative, NDP], rows) == t3;
    assert Scan(Zero, Parties, rows) == t4;
    var d := DistrictTally(rows);

    forall column: Party ensures t4.Get(column) == d.Get(column) {
      PassLastWrite(Zero, Liberal, rows, column);
      PassLastWrite(t1, Conservative, rows, column);
      PassLastWrite(t2, NDP, rows, column);
      PassLastWrite(t3, BQ, rows, column);
      ColumnByColumn(rows, column);
    }
    assert t4.Get(Liberal) == d.Get(Liberal) && t4.Get(Conservative) == d.Get(Conservative);
    assert t4.Get(NDP) == d.Get(NDP) && t4.Get(BQ) == d.Get(BQ);
  }

  lemma ColumnByColumn(rows: seq<Candidate<Code>>, column: Party)
    ensures var t1 := LastMatch(rows, (l: string) => Writes(Liberal, l, column)).GetOr(0);
            var t2 := LastMatch(rows, (l: string) => Writes(Conservative, l, column)).GetOr(t1);
            var t3 := LastMatch(rows, (l: string) => Writes(NDP, l, column)).GetOr(t2);
            var t4 := LastMatch(rows, (l: string) => Writes(BQ, l, column)).GetOr(t3);
            t4 == DistrictTally(rows).Get(column)
  {
    var wl := (l: string) => Writes(Liberal, l, column);
    var wc := (l: string) => Writes(Conservative, l, column);
    var wn := (l: string) => Writes(NDP, l, column);
    var wb := (l: string) => Writes(BQ, l, column);
    match column
    case Liberal =>
      LastMatchNever(rows, wc);
      LastMatchNever(rows, wn);
      LastMatchNever(rows, wb);
      LastMatchSame(rows, wl, (l: string) => Text.Contains(l, Fragment(Liberal)));
    case Conservative =>
      LastMatchNever(rows, wl);
      LastMatchNever(rows, wn);
      LastMatchNever(rows, wb);
      LastMatchSame(rows, wc, (l: string) => Text.Contains(l, Fragment(Conservative)));
    case BQ =>
      LastMatchNever(rows, wl);
      LastMatchNever(rows, wc);
      LastMatchNever(rows, wn);
      LastMatchSame(rows, wb, (l: string) => Text.Contains(l, Fragment(BQ)));
    case NDP =>
      LastMatchSame(rows, wb, (l: string) => Text.Contains(l, NdpVariant) && !Text.Contains(l, Fragment(BQ)));
      LastMatchSame(rows, wn, (l: string) => Text.Contains(l, Fragment(NDP)) || Text.Contains(l, NdpVariant));
      if LastMatch(rows, wn) == None {
        LastMatchWeaker(rows, wc, wn);
        LastMatchWeaker(rows, wl, wn);
      }
  }

  /** The labels whose rows can supply column `column` of the closed-form
      tally. */
  predicate Claims(affiliation: string, column: Party) {
    match column
    case NDP => Text.Contains(affiliation, Fragment(NDP)) || Text.Contains(affiliation, NdpVariant)
    case _ => Text.Contains(affiliation, Fragment(column))
  }

  /** A label that can supply at most one party column. */
  predicate SingleParty(affiliation: string) {
    forall p, q :: Claims(affiliation, p) && Claims(affiliation, q) ==> p == q
  }

  /** The votes of all the rows together. */
  function SumCounts(rows: seq<Candidate<Code>>): nat {
    if |rows| == 0 then 0 else SumCounts(rows[..|rows| - 1]) + rows[|rows| - 1].count
  }

  /** Appending a row leaves each column as it was, or sets it to the new
      row's count when the row's label claims the column. */
  lemma ColumnStep(rows: seq<Candidate<Code>>, column: Party)
    requires |rows| > 0
    ensures var last := rows[|rows| - 1];
            || DistrictTally(rows).Get(column) == DistrictTally(rows[..|rows| - 1]).Get(column)
            || (Claims(last.affiliation, column) && DistrictTally(rows).Get(column) == last.count)
  {
  }

  /** When no label claims two columns, the four columns together never
      exceed the votes of the district's rows, so the "Others" residual
      against a total that includes every row is not negative. */
  lemma {:induction false} TallyWithinCounts(rows: seq<Candidate<Code>>)
    requires forall i :: 0 <= i < |rows| ==> SingleParty(rows[i].affiliation)
    ensures DistrictTally(rows).Total() <= SumCounts(rows)
  {
    if |rows| > 0 {
      var init := rows[..|rows| - 1];
      var last := rows[|rows| - 1];
      TallyWithinCounts(init);
      ColumnStep(rows, Liberal);
      ColumnStep(rows, Conservative);
      ColumnStep(rows, NDP);
      ColumnStep(rows, BQ);
      assert SingleParty(last.affiliation);
    }
  }

  /** The candidate rows of district `d`, in table order (`df[df[col] == d]`). */
  function InDistrict(rows: seq<Candidate<Code>>, d: Code): (r: seq<Candidate<Code>>)
    ensures forall c :: c in r <==> c in rows && c.district == d
  {
    Seqs.Filter(rows, (c: Candidate<Code>) => c.district == d)
  }

  /** One row of the vote table. */
  datatype VoteRow = VoteRow(district: Code, tally: Tally)

  /** The district column of a vote table. */
  function TableDistricts(table: seq<VoteRow>): (ds: seq<Code>)
    ensures |ds| == |table| && forall k :: 0 <= k < |table| ==> ds[k] == table[k].district
  {
    seq(|table|, k requires 0 <= k < |table| => table[k].district)
  }

  /** The vote table, stated without loops: one row per distinct district, in
      order of first appearance, each holding its closed-form tally. */
  function VoteTable(rows: seq<Candidate<Code>>): (table: seq<VoteRow>)
    ensures Seqs.NoDuplicates(TableDistricts(table))
    ensures forall d :: d in TableDistricts(table) <==> d in DistrictsOf(rows)
    ensures forall j, k :: 0 <= j < k < |table| ==>
      && table[j].district in DistrictsOf(rows) && table[k].district in DistrictsOf(rows)
      && Seqs.FirstIndex(DistrictsOf(rows), table[j].district) < Seqs.FirstIndex(DistrictsOf(rows), table[k].district)
    ensures forall k :: 0 <= k < |table| ==> table[k].tally == DistrictTally(InDistrict(rows, table[k].district))
  {
    var ds := Seqs.Unique(DistrictsOf(rows));
    var table := RowsFor(rows, ds);
    assert TableDistricts(table) == ds;
    table
  }

  /** The vote-table rows of districts `ds`, in that order. */
  function RowsFor(rows: seq<Candidate<Code>>, ds: seq<Code>): (table: seq<VoteRow>)
    ensures |table| == |ds|
    ensures forall k :: 0 <= k < |ds| ==> table[k] == VoteRow(ds[k], DistrictTally(InDistrict(rows, ds[k])))
  {
    if |ds| == 0 then []
    else RowsFor(rows, ds[..|ds| - 1]) + [VoteRow(ds[|ds| - 1], DistrictTally(InDistrict(rows, ds[|ds| - 1])))]
  }

  /** `get_vote_count` as written: for each district in order of first
      appearance, the party columns its rows leave (see `TallyDistrict`). */
  method GetVoteCount(rows: seq<Candidate<Code>>) returns (table: seq<VoteRow>)
    ensures table == VoteTable(rows)
  {
    var districts := Seqs.Unique(DistrictsOf(rows));
    table := [];
    var k := 0;
    while k < |districts|
      invariant 0 <= k <= |districts|
      invariant table == RowsFor(rows, districts[..k])
    {
      var d := districts[k];
      var t := TallyDistrict(InDistrict(rows, d));
      assert districts[..k + 1][..k] == districts[..k];
      table := table + [VoteRow(d, t)];
      k := k + 1;
    }
    assert districts[..k] == districts;
  }

  /** The loops of `get_vote_count` over one district's rows: for each party,
      for each row, a label with the party's fragment overwrites that party's
      column, and otherwise a label with "NDP" overwrites the N.D.P. column. */
  method TallyDistrict(inDistrict: seq<Candidate<Code>>) returns (t: Tally)
    ensures t == DistrictTally(inDistrict)
  {
    t := Zero;
    var p := 0;
    while p < |Parties|
      invariant 0 <= p <= |Parties|
      invariant t == Scan(Zero, Parties[..p], inDistrict)
    {
      var party := Parties[p];
      ghost var start := t;
      var i := 0;
      while i < |inDistrict|
        invariant 0 <= i <= |inDistrict|
        invariant t == Pass(start, party, inDistrict[..i])
      {
        var c := inDistrict[i];
        ghost var before := t;
        if Text.Contains(c.affiliation, Fragment(party)) {
          t := t.Set(party, c.count);
        } else if Text.Contains(c.affiliation, NdpVariant) {
          t := t.Set(NDP, c.count);
        }
        assert t == Step(before, party, c);
        assert inDistrict[..i + 1][..i] == inDistrict[..i];
        assert Pass(start, party, inDistrict[..i + 1]) == Step(Pass(start, party, inDistrict[..i]), party, c);
        i := i + 1;
      }
      assert inDistrict[..i] == inDistrict;
      assert Parties[..p + 1][..p] == Parties[..p];
      assert Scan(Zero, Parties[..p + 1], inDistrict) == Pass(Scan(Zero, Parties[..p], inDistrict), party, inDistrict);
      p := p + 1;
    }
    assert Parties[..p] == Parties;
    ScanIsDistrictTally(inDistrict);
  }
}
