/** The district registry: the code -> name dictionaries of each election,
    the name corrections, the consistency checks, and the re-keying of
    name-keyed tables by code through the inverted dictionary. */
module Registry {
  import opened Wrappers
  import opened Records
  import Dicts
  import Normalize

  /** A code -> name dictionary of one election. */
  type Names = Dicts.Dict<Code, string>

  /** `get_riding_list` after the thirteen provincial tables are concatenated:
      the en dash of every name becomes a hyphen and the rows become a
      dictionary, the last row of a repeated code giving its name. */
  function RidingList(rows: seq<(Code, string)>): (d: Names)
    ensures Dicts.DistinctKeys(d)
    ensures Dicts.Keys(d) == Dicts.Keys(rows)
    ensures forall c :: Dicts.Get(d, c) == match Dicts.LastValue(rows, c)
                                          case None => None
                                          case Some(n) => Some(Normalize.ListName(n))
  {
    var cleaned := seq(|rows|, i requires 0 <= i < |rows| => (rows[i].0, Normalize.ListName(rows[i].1)));
    LastValueListName(rows);
    assert Dicts.Keys(cleaned) == Dicts.Keys(rows) by {
      forall c | c in Dicts.Keys(rows) ensures c in Dicts.Keys(cleaned) {
        var i :| 0 <= i < |rows| && rows[i].0 == c;
        assert cleaned[i].0 == c;
      }
    }
    Dicts.FromPairs(cleaned)
  }

  lemma {:induction false} LastValueListName(rows: seq<(Code, string)>)
    ensures var cleaned := seq(|rows|, i requires 0 <= i < |rows| => (rows[i].0, Normalize.ListName(rows[i].1)));
      forall c :: Dicts.LastValue(cleaned, c) == match Dicts.LastValue(rows, c)
                                                 case None => None
                                                 case Some(n) => Some(Normalize.ListName(n))
  {
    if |rows| > 0 {
      var init := rows[..|rows| - 1];
      LastValueListName(init);
      var cleaned := seq(|rows|, i requires 0 <= i < |rows| => (rows[i].0, Normalize.ListName(rows[i].1)));
      var cleanedInit := seq(|init|, i requires 0 <= i < |init| => (init[i].0, Normalize.ListName(init[i].1)));
      assert cleaned[..|cleaned| - 1] == cleanedInit;
    }
  }

  /** Every name of a riding list is free of the en dash. */
  lemma RidingListNames(rows: seq<(Code, string)>, c: Code)
    requires Dicts.Get(RidingList(rows), c).Some?
    ensures Normalize.EnDash !in Dicts.Get(RidingList(rows), c).value
  {
  }

  /** The names that `base` and the `others` attribute to code `c` (a missing
      code is NaN, which `nunique` does not count). */
  function NamesOf(base: Names, others: seq<Names>, c: Code): set<string>
  {
    var cycles := [base] + others;
    set i | 0 <= i < |cycles| && Dicts.Get(cycles[i], c).Some? :: Dicts.Get(cycles[i], c).value
  }

  /** The codes of `base` that are given more than one name across the
      elections (the `namecount > 1` rows of the joined name table). */
  function DriftedCodes(base: Names, others: seq<Names>): (r: set<Code>)
    ensures forall c :: c in r <==>
      && c in Dicts.Keys(base)
      && exists a, b :: a in NamesOf(base, others, c) && b in NamesOf(base, others, c) && a != b
  {
    var r := set c | c in Dicts.Keys(base) && |NamesOf(base, others, c)| > 1;
    forall c ensures |NamesOf(base, others, c)| > 1 <==>
      exists a, b :: a in NamesOf(base, others, c) && b in NamesOf(base, others, c) && a != b
    {
      TwoElements(NamesOf(base, others, c));
    }
    r
  }

  lemma TwoElements(s: set<string>)
    ensures |s| > 1 <==> exists a, b :: a in s && b in s && a != b
  {
    if |s| > 1 {
      var a :| a in s;
      assert |s - {a}| == |s| - 1;
      var b :| b in s - {a};
    } else if exists a, b :: a in s && b in s && a != b {
      var a, b :| a in s && b in s && a != b;
      assert {a, b} <= s;
      assert |{a, b}| == 2;
      SubsetSize({a, b}, s);
    }
  }

  lemma SubsetSize(a: set<string>, b: set<string>)
    requires a <= b
    ensures |a| <= |b|
  {
    assert b == a + (b - a);
  }

  /** The district that every election's table records under the wrong name. */
  const WesternArcticCode: Code := 61001
  const WesternArctic: string := "Western Arctic"
  const NorthwestTerritories: string := "Northwest Territories"

  /** `rd_dict[61001] = 'Western Arctic'`: the correction of the standard
      (2011) dictionary. Only code 61001 changes. */
  function CorrectStandard(d: Names): (r: Names)
    ensures Dicts.Get(r, WesternArcticCode) == Some(WesternArctic)
    ensures forall c :: c != WesternArcticCode ==> Dicts.Get(r, c) == Dicts.Get(d, c)
    ensures Dicts.Keys(r) == Dicts.Keys(d) + {WesternArcticCode}
    ensures Dicts.DistinctKeys(d) ==> Dicts.DistinctKeys(r)
  {
    Dicts.Set(d, WesternArcticCode, WesternArctic)
  }

  /** `replace('Northwest Territories', 'Western Arctic')` on the published
      2011 name table. */
  function RenameNorthwestTerritories(d: Names): Names
  {
    Dicts.ReplaceValue(d, NorthwestTerritories, WesternArctic)
  }

  /** The two 2011 corrections agree when 61001 is the one code recorded as
      "Northwest Territories": the published name table then matches the
      corrected dictionary code for code. */
  lemma RenameMatchesCorrection(d: Names)
    requires Dicts.Get(d, WesternArcticCode) == Some(NorthwestTerritories)
    requires forall c :: c != WesternArcticCode ==> Dicts.Get(d, c) != Some(NorthwestTerritories)
    ensures forall c :: Dicts.Get(RenameNorthwestTerritories(d), c) == Dicts.Get(CorrectStandard(d), c)
  {
  }

  /** The names the 2004 result tables print for the codes whose 2004
      district-list name differs, code by code (`corr_list`). */
  const CorrList: seq<(Code, string)> := [
    (10002, "Bonavista-Exploits"),
    (10006, "St. John's North"),
    (10007, "St. John's South"),
    (12007, "North Nova"),
    (13004, "Fundy"),
    (13008, "St. Croix-Belleisle"),
    (24004, "Argenteuil-Mirabel"),
    (24007, "Beauport"),
    (24013, "Charlesbourg"),
    (24014, "Charlevoix-Montmorency"),
    (24031, "Laurier"),
    (24035, "Longueuil"),
    (24041, "Matap\U{e9}dia-Matane"),
    (24046, "Nunavik-Eeyou"),
    (24051, "Portneuf"),
    (24054, "Richelieu"),
    (24056, "Rimouski-T\U{e9}miscouata"),
    (24058, "Rivi\U{e8}re-du-Loup-Montmagny"),
    (24060, "Roberval"),
    (35012, "Carleton-Lanark"),
    (35014, "Clarington-Scugog-Uxbridge"),
    (35026, "Grey-Bruce-Owen Sound"),
    (35046, "Middlesex-Kent-Lambton"),
    (46002, "Charleswood-St. James"),
    (46004, "Dauphin-Swan River"),
    (47003, "Churchill River"),
    (48001, "Athabasca"),
    (48003, "Calgary North Centre"),
    (48006, "Calgary South Centre"),
    (48011, "Edmonton-Beaumont"),
    (59007, "Dewdney-Alouette"),
    (59010, "Kamloops-Thompson"),
    (59011, "Kelowna"),
    (59018, "North Okanagan-Shuswap"),
    (59026, "Southern Interior"),
    (59036, "West Vancouver-Sunshine Coast"),
    (61001, "Western Arctic")
  ]

  /** The correction list names each code once (its codes ascend strictly). */
  lemma CorrListDistinct()
    ensures Dicts.DistinctKeys(CorrList)
  {
    assert forall i :: 0 < i < |CorrList| ==> CorrList[i - 1].0 < CorrList[i].0;
    AscendingDistinct(CorrList);
  }

  lemma {:induction false} AscendingDistinct(ps: seq<(Code, string)>)
    requires forall i :: 0 < i < |ps| ==> ps[i - 1].0 < ps[i].0
    ensures forall i, j :: 0 <= i < j < |ps| ==> ps[i].0 < ps[j].0
    ensures Dicts.DistinctKeys(ps)
  {
    if |ps| > 1 {
      var tail := ps[1..];
      AscendingDistinct(tail);
      forall i, j | 0 <= i < j < |ps| ensures ps[i].0 < ps[j].0 {
        if i == 0 {
          if j > 1 {
            assert tail[0].0 < tail[j - 1].0;
          }
        } else {
          assert tail[i - 1].0 < tail[j - 1].0;
        }
      }
    }
  }

  /** `for key, value in corr_list: dict_04[key] = value`: every listed code
      takes its corrected name, every other code keeps its 2004 name. */
  function Correct2004(d: Names): (r: Names)
    ensures forall i :: 0 <= i < |CorrList| ==> Dicts.Get(r, CorrList[i].0) == Some(CorrList[i].1)
    ensures forall c :: c !in Dicts.Keys(CorrList) ==> Dicts.Get(r, c) == Dicts.Get(d, c)
    ensures Dicts.DistinctKeys(d) ==> Dicts.DistinctKeys(r)
  {
    CorrListDistinct();
    forall i | 0 <= i < |CorrList|
      ensures Dicts.LastValue(CorrList, CorrList[i].0) == Some(CorrList[i].1)
    {
      Dicts.LastValueDistinct(CorrList, i);
    }
    Dicts.SetAll(d, CorrList)
  }

  /** After both corrections, code 61001 has one name across the 2004 and
      2011 dictionaries, so the drift check no longer reports it. */
  lemma WesternArcticReconciled(d2004: Names, d2011: Names)
    ensures WesternArcticCode !in DriftedCodes(Correct2004(d2004), [CorrectStandard(d2011)])
  {
    var base := Correct2004(d2004);
    CorrListLast();
    SingleName(base, [CorrectStandard(d2011)], WesternArcticCode, WesternArctic);
  }

  lemma CorrListLast()
    ensures CorrList[|CorrList| - 1] == (WesternArcticCode, WesternArctic)
  {
  }

  /** A code that every dictionary either lacks or gives the name `n`, and
      the base dictionary gives `n`, has the single name `n`. */
  lemma SingleName(base: Names, others: seq<Names>, c: Code, n: string)
    requires Dicts.Get(base, c) == Some(n)
    requires forall i :: 0 <= i < |others| && Dicts.Get(others[i], c).Some? ==> Dicts.Get(others[i], c).value == n
    ensures NamesOf(base, others, c) == {n}
  {
    var cycles := [base] + others;
    forall m | m in NamesOf(base, others, c) ensures m == n {
      var i :| 0 <= i < |cycles| && Dicts.Get(cycles[i], c).Some? && Dicts.Get(cycles[i], c).value == m;
      if i > 0 {
        assert cycles[i] == others[i - 1];
      }
    }
    assert cycles[0] == base;
  }

  /** The names in `names` that `d` does not know: the set differences
      `set_yy.difference(set_rd)` and `set_04.difference(set_04_new)`. */
  function UnknownNames(names: seq<string>, d: Names): (r: set<string>)
    ensures forall n :: n in r <==> n in names && n !in Dicts.Values(d)
  {
    (set i | 0 <= i < |names| :: names[i]) - Dicts.Values(d)
  }

  /** `Series.map(mapping)` on the district column, failing on the first name
      the name -> code dictionary lacks (where pandas would leave a NaN). */
  function Rekey(rows: seq<Candidate<string>>, codes: Dicts.Dict<string, Code>): (r: Result<seq<Candidate<Code>>, Error>)
    ensures r.Ok? <==> forall i :: 0 <= i < |rows| ==> rows[i].district in Dicts.Keys(codes)
    ensures r.Ok? ==> |r.value| == |rows|
    ensures r.Ok? ==> forall i :: 0 <= i < |rows| ==>
      && Dicts.Get(codes, rows[i].district) == Some(r.value[i].district)
      && r.value[i].affiliation == rows[i].affiliation
      && r.value[i].count == rows[i].count
    ensures r.Err? ==> exists i :: 0 <= i < |rows| && r.error == UnknownDistrict(rows[i].district)
                                   && rows[i].district !in Dicts.Keys(codes)
                                   && forall j :: 0 <= j < i ==> rows[j].district in Dicts.Keys(codes)
  {
    if forall i :: 0 <= i < |rows| ==> rows[i].district in Dicts.Keys(codes) then
      Ok(seq(|rows|, i requires 0 <= i < |rows| && rows[i].district in Dicts.Keys(codes) =>
        Candidate(Dicts.Get(codes, rows[i].district).value, rows[i].affiliation, rows[i].count)))
    else
      Err(UnknownDistrict(rows[FirstUnknown(rows, codes)].district))
  }

  /** The position of the first row whose district `codes` lacks. */
  function FirstUnknown(rows: seq<Candidate<string>>, codes: Dicts.Dict<string, Code>): (n: nat)
    requires exists i :: 0 <= i < |rows| && rows[i].district !in Dicts.Keys(codes)
    ensures n < |rows| && rows[n].district !in Dicts.Keys(codes)
    ensures forall j :: 0 <= j < n ==> rows[j].district in Dicts.Keys(codes)
  {
    if rows[0].district !in Dicts.Keys(codes) then 0
    else
      var i :| 0 <= i < |rows| && rows[i].district !in Dicts.Keys(codes);
      assert rows[1..][i - 1] == rows[i];
      1 + FirstUnknown(rows[1..], codes)
  }

  /** The two checks of the program agree: re-keying by the inverted dictionary
      leaves no NaN exactly when no name of the table is unknown to the
      dictionary; each row's new code then names the row's district. */
  lemma RekeyByInverse(rows: seq<Candidate<string>>, d: Names)
    requires Dicts.DistinctKeys(d)
    ensures Rekey(rows, Dicts.Invert(d)).Ok? <==> UnknownNames(DistrictsOf(rows), d) == {}
    ensures Rekey(rows, Dicts.Invert(d)).Err? ==>
      && Rekey(rows, Dicts.Invert(d)).error.UnknownDistrict?
      && Rekey(rows, Dicts.Invert(d)).error.name in UnknownNames(DistrictsOf(rows), d)
    ensures Rekey(rows, Dicts.Invert(d)).Ok? ==>
      forall i :: 0 <= i < |rows| ==>
        Dicts.Get(d, Rekey(rows, Dicts.Invert(d)).value[i].district) == Some(rows[i].district)
  {
    Dicts.InvertKeys(d);
    var names := DistrictsOf(rows);
    if UnknownNames(names, d) == {} {
      forall i | 0 <= i < |rows| ensures rows[i].district in Dicts.Values(d) {
        assert names[i] == rows[i].district && names[i] in names;
        assert names[i] !in UnknownNames(names, d);
      }
    } else {
      var n :| n in UnknownNames(names, d);
      var i :| 0 <= i < |names| && names[i] == n;
    }
    if Rekey(rows, Dicts.Invert(d)).Ok? {
      forall i | 0 <= i < |rows|
        ensures Dicts.Get(d, Rekey(rows, Dicts.Invert(d)).value[i].district) == Some(rows[i].district)
      {
        Dicts.InvertThenGet(d, rows[i].district);
      }
    }
  }

  /** The name -> code dictionary for the 2004 tables. */
  function Codes2004(list2004: seq<(Code, string)>): Dicts.Dict<string, Code>
  {
    Dicts.Invert(Correct2004(RidingList(list2004)))
  }

  /** The name -> code dictionary for the 2006, 2008 and 2011 tables. */
  function CodesStandard(list2011: seq<(Code, string)>): Dicts.Dict<string, Code>
  {
    Dicts.Invert(CorrectStandard(RidingList(list2011)))
  }

  /** A corrected 2004 dictionary whose names are distinct is undone by its
      inverse: every code comes back from its own name. */
  lemma Codes2004RoundTrip(list2004: seq<(Code, string)>, c: Code)
    requires Dicts.DistinctValues(Correct2004(RidingList(list2004)))
    requires c in Dicts.Keys(Correct2004(RidingList(list2004)))
    ensures Dicts.Get(Codes2004(list2004), Dicts.Get(Correct2004(RidingList(list2004)), c).value) == Some(c)
  {
    Dicts.GetThenInvert(Correct2004(RidingList(list2004)), c);
  }

  /** The same round trip for the corrected standard dictionary. */
  lemma CodesStandardRoundTrip(list2011: seq<(Code, string)>, c: Code)
    requires Dicts.DistinctValues(CorrectStandard(RidingList(list2011)))
    requires c in Dicts.Keys(CorrectStandard(RidingList(list2011)))
    ensures Dicts.Get(CodesStandard(list2011), Dicts.Get(CorrectStandard(RidingList(list2011)), c).value) == Some(c)
  {
    Dicts.GetThenInvert(CorrectStandard(RidingList(list2011)), c);
  }
}
