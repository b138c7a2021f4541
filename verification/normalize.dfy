/** Text normalisers: vote counts written with space separators, and district
    names in their bilingual, dash-varying published forms. */
module Normalize {
  import opened Wrappers
  import opened Records
  import Text

  predicate IsDigit(ch: char) {
    '0' <= ch <= '9'
  }

  predicate AllDigits(s: string) {
    forall i :: 0 <= i < |s| ==> IsDigit(s[i])
  }

  /** The decimal value of `s`, or `None` if a character is not a digit. */
  function DecimalValue(s: string): Option<nat>
  {
    if |s| == 0 then Some(0)
    else
      match DecimalValue(s[..|s| - 1])
      case None => None
      case Some(v) =>
        var c := s[|s| - 1];
        if IsDigit(c) then Some(v * 10 + (c as int - '0' as int)) else None
  }

  /** `DecimalValue` succeeds exactly on strings of digits. */
  lemma {:induction false} DecimalValueDigits(s: string)
    ensures DecimalValue(s).Some? <==> AllDigits(s)
  {
    if |s| > 0 {
      DecimalValueDigits(s[..|s| - 1]);
      assert AllDigits(s) <==> AllDigits(s[..|s| - 1]) && IsDigit(s[|s| - 1]);
    }
  }

  /** `int(re.sub(" ", "", text))` restricted to plain digit strings: spaces are
      deleted, and the residual must be a non-empty run of decimal digits. */
  function ParseCount(text: string): Result<nat, Error>
  {
    var residual := Text.Remove(text, ' ');
    if |residual| == 0 then Err(NotANumber)
    else
      match DecimalValue(residual)
      case Some(v) => Ok(v)
      case None => Err(NotANumber)
  }

  /** Parsing succeeds exactly when deleting the spaces leaves a non-empty
      run of digits. */
  lemma ParseSucceeds(text: string)
    ensures ParseCount(text).Ok? <==> var residual := Text.Remove(text, ' '); |residual| > 0 && AllDigits(residual)
  {
    DecimalValueDigits(Text.Remove(text, ' '));
  }

  /** A residual character other than a digit makes parsing fail. */
  lemma ParseRejectsNonDigit(text: string, i: int)
    requires 0 <= i < |text| && text[i] != ' ' && !IsDigit(text[i])
    ensures ParseCount(text) == Err(NotANumber)
  {
    var residual := Text.Remove(text, ' ');
    Text.RemoveMembers(text, ' ');
    assert text[i] in text;
    assert text[i] in residual;
    DecimalValueDigits(residual);
  }

  /** A text made only of spaces (or nothing) is not a number. */
  lemma ParseRejectsBlank(text: string)
    requires forall i :: 0 <= i < |text| ==> text[i] == ' '
    ensures ParseCount(text) == Err(NotANumber)
  {
    Text.RemoveEverything(text, ' ');
  }

  /** A space anywhere in the text is ignored. */
  lemma ParseIgnoresSpace(a: string, b: string)
    ensures ParseCount(a + " " + b) == ParseCount(a + b)
  {
    Text.RemoveAppend(a + " ", b, ' ');
    Text.RemoveAppend(a, " ", ' ');
    Text.RemoveAppend(a, b, ' ');
    assert Text.Remove(" ", ' ') == [] by {
      assert " "[1..] == [];
    }
    assert Text.Remove(a + " " + b, ' ') == Text.Remove(a + b, ' ');
  }

  function DigitChar(d: nat): char
    requires d < 10
  {
    ('0' as int + d) as char
  }

  /** The plain decimal rendering of `n`, as Python's `str(n)`. */
  function Digits(n: nat): (s: string)
    ensures |s| > 0 && ' ' !in s
  {
    if n < 10 then [DigitChar(n)] else Digits(n / 10) + [DigitChar(n % 10)]
  }

  lemma {:induction false} DecimalValueOfDigits(n: nat)
    ensures DecimalValue(Digits(n)) == Some(n)
  {
    if n >= 10 {
      var s := Digits(n);
      assert s[..|s| - 1] == Digits(n / 10);
      DecimalValueOfDigits(n / 10);
    }
  }

  /** Parsing the decimal rendering of a count gives the count back. */
  lemma ParseDigits(n: nat)
    ensures ParseCount(Digits(n)) == Ok(n)
  {
    Text.RemoveAbsent(Digits(n), ' ');
    DecimalValueOfDigits(n);
  }

  /** Exactly three digits, with leading zeros: the groups after the first. */
  function Group3(m: nat): (s: string)
    requires m < 1000
    ensures |s| == 3 && ' ' !in s
  {
    [DigitChar(m / 100), DigitChar(m / 10 % 10), DigitChar(m % 10)]
  }

  /** `n` written with a space between groups of three digits, as the published
      tables print vote counts ("12 345"). */
  function Grouped(n: nat): string
  {
    if n < 1000 then Digits(n) else Grouped(n / 1000) + " " + Group3(n % 1000)
  }

  lemma AppendGroup3Value(s: string, v: nat, m: nat)
    requires DecimalValue(s) == Some(v) && m < 1000
    ensures DecimalValue(s + Group3(m)) == Some(v * 1000 + m)
  {
    var g := Group3(m);
    var t := s + g;
    assert t[..|t| - 1] == s + g[..2];
    assert (s + g[..2])[..|s| + 1] == s + g[..1];
    assert (s + g[..1])[..|s|] == s;
    assert DecimalValue(s + g[..1]) == Some(v * 10 + m / 100);
    assert DecimalValue(s + g[..2]) == Some((v * 10 + m / 100) * 10 + m / 10 % 10);
    assert m == m / 100 * 100 + m / 10 % 10 * 10 + m % 10;
  }

  /** Deleting the spaces of the grouped rendering leaves digits worth `n`. */
  lemma {:induction false} GroupedResidual(n: nat)
    ensures var r := Text.Remove(Grouped(n), ' '); |r| > 0 && DecimalValue(r) == Some(n)
  {
    if n < 1000 {
      Text.RemoveAbsent(Digits(n), ' ');
      DecimalValueOfDigits(n);
    } else {
      GroupedResidual(n / 1000);
      var head := Grouped(n / 1000);
      Text.RemoveAppend(head + " ", Group3(n % 1000), ' ');
      Text.RemoveAppend(head, " ", ' ');
      assert Text.Remove(" ", ' ') == [] by {
        assert " "[1..] == [];
      }
      Text.RemoveAbsent(Group3(n % 1000), ' ');
      assert Text.Remove(Grouped(n), ' ') == Text.Remove(head, ' ') + Group3(n % 1000);
      AppendGroup3Value(Text.Remove(head, ' '), n / 1000, n % 1000);
    }
  }

  /** A space-grouped vote count parses to its plain integer value. */
  lemma ParseGrouped(n: nat)
    ensures ParseCount(Grouped(n)) == Ok(n)
  {
    GroupedResidual(n);
  }

  /** `num_process(column)`: parse every cell of a column, failing on the first
      cell that is empty or not a number. */
  function NumProcess(column: seq<Cell>): (r: Result<seq<nat>, Error>)
    ensures r.Ok? <==> forall i :: 0 <= i < |column| ==> column[i].Text? && ParseCount(column[i].text).Ok?
    ensures r.Ok? ==> |r.value| == |column|
    ensures r.Ok? ==> forall i :: 0 <= i < |column| ==> ParseCount(column[i].text) == Ok(r.value[i])
  {
    if |column| == 0 then Ok([])
    else
      match column[0]
      case Blank => Err(MissingValue)
      case Text(t) =>
        var n :- ParseCount(t);
        var rest :- NumProcess(column[1..]);
        assert forall i :: 1 <= i < |column| ==> column[i] == column[1..][i - 1];
        Ok([n] + rest)
  }

  /** Python's "\x97" (a Windows-1252 em dash decoded as a control character). */
  const LegacyDash: char := '\U{97}'
  /** The en dash U+2013 of the district lists. */
  const EnDash: char := '\U{2013}'
  /** The separator between the English and French names of a district. */
  const LanguageSeparator: char := '/'

  /** `re.sub("\x97", "-", name).split("/")[0]`: the English part of a
      bilingual district name, with the legacy dash made a hyphen. */
  function RidingName(name: string): (r: string)
    ensures LanguageSeparator !in r && LegacyDash !in r
    ensures var dashed := Text.Replace(name, LegacyDash, '-');
      |r| <= |dashed| && dashed[..|r|] == r && (|r| < |dashed| ==> dashed[|r|] == LanguageSeparator)
  {
    var dashed := Text.Replace(name, LegacyDash, '-');
    Text.ReplaceRemoves(name, LegacyDash, '-');
    Text.PrefixBefore(dashed, LanguageSeparator)
  }

  /** A normalised name is left alone by a second normalisation. */
  lemma RidingNameIdempotent(name: string)
    ensures RidingName(RidingName(name)) == RidingName(name)
  {
    var r := RidingName(name);
    Text.ReplaceAbsent(r, LegacyDash, '-');
    Text.PrefixBeforeAbsent(r, LanguageSeparator);
  }

  /** `rdname_process(column)`: normalise every name of a column, failing on an
      empty cell. */
  function RdnameProcess(column: seq<Cell>): (r: Result<seq<string>, Error>)
    ensures r.Ok? <==> forall i :: 0 <= i < |column| ==> column[i].Text?
    ensures r.Ok? ==> |r.value| == |column|
    ensures r.Ok? ==> forall i :: 0 <= i < |column| ==> r.value[i] == RidingName(column[i].text)
  {
    if |column| == 0 then Ok([])
    else
      match column[0]
      case Blank => Err(MissingValue)
      case Text(t) =>
        var rest :- RdnameProcess(column[1..]);
        assert forall i :: 1 <= i < |column| ==> column[i] == column[1..][i - 1];
        Ok([RidingName(t)] + rest)
  }

  /** `re.sub('–', '-', name)`: the district lists' en dash made a hyphen. */
  function ListName(name: string): (r: string)
    ensures EnDash !in r
    ensures |r| == |name|
    ensures forall i :: 0 <= i < |name| && name[i] != EnDash ==> r[i] == name[i]
    ensures forall i :: 0 <= i < |name| && name[i] == EnDash ==> r[i] == '-'
  {
    Text.ReplaceRemoves(name, EnDash, '-');
    Text.Replace(name, EnDash, '-')
  }

  lemma ListNameIdempotent(name: string)
    ensures ListName(ListName(name)) == ListName(name)
  {
    Text.ReplaceIdempotent(name, EnDash, '-');
  }
}
