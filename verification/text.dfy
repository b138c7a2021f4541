/** The string operations the pipeline relies on: Python's `in`, `re.sub` of a
    single character, and `str.split(c)[0]`. */
module Text {

  /** `frag` occurs in `s` starting at position `i`. */
  predicate OccursAt(s: string, frag: string, i: int) {
    0 <= i && i + |frag| <= |s| && s[i..i + |frag|] == frag
  }

  /** `frag in s`: `frag` occurs in `s` as a contiguous piece. */
  ghost predicate Occurs(s: string, frag: string) {
    exists i :: OccursAt(s, frag, i)
  }

  /** Python's substring test `frag in s`, computed by scanning start positions. */
  function Contains(s: string, frag: string): (b: bool)
    ensures b <==> Occurs(s, frag)
  {
    if |s| < |frag| then false
    else if s[..|frag|] == frag then
      assert OccursAt(s, frag, 0);
      true
    else
      var b := Contains(s[1..], frag);
      if b then
        var i :| OccursAt(s[1..], frag, i);
        assert OccursAt(s, frag, i + 1);
        b
      else
        assert forall i :: OccursAt(s, frag, i) ==> i == 0 || OccursAt(s[1..], frag, i - 1);
        b
  }

  /** `re.sub(from, to, s)` for a single-character pattern. */
  function Replace(s: string, from: char, to: char): (r: string)
    ensures |r| == |s|
    ensures forall i :: 0 <= i < |s| && s[i] != from ==> r[i] == s[i]
    ensures forall i :: 0 <= i < |s| && s[i] == from ==> r[i] == to
  {
    seq(|s|, i requires 0 <= i < |s| => if s[i] == from then to else s[i])
  }

  /** After replacing `from` by a different character, `from` no longer occurs. */
  lemma ReplaceRemoves(s: string, from: char, to: char)
    requires from != to
    ensures from !in Replace(s, from, to)
  {
    var r := Replace(s, from, to);
    forall i | 0 <= i < |r|
      ensures r[i] != from
    {
    }
  }

  /** Replacing twice is replacing once. */
  lemma ReplaceIdempotent(s: string, from: char, to: char)
    requires from != to
    ensures Replace(Replace(s, from, to), from, to) == Replace(s, from, to)
  {
    ReplaceRemoves(s, from, to);
    ReplaceAbsent(Replace(s, from, to), from, to);
  }

  /** Replacing a character that does not occur changes nothing. */
  lemma ReplaceAbsent(s: string, from: char, to: char)
    requires from !in s
    ensures Replace(s, from, to) == s
  {
  }

  /** `s.split(sep)[0]`: the text before the first `sep`, or all of `s`. */
  function PrefixBefore(s: string, sep: char): (r: string)
    ensures sep !in r
    ensures |r| <= |s| && s[..|r|] == r
    ensures |r| < |s| ==> s[|r|] == sep
  {
    if |s| == 0 || s[0] == sep then []
    else [s[0]] + PrefixBefore(s[1..], sep)
  }

  /** A string without the separator is its own first piece. */
  lemma {:induction false} PrefixBeforeAbsent(s: string, sep: char)
    requires sep !in s
    ensures PrefixBefore(s, sep) == s
  {
    if |s| > 0 {
      assert sep !in s[1..];
      PrefixBeforeAbsent(s[1..], sep);
    }
  }

  /** Taking the first piece twice is taking it once. */
  lemma PrefixBeforeIdempotent(s: string, sep: char)
    ensures PrefixBefore(PrefixBefore(s, sep), sep) == PrefixBefore(s, sep)
  {
    PrefixBeforeAbsent(PrefixBefore(s, sep), sep);
  }

  /** `re.sub(c, "", s)`: `s` with every occurrence of `c` deleted. */
  function Remove(s: string, c: char): (r: string)
    ensures |r| <= |s|
  {
    if |s| == 0 then []
    else
      var rest := Remove(s[1..], c);
      if s[0] == c then rest else [s[0]] + rest
  }

  /** Exactly the characters other than `c` survive the deletion. */
  lemma {:induction false} RemoveMembers(s: string, c: char)
    ensures forall x :: x in Remove(s, c) <==> x in s && x != c
  {
    if |s| > 0 {
      RemoveMembers(s[1..], c);
      assert forall x :: x in s <==> x == s[0] || x in s[1..];
    }
  }

  /** Deleting the only character a string is made of leaves nothing. */
  lemma {:induction false} RemoveEverything(s: string, c: char)
    requires forall i :: 0 <= i < |s| ==> s[i] == c
    ensures Remove(s, c) == []
  {
    if |s| > 0 {
      RemoveEverything(s[1..], c);
    }
  }

  /** Deleting a character commutes with concatenation. */
  lemma {:induction false} RemoveAppend(a: string, b: string, c: char)
    ensures Remove(a + b, c) == Remove(a, c) + Remove(b, c)
  {
    if |a| > 0 {
      assert (a + b)[1..] == a[1..] + b;
      RemoveAppend(a[1..], b, c);
    } else {
      assert a + b == b;
    }
  }

  /** Deleting a character that does not occur changes nothing. */
  lemma {:induction false} RemoveAbsent(s: string, c: char)
    requires c !in s
    ensures Remove(s, c) == s
  {
    if |s| > 0 {
      assert c !in s[1..];
      RemoveAbsent(s[1..], c);
    }
  }
}
