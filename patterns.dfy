/** The two regular expressions the field extractor applies to descendant
    texts, each written twice: once as a declarative statement of what a
    match is (the regular expression's meaning), once as the left-to-right
    search that finds the leftmost match, and proved equal.

    Year:    /\b(20\d{2})\b/      the value is capture group 1
    Mileage: /(\d[\d,.]*k?)\s*miles/i   the value is the whole match */
module Patterns {
  import opened Seqs
  import opened Strings

  // ---------------------------------------------------------------- year

  /** `\b(20\d{2})\b` matches at `p`: "20", two digits, and a word boundary
      on both sides (a non-word character or an end of the string). */
  predicate YearAt(s: string, p: int)
  {
    && 0 <= p && p + 4 <= |s|
    && s[p] == '2' && s[p + 1] == '0' && IsDigit(s[p + 2]) && IsDigit(s[p + 3])
    && (p == 0 || !IsWordChar(s[p - 1]))
    && (p + 4 == |s| || !IsWordChar(s[p + 4]))
  }

  /** The leftmost position at or after `p` where the year pattern matches. */
  function YearFrom(s: string, p: nat): (r: Option<nat>)
    ensures r.Some? ==> p <= r.value && YearAt(s, r.value)
    ensures r.Some? ==> forall q :: p <= q < r.value ==> !YearAt(s, q)
    ensures r.None? ==> forall q :: p <= q ==> !YearAt(s, q)
    decreases |s| - p
  {
    if p + 4 > |s| then None
    else if YearAt(s, p) then Some(p)
    else YearFrom(s, p + 1)
  }

  /** `text.match(/\b(20\d{2})\b/)`, returning group 1 of the match. */
  function MatchYear(s: string): (r: Option<string>)
    ensures r.Some? ==> |r.value| == 4 && r.value[0] == '2' && r.value[1] == '0'
  {
    match YearFrom(s, 0)
    case Some(p) => Some(s[p..p + 4])
    case None => None
  }

  /** The year found is the token at the leftmost matching position, and
      there is none exactly when the pattern matches nowhere. */
  lemma YearLeftmost(s: string)
    ensures MatchYear(s).Some? <==> exists p :: YearAt(s, p)
    ensures MatchYear(s).Some? ==>
      exists p :: YearAt(s, p) && MatchYear(s).value == s[p..p + 4] && forall q :: 0 <= q < p ==> !YearAt(s, q)
  {
    match YearFrom(s, 0)
    case Some(p) =>
      assert YearAt(s, p);
    case None =>
  }

  // ------------------------------------------------------------- mileage

  /** The characters of `[\d,.]`. */
  predicate IsRunChar(c: char)
  {
    IsDigit(c) || c == ',' || c == '.'
  }

  /** "miles" at `w`, in any letter case (the `i` flag). */
  predicate MilesAt(s: string, w: int)
  {
    && 0 <= w && w + 5 <= |s|
    && (s[w] == 'm' || s[w] == 'M')
    && (s[w + 1] == 'i' || s[w + 1] == 'I')
    && (s[w + 2] == 'l' || s[w + 2] == 'L')
    && (s[w + 3] == 'e' || s[w + 3] == 'E')
    && (s[w + 4] == 's' || s[w + 4] == 'S')
  }

  /** One way for `(\d[\d,.]*k?)\s*miles` to match s[p..w + 5]: a digit at
      `p`, run characters up to `j`, an optional k or K up to `k`, white
      space up to `w`, then "miles". */
  ghost predicate MileageShape(s: string, p: int, j: int, k: int, w: int)
  {
    && 0 <= p < j <= k <= w && w + 5 <= |s|
    && IsDigit(s[p])
    && (forall x :: p < x < j ==> IsRunChar(s[x]))
    && (k == j || (k == j + 1 && (s[j] == 'k' || s[j] == 'K')))
    && (forall x :: k <= x < w ==> IsSpace(s[x]))
    && MilesAt(s, w)
  }

  /** The end of the run of `[\d,.]` characters that starts at `x`. */
  function RunEnd(s: string, x: nat): (r: nat)
    requires x <= |s|
    ensures x <= r <= |s|
    ensures forall y :: x <= y < r ==> IsRunChar(s[y])
    ensures r == |s| || !IsRunChar(s[r])
    decreases |s| - x
  {
    if x < |s| && IsRunChar(s[x]) then RunEnd(s, x + 1) else x
  }

  /** The end of the run of white space that starts at `x`. */
  function SpaceEnd(s: string, x: nat): (r: nat)
    requires x <= |s|
    ensures x <= r <= |s|
    ensures forall y :: x <= y < r ==> IsSpace(s[y])
    ensures r == |s| || !IsSpace(s[r])
    decreases |s| - x
  {
    if x < |s| && IsSpace(s[x]) then SpaceEnd(s, x + 1) else x
  }

  /** The end of the match that starts at `p`, if one does. Every quantifier
      of the pattern is greedy and no shorter choice can succeed (the
      character after a shorter run is a digit, comma or dot, never k,
      white space or m), so the match is found without backtracking. */
  function MileageAt(s: string, p: nat): (r: Option<nat>)
    ensures r.Some? ==> p + 6 <= r.value <= |s|
  {
    if p < |s| && IsDigit(s[p]) then
      var j := RunEnd(s, p + 1);
      var k := if j < |s| && (s[j] == 'k' || s[j] == 'K') then j + 1 else j;
      var w := SpaceEnd(s, k);
      if MilesAt(s, w) then Some(w + 5) else None
    else None
  }

  /** The three greedy steps from a digit, ending at "miles", form a match. */
  lemma StepsShape(s: string, p: nat, j: nat, k: nat, w: nat)
    requires p < |s| && IsDigit(s[p]) && RunEnd(s, p + 1) == j
    requires k == (if j < |s| && (s[j] == 'k' || s[j] == 'K') then j + 1 else j)
    requires k <= |s| && SpaceEnd(s, k) == w && MilesAt(s, w)
    ensures MileageShape(s, p, j, k, w)
  {
  }

  /** What the search reports is a match. */
  lemma MileageAtSound(s: string, p: nat)
    requires MileageAt(s, p).Some?
    ensures exists j, k, w :: MileageShape(s, p, j, k, w) && MileageAt(s, p).value == w + 5
  {
    var j := RunEnd(s, p + 1);
    var k := if j < |s| && (s[j] == 'k' || s[j] == 'K') then j + 1 else j;
    var w := SpaceEnd(s, k);
    StepsShape(s, p, j, k, w);
  }

  /** A run of `[\d,.]` characters from `x` that stops at `j` is the one
      `RunEnd` finds. */
  lemma RunEndIs(s: string, x: nat, j: int)
    requires x <= j < |s| && !IsRunChar(s[j])
    requires forall y :: x <= y < j ==> IsRunChar(s[y])
    ensures RunEnd(s, x) == j
  {
  }

  /** A run of white space from `x` that stops at `w` is the one
      `SpaceEnd` finds. */
  lemma SpaceEndIs(s: string, x: nat, w: int)
    requires x <= w < |s| && !IsSpace(s[w])
    requires forall y :: x <= y < w ==> IsSpace(s[y])
    ensures SpaceEnd(s, x) == w
  {
  }

  /** The search's three greedy steps, once their results are known, give
      the reported end. */
  lemma MileageAtSteps(s: string, p: nat, j: nat, k: nat, w: nat)
    requires p < |s| && IsDigit(s[p]) && RunEnd(s, p + 1) == j
    requires k == (if j < |s| && (s[j] == 'k' || s[j] == 'K') then j + 1 else j)
    requires k <= |s| && SpaceEnd(s, k) == w && MilesAt(s, w)
    ensures MileageAt(s, p) == Some(w + 5)
  {
  }

  /** Every match starting at `p` is the one the search reports: a match
      has only one possible end. */
  lemma MileageAtComplete(s: string, p: nat, j: int, k: int, w: int)
    requires MileageShape(s, p, j, k, w)
    ensures MileageAt(s, p) == Some(w + 5)
  {
    if k == j && j < w {
      assert IsSpace(s[j]);
    }
    RunEndIs(s, p + 1, j);
    SpaceEndIs(s, k, w);
    MileageAtSteps(s, p, j, k, w);
  }

  /** The leftmost start at or after `p` of a match, with the match's end. */
  function MileageFrom(s: string, p: nat): (r: Option<(nat, nat)>)
    ensures r.Some? ==> p <= r.value.0 && MileageAt(s, r.value.0) == Some(r.value.1)
    ensures r.Some? ==> forall q :: p <= q < r.value.0 ==> MileageAt(s, q).None?
    ensures r.None? ==> forall q :: p <= q ==> MileageAt(s, q).None?
    decreases |s| - p
  {
    if p >= |s| then None
    else match MileageAt(s, p)
      case Some(e) => Some((p, e))
      case None => MileageFrom(s, p + 1)
  }

  /** `text.match(/(\d[\d,.]*k?)\s*miles/i)[0]`: the whole leftmost match. */
  function MatchMileage(s: string): (r: Option<string>)
    ensures r.Some? ==> |r.value| >= 6
  {
    match MileageFrom(s, 0)
    case Some((p, e)) => Some(s[p..e])
    case None => None
  }

  /** No match starts before a position before which the search finds no
      match. */
  lemma NoEarlierMatch(s: string, p: nat)
    requires forall q :: 0 <= q < p ==> MileageAt(s, q).None?
    ensures forall p', j', k', w' :: MileageShape(s, p', j', k', w') ==> p <= p'
  {
    forall p', j', k', w' | MileageShape(s, p', j', k', w') ensures p <= p' {
      MileageAtComplete(s, p', j', k', w');
    }
  }

  /** The mileage found is a match that starts at the leftmost position where
      any match starts, and spans the whole of it. */
  lemma MileageSound(s: string)
    requires MatchMileage(s).Some?
    ensures exists p, j, k, w ::
      && MileageShape(s, p, j, k, w)
      && MatchMileage(s).value == s[p..w + 5]
      && forall p', j', k', w' :: MileageShape(s, p', j', k', w') ==> p <= p'
  {
    var (p, e) := MileageFrom(s, 0).value;
    MileageAtSound(s, p);
    var j, k, w :| MileageShape(s, p, j, k, w) && e == w + 5;
    NoEarlierMatch(s, p);
    assert MatchMileage(s).value == s[p..w + 5];
  }

  /** Whenever the pattern can match somewhere, a mileage is found. */
  lemma MileageComplete(s: string, p: nat, j: int, k: int, w: int)
    requires MileageShape(s, p, j, k, w)
    ensures MatchMileage(s).Some?
  {
    MileageAtComplete(s, p, j, k, w);
    var (q, e) := MileageFrom(s, 0).value;
    MileageAtSound(s, q);
  }

  // ------------------------------------------------------------ examples

  /** "2017 (67)": a year followed by a plate code gives the year. */
  lemma YearExamplePlate()
    ensures MatchYear("2017 (67)") == Some("2017")
  {
    var s := "2017 (67)";
    assert s[0] == '2' && s[1] == '0' && s[2] == '1' && s[3] == '7' && s[4] == ' ';
    assert YearAt(s, 0);
    assert s[0..4] == "2017";
  }

  /** "1999" is outside the 20xx range. */
  lemma YearExampleLastCentury()
    ensures MatchYear("1999") == None
  {
    var s := "1999";
    assert s[0] == '1';
    assert YearFrom(s, 0) == YearFrom(s, 1) == None;
  }

  /** "120175": a 20xx run inside a longer number is not a bounded token. */
  lemma YearExampleInsideNumber()
    ensures MatchYear("120175") == None
  {
    var s := "120175";
    assert s[0] == '1' && s[1] == '2' && s[2] == '0' && s[3] == '1' && s[4] == '7' && s[5] == '5';
    assert !YearAt(s, 0) && !YearAt(s, 1) && !YearAt(s, 2);
    assert YearFrom(s, 0) == YearFrom(s, 1) == YearFrom(s, 2) == YearFrom(s, 3) == None;
  }

  /** "Reg 2019, 2020 plate": the first bounded token wins. */
  lemma YearExampleFirstWins()
    ensures MatchYear("Reg 2019, 2020 plate") == Some("2019")
  {
    var s := "Reg 2019, 2020 plate";
    assert s[0] == 'R' && s[1] == 'e' && s[2] == 'g' && s[3] == ' ';
    assert s[4] == '2' && s[5] == '0' && s[6] == '1' && s[7] == '9' && s[8] == ',';
    assert !YearAt(s, 0) && !YearAt(s, 1) && !YearAt(s, 2) && !YearAt(s, 3) && YearAt(s, 4);
    assert YearFrom(s, 0) == YearFrom(s, 1) == YearFrom(s, 2) == YearFrom(s, 3) == YearFrom(s, 4) == Some(4);
    assert s[4..8] == "2019";
  }

  /** "30,000 miles": thousands separators. */
  lemma MileageExampleSeparators()
    ensures MatchMileage("30,000 miles") == Some("30,000 miles")
  {
    var a := "30,000 miles";
    assert a[1] == '0' && a[2] == ',' && a[3] == '0' && a[4] == '0' && a[5] == '0' && a[6] == ' ';
    RunEndIs(a, 1, 6);
    SpaceEndIs(a, 6, 7);
    MileageAtSteps(a, 0, 6, 6, 7);
    assert a[0..12] == a;
  }

  /** "30k miles": a trailing k. */
  lemma MileageExampleThousands()
    ensures MatchMileage("30k miles") == Some("30k miles")
  {
    var b := "30k miles";
    assert b[1] == '0' && b[2] == 'k' && b[3] == ' ';
    RunEndIs(b, 1, 2);
    SpaceEndIs(b, 3, 4);
    MileageAtSteps(b, 0, 2, 3, 4);
    assert b[0..9] == b;
  }

  /** "1,234 Miles": the word in another letter case. */
  lemma MileageExampleCase()
    ensures MatchMileage("1,234 Miles") == Some("1,234 Miles")
  {
    var c := "1,234 Miles";
    assert c[1] == ',' && c[2] == '2' && c[3] == '3' && c[4] == '4' && c[5] == ' ';
    RunEndIs(c, 1, 5);
    SpaceEndIs(c, 5, 6);
    MileageAtSteps(c, 0, 5, 5, 6);
    assert c[0..11] == c;
  }

  /** "miles away" has no number before the word. */
  lemma MileageExampleNoNumber()
    ensures MatchMileage("miles away") == None
  {
  }

  /** "2017" has no "miles" after the number. */
  lemma MileageExampleNoWord()
    ensures MatchMileage("2017") == None
  {
    var d := "2017";
    assert RunEnd(d, 1) == 4 && RunEnd(d, 2) == 4 && RunEnd(d, 3) == 4 && RunEnd(d, 4) == 4;
    assert MileageFrom(d, 0) == MileageFrom(d, 1) == MileageFrom(d, 2) == MileageFrom(d, 3) == None;
  }
}
