/** The relevance filter (index.js:352-364): a record is kept when it looks
    like a Golf GTI Performance. The source writes a three-way OR and then
    ORs a looser title test on top; the whole reduces to two conditions. */
module Relevance {
  import opened Strings
  import opened Extractor

  /** The predicate as the source writes it, on the lower-cased full text
      and title. */
  predicate IsRelevant(l: Listing)
  {
    var fullText := ToLower(l.allText);
    var title := ToLower(l.title);
    var isGtiPerformance :=
      || Contains(fullText, "gti performance")
      || (Contains(fullText, "gti") && Contains(fullText, "performance"))
      || Contains(title, "gti performance");
    isGtiPerformance || Contains(title, "gti")
  }

  lemma PhraseHasWords()
    ensures Contains("gti performance", "gti")
    ensures Contains("gti performance", "performance")
  {
    assert "gti performance"[4..15] == "performance";
    OccursThenContains("gti performance", "performance", 4);
  }

  /** A record is kept exactly when its full text mentions both "gti" and
      "performance", or its title mentions "gti" (all in lower case). */
  lemma RelevanceReduces(l: Listing)
    ensures IsRelevant(l) <==>
      || (Contains(ToLower(l.allText), "gti") && Contains(ToLower(l.allText), "performance"))
      || Contains(ToLower(l.title), "gti")
  {
    var fullText := ToLower(l.allText);
    var title := ToLower(l.title);
    PhraseHasWords();
    if Contains(fullText, "gti performance") {
      ContainsTransitive(fullText, "gti performance", "gti");
      ContainsTransitive(fullText, "gti performance", "performance");
    }
    if Contains(title, "gti performance") {
      ContainsTransitive(title, "gti performance", "gti");
    }
  }

  /** An occurrence survives lower-casing: if `sub` occurs in `s`, then the
      lower-cased `sub` occurs in the lower-cased `s`. */
  lemma ContainsLower(s: string, sub: string)
    requires Contains(s, sub)
    ensures Contains(ToLower(s), ToLower(sub))
  {
    ContainsIff(s, sub);
    var i :| OccursAt(s, sub, i);
    var pre, post := s[..i], s[i + |sub|..];
    assert s == pre + sub + post;
    ToLowerAppend(pre + sub, post);
    ToLowerAppend(pre, sub);
    var ls := ToLower(s);
    assert ls == ToLower(pre) + ToLower(sub) + ToLower(post);
    assert ls[|ToLower(pre)|..|ToLower(pre)| + |ToLower(sub)|] == ToLower(sub);
    OccursThenContains(ls, ToLower(sub), |ToLower(pre)|);
  }

  /** Lower-casing a one-character string lower-cases the character. */
  lemma LowerOne(c: char)
    ensures ToLower([c]) == LowerChar(c)
  {
    assert [c][..0] == [];
  }

  /** Lower-casing a three-character string lower-cases each character. */
  lemma LowerThree(x: char, y: char, z: char)
    ensures ToLower([x, y, z]) == LowerChar(x) + LowerChar(y) + LowerChar(z)
  {
    ToLowerAppend([x, y], [z]);
    ToLowerAppend([x], [y]);
    assert [x, y, z] == [x, y] + [z] && [x, y] == [x] + [y];
    LowerOne(x);
    LowerOne(y);
    LowerOne(z);
  }

  /** Both letter cases of g, t and i lower-case to the small letter. */
  lemma LowerLetters()
    ensures LowerChar('g') == "g" && LowerChar('G') == "g"
    ensures LowerChar('t') == "t" && LowerChar('T') == "t"
    ensures LowerChar('i') == "i" && LowerChar('I') == "i"
  {
  }

  /** Three characters that spell "gti" in any letter case lower-case to
      "gti". */
  lemma LowerGtiChars(x: char, y: char, z: char)
    requires (x == 'g' || x == 'G') && (y == 't' || y == 'T') && (z == 'i' || z == 'I')
    ensures ToLower([x, y, z]) == "gti"
  {
    LowerThree(x, y, z);
    LowerLetters();
    var g, t, i := LowerChar(x), LowerChar(y), LowerChar(z);
    assert g == "g" && t == "t" && i == "i";
  }

  /** Any letter-case spelling of "gti" lower-cases to "gti". */
  lemma LowerGti(gti: string)
    requires |gti| == 3 && (gti[0] == 'g' || gti[0] == 'G') && (gti[1] == 't' || gti[1] == 'T') && (gti[2] == 'i' || gti[2] == 'I')
    ensures ToLower(gti) == "gti"
  {
    assert gti == [gti[0], gti[1], gti[2]];
    LowerGtiChars(gti[0], gti[1], gti[2]);
  }

  /** The match is case-insensitive: a title containing "GTI" in any letter
      case is kept, whatever the full text says. */
  lemma TitleGtiIsRelevant(l: Listing, gti: string)
    requires |gti| == 3 && (gti[0] == 'g' || gti[0] == 'G') && (gti[1] == 't' || gti[1] == 'T') && (gti[2] == 'i' || gti[2] == 'I')
    requires Contains(l.title, gti)
    ensures IsRelevant(l)
  {
    ContainsLower(l.title, gti);
    LowerGti(gti);
    assert Contains(ToLower(l.title), "gti");
  }
}
