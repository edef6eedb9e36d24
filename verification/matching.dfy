/** The tolerant answer matcher of the web front end (`matching.ts`): three
    normalisers, an LCS similarity ratio computed by a two-row dynamic program,
    and the seven-tier ladder that turns a learner's answer into a verdict. */
module Matching {
  import opened Seqs
  import opened Text

  /** `[isCorrect, hint]`. */
  datatype Verdict = Verdict(correct: bool, hint: string)

  const Accepted := Verdict(true, "")
  const AccentHint: string := "Presque ! Vérifiez les accents."
  const SpellingHint: string := "Très proche ! Vérifiez l'orthographe."

  /** A similarity ratio num/den, kept exact instead of as a floating-point number. */
  datatype Fraction = Fraction(num: nat, den: nat)

  /** `ratio >= 0.85`, that is 20 * num >= 17 * den. */
  predicate AtLeastThreshold(r: Fraction)
  {
    20 * r.num >= 17 * r.den
  }

  // ---------------------------------------------------------------------------
  // Normalisers
  // ---------------------------------------------------------------------------

  /** `text.trim().replace(/\s+/g, " ")`: trims both ends and collapses every
      inner run of whitespace to one space. */
  function NormalizeWhitespace(text: string): string
  {
    CollapseRuns(Strip(text, IsJsSpace), IsJsSpace)
  }

  /** The normal form has no whitespace at either end, no two whitespace
      characters in a row, only plain spaces, and is empty exactly when the
      text is all whitespace. */
  lemma NormalizeWhitespaceShape(text: string)
    ensures var r := NormalizeWhitespace(text);
      && OnlyPlainSpaces(r, IsJsSpace) && NoAdjacent(r, IsJsSpace)
      && (r == [] || (!IsJsSpace(r[0]) && !IsJsSpace(r[|r| - 1])))
      && (r == [] <==> forall i :: 0 <= i < |text| ==> IsJsSpace(text[i]))
  {
    var t := Strip(text, IsJsSpace);
    CollapseRunsPlain(t, IsJsSpace);
    CollapseRunsNoAdjacent(t, IsJsSpace);
    CollapseRunsStripped(t, IsJsSpace);
    assert t == [] <==> forall i :: 0 <= i < |text| ==> IsJsSpace(text[i]) by {
      var u := DropLeading(text, IsJsSpace);
      DropLeadingDropped(text, IsJsSpace);
      DropTrailingDropped(u, IsJsSpace);
      if u != [] { assert text[|text| - |u|] == u[0]; }
    }
  }

  /** Normalising whitespace twice is the same as once. */
  lemma NormalizeWhitespaceIdempotent(text: string)
    ensures NormalizeWhitespace(NormalizeWhitespace(text)) == NormalizeWhitespace(text)
  {
    var r := NormalizeWhitespace(text);
    NormalizeWhitespaceShape(text);
    DropLeadingNone(r, IsJsSpace);
    DropTrailingNone(r, IsJsSpace);
    CollapseRunsFixed(r, IsJsSpace);
  }

  /** `text.replace(/[.!?]+$/, "").trimEnd()`: removes the final run of
      sentence punctuation, then any whitespace it uncovered. */
  function StripTrailingPunct(text: string): (r: string)
    ensures |r| <= |text| && r == text[..|r|]
    ensures r == [] || !IsJsSpace(r[|r| - 1])
  {
    DropTrailing(DropTrailing(text, IsFinalPunct), IsJsSpace)
  }

  /** Stripping is not idempotent: a second pass can find a new final run. */
  lemma StripTrailingPunctNotIdempotent()
    ensures StripTrailingPunct("a. .") == "a."
    ensures StripTrailingPunct(StripTrailingPunct("a. .")) == "a"
  {
    assert DropTrailing("a. .", IsFinalPunct) == "a. ";
    assert DropTrailing("a. ", IsJsSpace) == "a.";
    assert DropTrailing("a.", IsFinalPunct) == "a";
  }

  /** The characters that survive `.replace(/[\u0300-\u036f]/g, "")`. */
  predicate KeptByAccentStrip(c: char) { !IsCombiningDiacritic(c) }

  /** `text.normalize("NFD").replace(/[\u0300-\u036f]/g, "")`. */
  function StripAccents(text: string): (r: string)
    ensures forall i :: 0 <= i < |r| ==> !IsCombiningDiacritic(r[i])
  {
    Filter(Nfd(text), KeptByAccentStrip)
  }

  /** Accent stripping works character by character. */
  lemma StripAccentsConcat(s: string, t: string)
    ensures StripAccents(s + t) == StripAccents(s) + StripAccents(t)
  {
    NfdFilterConcat(s, t, KeptByAccentStrip);
  }

  /** Characters outside the decomposition table and outside the mark block
      are kept as they are. */
  lemma {:induction false} StripAccentsPlain(s: string)
    requires forall i :: 0 <= i < |s| ==> DecomposeChar(s[i]) == [s[i]] && !IsCombiningDiacritic(s[i])
    ensures StripAccents(s) == s
  {
    if s != [] {
      StripAccentsPlain(s[1..]);
      StripAccentsConcat([s[0]], s[1..]);
      assert s == [s[0]] + s[1..];
      FlatMapSingle(s[0], DecomposeChar);
      assert [s[0]][1..] == [];
    }
  }

  /** The letter a character decomposes to, without its mark. */
  function BaseChar(c: char): char { DecomposeChar(c)[0] }

  /** On text without stray marks, accent stripping replaces every character
      by its base letter: it neither drops nor adds letters. */
  lemma {:induction false} StripAccentsLetters(s: string)
    requires forall i :: 0 <= i < |s| ==> !IsCombiningDiacritic(s[i])
    ensures StripAccents(s) == MapChars(s, BaseChar)
  {
    if s != [] {
      StripAccentsLetters(s[1..]);
      StripAccentsConcat([s[0]], s[1..]);
      assert s == [s[0]] + s[1..];
      StripAccentsChar(s[0]);
    }
  }

  /** One character that is not itself a mark becomes its base letter. */
  lemma StripAccentsChar(c: char)
    requires !IsCombiningDiacritic(c)
    ensures StripAccents([c]) == [BaseChar(c)]
  {
    FlatMapSingle(c, DecomposeChar);
    var d := DecomposeChar(c);
    CombiningDiacriticIsMn(d[0]);
    assert Filter(d, KeptByAccentStrip) == [d[0]] + Filter(d[1..], KeptByAccentStrip);
    if |d| == 2 {
      assert d[1..][1..] == [];
    }
  }

  /** The base letters of "école" spell "ecole". */
  lemma BaseLettersEcole()
    ensures MapChars("école", BaseChar) == "ecole"
  {
    assert BaseChar('é') == 'e';
    assert BaseChar('c') == 'c';
    assert BaseChar('o') == 'o';
    assert BaseChar('l') == 'l';
    assert BaseChar('e') == 'e';
  }

  // ---------------------------------------------------------------------------
  // Similarity
  // ---------------------------------------------------------------------------

  /** Length of a longest common subsequence, by the usual recurrence on the
      last characters. */
  function LcsLen(a: string, b: string): (n: nat)
    ensures n <= |a| && n <= |b|
    decreases |a| + |b|
  {
    if |a| == 0 || |b| == 0 then 0
    else if a[|a| - 1] == b[|b| - 1] then LcsLen(a[..|a| - 1], b[..|b| - 1]) + 1
    else Max(LcsLen(a[..|a| - 1], b), LcsLen(a, b[..|b| - 1]))
  }

  lemma {:induction false} LcsSymmetric(a: string, b: string)
    ensures LcsLen(a, b) == LcsLen(b, a)
    decreases |a| + |b|
  {
    if |a| != 0 && |b| != 0 {
      LcsSymmetric(a[..|a| - 1], b[..|b| - 1]);
      LcsSymmetric(a[..|a| - 1], b);
      LcsSymmetric(a, b[..|b| - 1]);
    }
  }

  lemma {:induction false} LcsSelf(a: string)
    ensures LcsLen(a, a) == |a|
  {
    if a != [] {
      LcsSelf(a[..|a| - 1]);
    }
  }

  /** The DP cell for prefixes of lengths i and j, in terms of smaller cells. */
  lemma LcsStep(a: string, b: string, i: nat, j: nat)
    requires 1 <= i <= |a| && 1 <= j <= |b|
    ensures LcsLen(a[..i], b[..j]) ==
      if a[i - 1] == b[j - 1] then LcsLen(a[..i - 1], b[..j - 1]) + 1
      else Max(LcsLen(a[..i - 1], b[..j]), LcsLen(a[..i], b[..j - 1]))
  {
    assert a[..i][..i - 1] == a[..i - 1];
    assert b[..j][..j - 1] == b[..j - 1];
  }

  /** `sequenceMatcherRatio`: 1 for two empty strings, 0 when exactly one is
      empty, otherwise 2 * LCS / (|a| + |b|). */
  function Ratio(a: string, b: string): (r: Fraction)
    ensures r.den > 0 && r.num <= r.den
    ensures |a| == 0 && |b| == 0 ==> r.num == r.den
    ensures (|a| == 0) != (|b| == 0) ==> r.num == 0
  {
    if |a| == 0 && |b| == 0 then Fraction(1, 1)
    else if |a| == 0 || |b| == 0 then Fraction(0, 1)
    else Fraction(2 * LcsLen(a, b), |a| + |b|)
  }

  lemma RatioSymmetric(a: string, b: string)
    ensures Ratio(a, b) == Ratio(b, a)
  {
    LcsSymmetric(a, b);
  }

  lemma RatioSelf(a: string)
    ensures Ratio(a, a).num == Ratio(a, a).den
  {
    LcsSelf(a);
  }

  /** The two-row dynamic program of `sequenceMatcherRatio`: `prev` holds the
      previous row of the LCS table, `curr` the row being filled; the rows are
      swapped and the new current row cleared after each character of a. */
  method SequenceMatcherRatio(a: string, b: string) returns (r: Fraction)
    ensures r == Ratio(a, b)
  {
    var lenA, lenB := |a|, |b|;
    if lenA == 0 && lenB == 0 { return Fraction(1, 1); }
    if lenA == 0 || lenB == 0 { return Fraction(0, 1); }

    var prev := new nat[lenB + 1](_ => 0);
    var curr := new nat[lenB + 1](_ => 0);
    var i := 1;
    while i <= lenA
      invariant 1 <= i <= lenA + 1
      invariant fresh(prev) && fresh(curr) && prev != curr
      invariant prev.Length == lenB + 1 && curr.Length == lenB + 1
      invariant forall k :: 0 <= k <= lenB ==> prev[k] == LcsLen(a[..i - 1], b[..k])
      invariant forall k :: 0 <= k <= lenB ==> curr[k] == 0
    {
      FillRow(a, b, i, prev, curr);
      prev, curr := curr, prev;
      forall k | 0 <= k < curr.Length {
        curr[k] := 0;
      }
      i := i + 1;
    }
    assert a[..lenA] == a && b[..lenB] == b;
    r := Fraction(2 * prev[lenB], lenA + lenB);
  }

  /** The inner loop of `sequenceMatcherRatio`: fills row i of the LCS table
      from row i - 1. */
  method FillRow(a: string, b: string, i: nat, prev: array<nat>, curr: array<nat>)
    requires 1 <= i <= |a| && prev != curr
    requires prev.Length == |b| + 1 && curr.Length == |b| + 1
    requires forall k :: 0 <= k <= |b| ==> prev[k] == LcsLen(a[..i - 1], b[..k])
    requires curr[0] == 0
    modifies curr
    ensures forall k :: 0 <= k <= |b| ==> curr[k] == LcsLen(a[..i], b[..k])
  {
    var j := 1;
    while j <= |b|
      invariant 1 <= j <= |b| + 1
      invariant forall k :: 0 <= k < j ==> curr[k] == LcsLen(a[..i], b[..k])
    {
      LcsStep(a, b, i, j);
      if a[i - 1] == b[j - 1] {
        curr[j] := prev[j - 1] + 1;
      } else {
        curr[j] := Max(prev[j], curr[j - 1]);
      }
      j := j + 1;
    }
  }

  // ---------------------------------------------------------------------------
  // The tolerance ladder
  // ---------------------------------------------------------------------------

  /** The form the ladder compares from tier 4 on: whitespace normalised,
      lower-cased, final punctuation removed. */
  function Comparable(s: string): string
  {
    StripTrailingPunct(Lower(NormalizeWhitespace(s)))
  }

  /** `matchAnswer(userAnswer, expected)`. */
  function MatchAnswer(userAnswer: string, expected: string): (v: Verdict)
    ensures userAnswer == expected ==> v == Accepted
    ensures v.correct ==> v.hint == ""
    ensures v.hint == "" || v.hint == AccentHint || v.hint == SpellingHint
  {
    // 1. exact
    if userAnswer == expected then Accepted
    // 2. lower case
    else if Lower(userAnswer) == Lower(expected) then Accepted
    else
      // 3. whitespace normalised, lower case
      var userNorm := Lower(NormalizeWhitespace(userAnswer));
      var expectedNorm := Lower(NormalizeWhitespace(expected));
      if userNorm == expectedNorm then Accepted
      else
        // 4. final punctuation removed
        var userNoPunct := StripTrailingPunct(userNorm);
        var expectedNoPunct := StripTrailingPunct(expectedNorm);
        if userNoPunct == expectedNoPunct then Accepted
        // 5. accents removed: almost
        else if StripAccents(userNoPunct) == StripAccents(expectedNoPunct) then Verdict(false, AccentHint)
        // 6. similar spelling, measured on the accented forms
        else if AtLeastThreshold(Ratio(userNoPunct, expectedNoPunct)) then Verdict(false, SpellingHint)
        // 7. no match
        else Verdict(false, "")
  }

  /** Lower-casing keeps whitespace and non-whitespace apart and fixes the space. */
  lemma LowerKeepsSpaces()
    ensures forall c :: IsJsSpace(LowerChar(c)) == IsJsSpace(c)
    ensures LowerChar(' ') == ' '
  {
  }

  /** Lower-casing commutes with whitespace normalisation. */
  lemma LowerNormalizeWhitespace(s: string)
    ensures Lower(NormalizeWhitespace(s)) == NormalizeWhitespace(Lower(s))
  {
    LowerKeepsSpaces();
    MapDropLeading(s, IsJsSpace, LowerChar);
    MapDropTrailing(DropLeading(s, IsJsSpace), IsJsSpace, LowerChar);
    MapCollapseRuns(Strip(s, IsJsSpace), IsJsSpace, LowerChar);
  }

  /** The whole ladder depends only on the comparable forms: tiers 1 to 3 are
      shortcuts of tier 4.  The answer is accepted exactly when the comparable
      forms agree; otherwise the accent tier is tried before the spelling tier,
      and the ratio is taken on the accented forms. */
  lemma MatchAnswerTiers(userAnswer: string, expected: string)
    ensures var u, e := Comparable(userAnswer), Comparable(expected);
      MatchAnswer(userAnswer, expected) ==
        if u == e then Accepted
        else if StripAccents(u) == StripAccents(e) then Verdict(false, AccentHint)
        else if AtLeastThreshold(Ratio(u, e)) then Verdict(false, SpellingHint)
        else Verdict(false, "")
  {
    if Lower(userAnswer) == Lower(expected) {
      LowerNormalizeWhitespace(userAnswer);
      LowerNormalizeWhitespace(expected);
    }
  }

  /** Answers that agree once lower-cased, whitespace-normalised and stripped of
      final punctuation are accepted. */
  lemma MatchAcceptsComparable(userAnswer: string, expected: string)
    requires Comparable(userAnswer) == Comparable(expected)
    ensures MatchAnswer(userAnswer, expected) == Accepted
  {
  }

  /** An answer is correct exactly when its comparable form is the expected one's. */
  lemma MatchCorrectIff(userAnswer: string, expected: string)
    ensures MatchAnswer(userAnswer, expected).correct <==> Comparable(userAnswer) == Comparable(expected)
  {
    MatchAnswerTiers(userAnswer, expected);
  }

  /** An upper-cased answer (without ß or µ) is accepted. */
  lemma MatchUpperCase(s: string)
    requires '\U{00DF}' !in s && '\U{00B5}' !in s
    ensures MatchAnswer(Upper(s), s) == Accepted
  {
    LowerUpper(s);
  }

  /** A string without whitespace is its own normal form. */
  lemma NormalizeNoSpace(s: string)
    requires forall i :: 0 <= i < |s| ==> !IsJsSpace(s[i])
    ensures NormalizeWhitespace(s) == s
  {
    DropLeadingNone(s, IsJsSpace);
    DropTrailingNone(s, IsJsSpace);
    CollapseRunsFixed(s, IsJsSpace);
  }

  /** A string that ends in neither punctuation nor whitespace keeps its end. */
  lemma StripTrailingPunctNone(s: string)
    requires s == [] || (!IsFinalPunct(s[|s| - 1]) && !IsJsSpace(s[|s| - 1]))
    ensures StripTrailingPunct(s) == s
  {
    DropTrailingNone(s, IsFinalPunct);
    DropTrailingNone(s, IsJsSpace);
  }

  /** Lower-case Latin-1 letters: the letters of a French answer. */
  predicate IsLowerLetter(c: char)
  {
    'a' <= c <= 'z' || ('\U{00DF}' <= c <= '\U{00FF}' && c != '\U{00F7}')
  }

  /** A word: lower-case letters only. */
  ghost predicate IsWord(s: string)
  {
    forall i :: 0 <= i < |s| ==> IsLowerLetter(s[i])
  }

  /** A word of lower-case letters is its own comparable form. */
  lemma ComparableWord(s: string)
    requires IsWord(s)
    ensures Comparable(s) == s
  {
    WordNormal(s);
    WordLower(s);
    WordStrip(s);
    ComparableOfFixedPoints(s);
  }

  /** Each normaliser leaving s alone, so does their composition. */
  lemma ComparableOfFixedPoints(s: string)
    requires NormalizeWhitespace(s) == s && Lower(s) == s && StripTrailingPunct(s) == s
    ensures Comparable(s) == s
  {
  }

  lemma WordNormal(s: string)
    requires IsWord(s)
    ensures NormalizeWhitespace(s) == s
  {
    NormalizeNoSpace(s);
  }

  lemma WordStrip(s: string)
    requires IsWord(s)
    ensures StripTrailingPunct(s) == s
  {
    StripTrailingPunctNone(s);
  }

  /** Lower-casing leaves a word alone. */
  lemma {:induction false} WordLower(s: string)
    requires IsWord(s)
    ensures Lower(s) == s
  {
    if s != [] {
      assert IsWord(s[1..]) by {
        forall i | 0 <= i < |s[1..]| ensures IsLowerLetter(s[1..][i]) {
          assert s[1..][i] == s[i + 1];
        }
      }
      WordLower(s[1..]);
      assert s == [s[0]] + s[1..];
    }
  }

  /** With ß, upper-casing is not undone by lower-casing: "SS" does not match "ß". */
  lemma MatchUpperCaseSharpS()
    ensures Upper("ß") == "SS"
    ensures MatchAnswer(Upper("ß"), "ß") == Verdict(false, "")
  {
    UpperSharpS();
    SharpSNoMatch();
  }

  lemma UpperSharpS()
    ensures Upper("ß") == "SS"
  {
    assert Upper("ß") == "SS" + Upper("");
  }

  lemma SharpSNoMatch()
    ensures MatchAnswer("SS", "ß") == Verdict(false, "")
  {
    SharpSComparable();
    SharpSLowerComparable();
    assert StripAccents("ss") != StripAccents("ß") by {
      SharpSAccents();
      SharpSLowerAccents();
    }
    assert !AtLeastThreshold(Ratio("ss", "ß")) by {
      SharpSRatio();
    }
    MatchNoTier("SS", "ß");
  }

  /** Answers whose comparable forms differ, also without accents, and whose
      similarity is below the threshold get no hint. */
  lemma MatchNoTier(userAnswer: string, expected: string)
    requires var u, e := Comparable(userAnswer), Comparable(expected);
      u != e && StripAccents(u) != StripAccents(e) && !AtLeastThreshold(Ratio(u, e))
    ensures MatchAnswer(userAnswer, expected) == Verdict(false, "")
  {
    MatchAnswerTiers(userAnswer, expected);
  }

  lemma SharpSComparable()
    ensures Comparable("SS") == "ss"
  {
    calc {
      Comparable("SS");
      StripTrailingPunct(Lower(NormalizeWhitespace("SS")));
      { NormalizeNoSpace("SS"); }
      StripTrailingPunct(Lower("SS"));
      { assert Lower("SS") == "ss"; }
      StripTrailingPunct("ss");
      { StripTrailingPunctNone("ss"); }
      "ss";
    }
  }

  lemma SharpSLowerComparable()
    ensures Comparable("ß") == "ß"
  {
    ComparableWord("ß");
  }

  lemma SharpSAccents()
    ensures StripAccents("ss") == "ss"
  {
    StripAccentsPlain("ss");
  }

  lemma SharpSLowerAccents()
    ensures StripAccents("ß") == "ß"
  {
    StripAccentsPlain("ß");
  }

  lemma SharpSRatio()
    ensures Ratio("ss", "ß") == Fraction(0, 3)
  {
    assert LcsLen("s", "ß") == Max(LcsLen("", "ß"), LcsLen("s", ""));
    assert LcsLen("ss", "ß") == Max(LcsLen("s", "ß"), LcsLen("ss", ""));
  }

  /** With µ, upper-casing is not undone either: `toUpperCase` maps the micro
      sign to the Greek capital mu, which lower-cases to the Greek small mu, so
      "Μ" does not match "µ". */
  lemma MatchUpperCaseMicro()
    ensures Upper("µ") == "\U{039C}"
    ensures MatchAnswer(Upper("µ"), "µ") == Verdict(false, "")
  {
    assert Upper("µ") == "\U{039C}" + Upper("");
    MicroNoMatch();
  }

  lemma MicroNoMatch()
    ensures MatchAnswer("\U{039C}", "µ") == Verdict(false, "")
  {
    MicroComparable();
    assert StripAccents("\U{03BC}") != StripAccents("µ") by {
      MicroAccents();
    }
    assert !AtLeastThreshold(Ratio("\U{03BC}", "µ")) by {
      MicroRatio();
    }
    MatchNoTier("\U{039C}", "µ");
  }

  lemma MicroComparable()
    ensures Comparable("\U{039C}") == "\U{03BC}" && Comparable("µ") == "µ"
  {
    MicroCapitalComparable();
    MicroSignComparable();
  }

  lemma MicroCapitalComparable()
    ensures Comparable("\U{039C}") == "\U{03BC}"
  {
    ComparableChar('\U{039C}');
  }

  lemma MicroSignComparable()
    ensures Comparable("µ") == "µ"
  {
    ComparableChar('µ');
  }

  lemma MicroAccents()
    ensures StripAccents("\U{03BC}") == "\U{03BC}" && StripAccents("µ") == "µ"
  {
    StripAccentsPlain("\U{03BC}");
    StripAccentsPlain("µ");
  }

  lemma MicroRatio()
    ensures Ratio("\U{03BC}", "µ") == Fraction(0, 2)
  {
    assert LcsLen("\U{03BC}", "µ") == Max(LcsLen("", "µ"), LcsLen("\U{03BC}", ""));
  }

  /** A single character that is neither whitespace nor final punctuation
      compares as its lower case. */
  lemma ComparableChar(c: char)
    requires !IsJsSpace(c) && !IsFinalPunct(LowerChar(c)) && !IsJsSpace(LowerChar(c))
    ensures Comparable([c]) == [LowerChar(c)]
  {
    calc {
      Comparable([c]);
      StripTrailingPunct(Lower(NormalizeWhitespace([c])));
      { NormalizeNoSpace([c]); }
      StripTrailingPunct(Lower([c]));
      { assert Lower([c]) == [LowerChar(c)]; }
      StripTrailingPunct([LowerChar(c)]);
      { StripTrailingPunctNone([LowerChar(c)]); }
      [LowerChar(c)];
    }
  }

  /** A missing accent earns the accent hint rather than acceptance. */
  lemma MatchAccentExample()
    ensures MatchAnswer("ecole", "école") == Verdict(false, AccentHint)
  {
    EcoleComparable();
    EcoleAccentedComparable();
    EcoleAccents();
    MatchAccentOnly("ecole", "école");
  }

  /** Answers that differ only in their accents get the accent hint. */
  lemma MatchAccentOnly(userAnswer: string, expected: string)
    requires Comparable(userAnswer) != Comparable(expected)
    requires StripAccents(Comparable(userAnswer)) == StripAccents(Comparable(expected))
    ensures MatchAnswer(userAnswer, expected) == Verdict(false, AccentHint)
  {
    MatchAnswerTiers(userAnswer, expected);
  }

  lemma EcoleAccents()
    ensures StripAccents("ecole") == StripAccents("école")
  {
    calc {
      StripAccents("ecole");
      { StripAccentsEcole(); }
      "ecole";
      { BaseLettersEcole(); }
      MapChars("école", BaseChar);
      { StripAccentsLetters("école"); }
      StripAccents("école");
    }
  }

  lemma EcoleComparable()
    ensures Comparable("ecole") == "ecole"
  {
    ComparableWord("ecole");
  }

  lemma EcoleAccentedComparable()
    ensures Comparable("école") == "école"
  {
    ComparableWord("école");
  }

  lemma StripAccentsEcole()
    ensures StripAccents("ecole") == "ecole"
  {
    StripAccentsPlain("ecole");
  }
}
