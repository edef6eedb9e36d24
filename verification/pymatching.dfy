/** The Python answer matcher (`match_answer` in lib/matching.py).

    It climbs the same seven-tier ladder as the TypeScript matcher, with four
    differences: `casefold` instead of `toLowerCase`, Python's whitespace class,
    Python's `$` (which also matches just before a final newline), and removal of
    every non-spacing mark (category Mn) instead of the U+0300..U+036F block.
    The similarity ratio comes from `difflib.SequenceMatcher`, which is not part
    of this model: it is a parameter of the matcher. */
module PyMatching {
  import opened Seqs
  import opened Text
  import Matching

  // ---------------------------------------------------------------------------
  // Normalisers
  // ---------------------------------------------------------------------------

  /** `_MULTI_SPACE.sub(" ", text.strip())`. */
  function NormalizeWhitespace(text: string): (r: string)
    ensures OnlyPlainSpaces(r, IsPySpace) && NoAdjacent(r, IsPySpace)
    ensures r == [] || (!IsPySpace(r[0]) && !IsPySpace(r[|r| - 1]))
  {
    var t := Strip(text, IsPySpace);
    CollapseRunsPlain(t, IsPySpace);
    CollapseRunsNoAdjacent(t, IsPySpace);
    CollapseRunsStripped(t, IsPySpace);
    CollapseRuns(t, IsPySpace)
  }

  /** `_TRAILING_PUNCT.sub("", text)` with the pattern `[.!?]+$`: without the
      MULTILINE flag `$` matches at the end and also just before a newline that
      ends the string, so a run of punctuation right before that newline goes. */
  function SubTrailingPunct(text: string): (r: string)
    ensures |r| <= |text|
    ensures text != [] && text[|text| - 1] == '\n' ==> r != [] && r[|r| - 1] == '\n'
  {
    if text != [] && text[|text| - 1] == '\n' then
      DropTrailing(text[..|text| - 1], IsFinalPunct) + "\n"
    else
      DropTrailing(text, IsFinalPunct)
  }

  /** `_strip_trailing_punct`: the substitution, then `rstrip()`. */
  function StripTrailingPunct(text: string): (r: string)
    ensures |r| <= |text| && r == text[..|r|]
    ensures r == [] || !IsPySpace(r[|r| - 1])
  {
    var t := SubTrailingPunct(text);
    if text != [] && text[|text| - 1] == '\n' then
      var u := DropTrailing(text[..|text| - 1], IsFinalPunct);
      assert DropTrailing(t, IsPySpace) == DropTrailing(u, IsPySpace) by {
        assert t[..|t| - 1] == u;
      }
      DropTrailing(t, IsPySpace)
    else
      DropTrailing(t, IsPySpace)
  }

  /** A newline that ends the string does not shield the punctuation before it
      (as long as it is the only final newline). */
  lemma StripTrailingPunctFinalNewline(text: string)
    requires |text| >= 1 && text[|text| - 1] == '\n'
    requires |text| < 2 || text[|text| - 2] != '\n'
    ensures StripTrailingPunct(text) == StripTrailingPunct(text[..|text| - 1])
  {
    var init := text[..|text| - 1];
    var u := DropTrailing(init, IsFinalPunct);
    var t := u + "\n";
    assert t[..|t| - 1] == u;
    if init != [] {
      assert init[|init| - 1] == text[|text| - 2];
    }
  }

  /** The characters that survive `unicodedata.category(ch) != "Mn"`. */
  predicate KeptByAccentStrip(c: char) { !IsMn(c) }

  /** `_strip_accents`: the NFD form without its non-spacing marks. */
  function StripAccents(text: string): (r: string)
    ensures forall i :: 0 <= i < |r| ==> !IsMn(r[i])
  {
    Filter(Nfd(text), KeptByAccentStrip)
  }

  /** Accent stripping keeps exactly the characters of the NFD form that are
      not marks, in their order, and never adds one. */
  lemma StripAccentsMembers(text: string, c: char)
    ensures c in StripAccents(text) <==> c in Nfd(text) && !IsMn(c)
    ensures multiset(StripAccents(text)) <= multiset(Nfd(text))
  {
    FilterMember(Nfd(text), KeptByAccentStrip, c);
    FilterPartition(Nfd(text), KeptByAccentStrip);
  }

  /** When every mark in the NFD form lies in U+0300..U+036F, the Python and the
      TypeScript accent strippers agree. */
  lemma StripAccentsAgree(text: string)
    requires forall i :: 0 <= i < |Nfd(text)| ==> IsMn(Nfd(text)[i]) ==> IsCombiningDiacritic(Nfd(text)[i])
    ensures StripAccents(text) == Matching.StripAccents(text)
  {
    forall c ensures IsCombiningDiacritic(c) ==> IsMn(c) {
      CombiningDiacriticIsMn(c);
    }
    FilterCongruent(Nfd(text), KeptByAccentStrip, Matching.KeptByAccentStrip);
  }

  // ---------------------------------------------------------------------------
  // The tolerance ladder
  // ---------------------------------------------------------------------------

  /** The form the ladder compares from tier 4 on. */
  function Comparable(s: string): string
  {
    StripTrailingPunct(CaseFold(NormalizeWhitespace(s)))
  }

  /** `match_answer(user_answer, expected)`, with the `SequenceMatcher` ratio
      supplied as `ratio`. */
  function MatchAnswer(userAnswer: string, expected: string,
                       ratio: (string, string) -> Matching.Fraction): (v: Matching.Verdict)
    ensures userAnswer == expected ==> v == Matching.Accepted
    ensures v.correct ==> v.hint == ""
    ensures v.hint == "" || v.hint == Matching.AccentHint || v.hint == Matching.SpellingHint
  {
    // 1. exact
    if userAnswer == expected then Matching.Accepted
    // 2. casefold
    else if CaseFold(userAnswer) == CaseFold(expected) then Matching.Accepted
    else
      // 3. whitespace normalised, casefold
      var userNorm := CaseFold(NormalizeWhitespace(userAnswer));
      var expectedNorm := CaseFold(NormalizeWhitespace(expected));
      if userNorm == expectedNorm then Matching.Accepted
      else
        // 4. final punctuation removed
        var userNoPunct := StripTrailingPunct(userNorm);
        var expectedNoPunct := StripTrailingPunct(expectedNorm);
        if userNoPunct == expectedNoPunct then Matching.Accepted
        // 5. marks removed: almost
        else if StripAccents(userNoPunct) == StripAccents(expectedNoPunct) then
          Matching.Verdict(false, Matching.AccentHint)
        // 6. similar spelling, on the accented forms
        else if Matching.AtLeastThreshold(ratio(userNoPunct, expectedNoPunct)) then
          Matching.Verdict(false, Matching.SpellingHint)
        // 7. no match
        else Matching.Verdict(false, "")
  }

  /** Case folding commutes with whitespace normalisation. */
  lemma CaseFoldNormalizeWhitespace(s: string)
    ensures CaseFold(NormalizeWhitespace(s)) == NormalizeWhitespace(CaseFold(s))
  {
    FoldKeepsPySpace();
    FlatMapDropLeading(s, IsPySpace, FoldChar);
    FlatMapDropTrailing(DropLeading(s, IsPySpace), IsPySpace, FoldChar);
    FlatMapCollapseRuns(Strip(s, IsPySpace), IsPySpace, FoldChar);
  }

  /** The ladder depends only on the comparable forms: tiers 1 to 3 are
      shortcuts of tier 4, the mark tier precedes the ratio tier, and the ratio
      is taken on the forms that still carry their marks. */
  lemma MatchAnswerTiers(userAnswer: string, expected: string,
                         ratio: (string, string) -> Matching.Fraction)
    ensures var u, e := Comparable(userAnswer), Comparable(expected);
      MatchAnswer(userAnswer, expected, ratio) ==
        if u == e then Matching.Accepted
        else if StripAccents(u) == StripAccents(e) then Matching.Verdict(false, Matching.AccentHint)
        else if Matching.AtLeastThreshold(ratio(u, e)) then Matching.Verdict(false, Matching.SpellingHint)
        else Matching.Verdict(false, "")
  {
    if CaseFold(userAnswer) == CaseFold(expected) {
      CaseFoldNormalizeWhitespace(userAnswer);
      CaseFoldNormalizeWhitespace(expected);
    }
  }

  /** An answer is correct exactly when its comparable form is the expected one's. */
  lemma MatchCorrectIff(userAnswer: string, expected: string,
                        ratio: (string, string) -> Matching.Fraction)
    ensures MatchAnswer(userAnswer, expected, ratio).correct
        <==> Comparable(userAnswer) == Comparable(expected)
  {
    MatchAnswerTiers(userAnswer, expected, ratio);
  }

  /** Answers that differ only in their marks get the accent hint, whatever the ratio. */
  lemma MatchAccentOnly(userAnswer: string, expected: string,
                        ratio: (string, string) -> Matching.Fraction)
    requires Comparable(userAnswer) != Comparable(expected)
    requires StripAccents(Comparable(userAnswer)) == StripAccents(Comparable(expected))
    ensures MatchAnswer(userAnswer, expected, ratio) == Matching.Verdict(false, Matching.AccentHint)
  {
    MatchAnswerTiers(userAnswer, expected, ratio);
  }

  /** Past the mark tier, the verdict is decided by the ratio alone. */
  lemma MatchByRatio(userAnswer: string, expected: string,
                     ratio: (string, string) -> Matching.Fraction)
    requires var u, e := Comparable(userAnswer), Comparable(expected);
      u != e && StripAccents(u) != StripAccents(e)
    ensures var r := ratio(Comparable(userAnswer), Comparable(expected));
      MatchAnswer(userAnswer, expected, ratio) ==
        if Matching.AtLeastThreshold(r) then Matching.Verdict(false, Matching.SpellingHint)
        else Matching.Verdict(false, "")
  {
    MatchAnswerTiers(userAnswer, expected, ratio);
  }

  /** Unlike `toLowerCase`, `casefold` maps "SS" and "ß" to the same string, so
      the Python matcher accepts "SS" for "ß" at tier 2. */
  lemma MatchSharpS(ratio: (string, string) -> Matching.Fraction)
    ensures MatchAnswer("SS", "ß", ratio) == Matching.Accepted
  {
    CaseFoldSharpS();
  }

  lemma CaseFoldSharpS()
    ensures CaseFold("SS") == "ss" && CaseFold("ß") == "ss"
  {
    assert CaseFold("ß") == "ss" + CaseFold("");
    assert CaseFold("SS") == ['s'] + CaseFold("S");
  }

  /** A final newline: Python's helper removes the punctuation before it,
      JavaScript's does not, since its `$` only matches at the very end.  This
      is a difference between the two helpers taken alone: inside either
      matcher whitespace normalisation has already turned every newline into a
      space or trimmed it, so the matchers themselves never see "a.\n". */
  lemma FinalNewlineDiffers()
    ensures StripTrailingPunct("a.\n") == "a"
    ensures Matching.StripTrailingPunct("a.\n") == "a."
  {
    PyFinalNewline();
    JsFinalNewline();
  }

  lemma PyFinalNewline()
    ensures StripTrailingPunct("a.\n") == "a"
  {
    assert "a.\n"[..2] == "a." && "a."[..1] == "a" && "a\n"[..1] == "a";
    assert DropTrailing("a.", IsFinalPunct) == "a";
    assert SubTrailingPunct("a.\n") == "a\n";
    assert DropTrailing("a\n", IsPySpace) == "a";
  }

  lemma JsFinalNewline()
    ensures Matching.StripTrailingPunct("a.\n") == "a."
  {
    assert "a.\n"[..2] == "a.";
    assert DropTrailing("a.\n", IsFinalPunct) == "a.\n";
    assert DropTrailing("a.\n", IsJsSpace) == "a.";
  }
}
