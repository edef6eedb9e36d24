/** Character classes and string primitives shared by both answer matchers.

    The case mappings and the canonical decomposition are given as small tables
    that cover ASCII, Latin-1, the French letters outside it (Œ, Ÿ) and the
    Greek mu that the micro sign µ becomes; other code points are left
    unchanged by them.  The whitespace classes are the full
    ones of each language's runtime. */
module Text {
  import opened Seqs

  // ---------------------------------------------------------------------------
  // Character classes
  // ---------------------------------------------------------------------------

  /** JavaScript's `\s`, which is also what `trim` and `trimEnd` remove:
      WhiteSpace, LineTerminator and the space separators (Zs). */
  predicate IsJsSpace(c: char)
  {
    c == '\t' || c == '\n' || c == '\U{000B}' || c == '\U{000C}' || c == '\r' || c == ' '
    || c == '\U{00A0}' || c == '\U{1680}' || ('\U{2000}' <= c <= '\U{200A}')
    || c == '\U{2028}' || c == '\U{2029}' || c == '\U{202F}' || c == '\U{205F}'
    || c == '\U{3000}' || c == '\U{FEFF}'
  }

  /** Python's `str.isspace`, used by `str.strip`, `str.rstrip` and by `\s` in a
      `str` pattern.  Unlike JavaScript it includes U+001C..U+001F and U+0085
      and excludes U+FEFF. */
  predicate IsPySpace(c: char)
  {
    ('\t' <= c <= '\r') || ('\U{001C}' <= c <= '\U{001F}') || c == ' '
    || c == '\U{0085}' || c == '\U{00A0}' || c == '\U{1680}'
    || ('\U{2000}' <= c <= '\U{200A}') || c == '\U{2028}' || c == '\U{2029}'
    || c == '\U{202F}' || c == '\U{205F}' || c == '\U{3000}'
  }

  /** The class `[.!?]` of sentence-final punctuation. */
  predicate IsFinalPunct(c: char)
  {
    c == '.' || c == '!' || c == '?'
  }

  /** The class `[\u0300-\u036f]`, the Combining Diacritical Marks block. */
  predicate IsCombiningDiacritic(c: char)
  {
    '\U{0300}' <= c <= '\U{036F}'
  }

  /** Unicode general category Mn (non-spacing mark), restricted to the
      combining-diacritic blocks: the basic block, its extension and supplement,
      the marks for symbols and the half marks. */
  predicate IsMn(c: char)
  {
    IsCombiningDiacritic(c)
    || ('\U{1AB0}' <= c <= '\U{1ABD}') || ('\U{1DC0}' <= c <= '\U{1DFF}')
    || ('\U{20D0}' <= c <= '\U{20DC}') || c == '\U{20E1}' || ('\U{20E5}' <= c <= '\U{20F0}')
    || ('\U{FE20}' <= c <= '\U{FE2F}')
  }

  lemma CombiningDiacriticIsMn(c: char)
    ensures IsCombiningDiacritic(c) ==> IsMn(c)
  {
  }

  // ---------------------------------------------------------------------------
  // Case mappings (tables)
  // ---------------------------------------------------------------------------

  /** Lower case of one character, as `toLowerCase` maps it. */
  function LowerChar(c: char): char
  {
    if 'A' <= c <= 'Z' then (c as int + 32) as char
    else if '\U{00C0}' <= c <= '\U{00DE}' && c != '\U{00D7}' then (c as int + 32) as char
    else if c == '\U{0152}' then '\U{0153}'        // Œ -> œ
    else if c == '\U{0178}' then '\U{00FF}'        // Ÿ -> ÿ
    else if c == '\U{039C}' then '\U{03BC}'        // Greek capital mu -> small mu
    else c
  }

  /** Upper case of one character, as `toUpperCase` maps it; ß becomes "SS"
      and the micro sign µ becomes the Greek capital mu. */
  function UpperChar(c: char): seq<char>
  {
    if 'a' <= c <= 'z' then [(c as int - 32) as char]
    else if '\U{00E0}' <= c <= '\U{00FE}' && c != '\U{00F7}' then [(c as int - 32) as char]
    else if c == '\U{00DF}' then "SS"              // ß
    else if c == '\U{0153}' then ['\U{0152}']      // œ -> Œ
    else if c == '\U{00FF}' then ['\U{0178}']      // ÿ -> Ÿ
    else if c == '\U{00B5}' || c == '\U{03BC}' then ['\U{039C}']  // µ, small mu -> capital mu
    else [c]
  }

  /** Case folding of one character, as Python's `str.casefold` maps it:
      the lower-case table, except that ß folds to "ss" and the micro sign µ
      to the Greek small mu. */
  function FoldChar(c: char): seq<char>
  {
    if c == '\U{00DF}' then "ss"
    else if c == '\U{00B5}' then ['\U{03BC}']
    else [LowerChar(c)]
  }

  /** Upper-casing then lower-casing a character other than ß and µ gives its
      lower case. */
  lemma LowerUpperChar(c: char)
    requires c != '\U{00DF}' && c != '\U{00B5}'
    ensures |UpperChar(c)| == 1 && LowerChar(UpperChar(c)[0]) == LowerChar(c)
  {
  }

  // ---------------------------------------------------------------------------
  // Canonical decomposition (table)
  // ---------------------------------------------------------------------------

  /** NFD of one character: the French accented letters split into a base letter
      and a combining mark; every other character is its own decomposition. */
  function DecomposeChar(c: char): (r: seq<char>)
    ensures 1 <= |r| <= 2
    ensures |r| == 1 ==> r == [c]
    ensures |r| == 2 ==> IsCombiningDiacritic(r[1]) && !IsMn(r[0])
  {
    match c
    case 'à' => "a\U{0300}"  case 'â' => "a\U{0302}"  case 'ä' => "a\U{0308}"
    case 'ç' => "c\U{0327}"
    case 'è' => "e\U{0300}"  case 'é' => "e\U{0301}"  case 'ê' => "e\U{0302}"  case 'ë' => "e\U{0308}"
    case 'î' => "i\U{0302}"  case 'ï' => "i\U{0308}"
    case 'ô' => "o\U{0302}"  case 'ö' => "o\U{0308}"
    case 'ù' => "u\U{0300}"  case 'û' => "u\U{0302}"  case 'ü' => "u\U{0308}"
    case 'ÿ' => "y\U{0308}"
    case 'À' => "A\U{0300}"  case 'Â' => "A\U{0302}"  case 'Ä' => "A\U{0308}"
    case 'Ç' => "C\U{0327}"
    case 'È' => "E\U{0300}"  case 'É' => "E\U{0301}"  case 'Ê' => "E\U{0302}"  case 'Ë' => "E\U{0308}"
    case 'Î' => "I\U{0302}"  case 'Ï' => "I\U{0308}"
    case 'Ô' => "O\U{0302}"  case 'Ö' => "O\U{0308}"
    case 'Ù' => "U\U{0300}"  case 'Û' => "U\U{0302}"  case 'Ü' => "U\U{0308}"
    case 'Ÿ' => "Y\U{0308}"
    case _ => [c]
  }

  // ---------------------------------------------------------------------------
  // String primitives
  // ---------------------------------------------------------------------------

  /** Applies a character-to-string mapping to every character and concatenates. */
  function FlatMap(s: string, f: char -> seq<char>): string
  {
    if s == [] then [] else f(s[0]) + FlatMap(s[1..], f)
  }

  lemma FlatMapSingle(c: char, f: char -> seq<char>)
    ensures FlatMap([c], f) == f(c)
  {
    assert [c][1..] == [];
  }

  lemma {:induction false} FlatMapConcat(s: string, t: string, f: char -> seq<char>)
    ensures FlatMap(s + t, f) == FlatMap(s, f) + FlatMap(t, f)
  {
    if s == [] {
      assert s + t == t;
    } else {
      assert (s + t)[0] == s[0] && (s + t)[1..] == s[1..] + t;
      FlatMapConcat(s[1..], t, f);
    }
  }

  /** Applies a character mapping to every character. */
  function MapChars(s: string, f: char -> char): (r: string)
    ensures |r| == |s|
  {
    if s == [] then [] else [f(s[0])] + MapChars(s[1..], f)
  }

  /** Each character of the result is the image of the character at the same place. */
  lemma {:induction false} MapCharsIndex(s: string, f: char -> char)
    ensures forall i :: 0 <= i < |s| ==> MapChars(s, f)[i] == f(s[i])
  {
    if s != [] {
      MapCharsIndex(s[1..], f);
      forall i | 0 <= i < |s| ensures MapChars(s, f)[i] == f(s[i]) {
        if i > 0 { assert s[i] == s[1..][i - 1]; }
      }
    }
  }

  /** `toLowerCase` on a string. */
  function Lower(s: string): string { MapChars(s, LowerChar) }

  /** `toUpperCase` on a string. */
  function Upper(s: string): string { FlatMap(s, UpperChar) }

  /** Python's `str.casefold` on a string. */
  function CaseFold(s: string): string { FlatMap(s, FoldChar) }

  /** Canonical decomposition (NFD) of a string. */
  function Nfd(s: string): string { FlatMap(s, DecomposeChar) }

  /** Decomposing and then keeping the characters a predicate accepts works
      character by character, whichever characters the predicate drops. */
  lemma NfdFilterConcat(s: string, t: string, keep: char -> bool)
    ensures Filter(Nfd(s + t), keep) == Filter(Nfd(s), keep) + Filter(Nfd(t), keep)
  {
    FlatMapConcat(s, t, DecomposeChar);
    FilterConcat(Nfd(s), Nfd(t), keep);
  }

  /** Lower-casing an upper-cased string without ß or µ gives its lower case. */
  lemma {:induction false} LowerUpper(s: string)
    requires '\U{00DF}' !in s && '\U{00B5}' !in s
    ensures Lower(Upper(s)) == Lower(s)
  {
    if s != [] {
      LowerUpperChar(s[0]);
      LowerUpper(s[1..]);
      var u := UpperChar(s[0]);
      assert Upper(s) == u + Upper(s[1..]);
      MapConcat(u, Upper(s[1..]), LowerChar);
      MapConcat([s[0]], s[1..], LowerChar);
      assert s == [s[0]] + s[1..];
    }
  }

  lemma {:induction false} MapConcat(s: string, t: string, f: char -> char)
    ensures MapChars(s + t, f) == MapChars(s, f) + MapChars(t, f)
  {
    if s == [] {
      assert s + t == t;
    } else {
      assert (s + t)[0] == s[0] && (s + t)[1..] == s[1..] + t;
      MapConcat(s[1..], t, f);
    }
  }

  /** Removes the longest prefix whose characters all satisfy p. */
  function DropLeading(s: string, p: char -> bool): (r: string)
    ensures |r| <= |s| && r == s[|s| - |r|..]
    ensures r == [] || !p(r[0])
  {
    if s != [] && p(s[0]) then
      var r := DropLeading(s[1..], p);
      assert s[1..][|s| - 1 - |r|..] == s[|s| - |r|..];
      r
    else s
  }

  /** Every character DropLeading removes satisfies p. */
  lemma {:induction false} DropLeadingDropped(s: string, p: char -> bool)
    ensures forall i :: 0 <= i < |s| - |DropLeading(s, p)| ==> p(s[i])
  {
    if s != [] && p(s[0]) {
      DropLeadingDropped(s[1..], p);
      forall i | 0 <= i < |s| - |DropLeading(s, p)| ensures p(s[i]) {
        if i > 0 { assert s[i] == s[1..][i - 1]; }
      }
    }
  }

  /** Removes the longest suffix whose characters all satisfy p. */
  function DropTrailing(s: string, p: char -> bool): (r: string)
    ensures |r| <= |s| && r == s[..|r|]
    ensures r == [] || !p(r[|r| - 1])
  {
    if s != [] && p(s[|s| - 1]) then DropTrailing(s[..|s| - 1], p) else s
  }

  /** Every character DropTrailing removes satisfies p. */
  lemma {:induction false} DropTrailingDropped(s: string, p: char -> bool)
    ensures forall i :: |DropTrailing(s, p)| <= i < |s| ==> p(s[i])
  {
    if s != [] && p(s[|s| - 1]) {
      DropTrailingDropped(s[..|s| - 1], p);
    }
  }

  /** A string that does not start with a p-character loses nothing at the front. */
  lemma DropLeadingNone(s: string, p: char -> bool)
    requires s == [] || !p(s[0])
    ensures DropLeading(s, p) == s
  {
  }

  /** A string that does not end with a p-character loses nothing at the end. */
  lemma DropTrailingNone(s: string, p: char -> bool)
    requires s == [] || !p(s[|s| - 1])
    ensures DropTrailing(s, p) == s
  {
  }

  /** Removes p-characters from both ends, as `trim` and `strip` do. */
  function Strip(s: string, p: char -> bool): string
  {
    DropTrailing(DropLeading(s, p), p)
  }

  /** Replaces every maximal run of p-characters by one space. */
  function CollapseRuns(s: string, p: char -> bool): (r: string)
    ensures |r| <= |s|
    decreases |s|
  {
    if s == [] then []
    else if p(s[0]) then [' '] + CollapseRuns(DropLeading(s[1..], p), p)
    else [s[0]] + CollapseRuns(s[1..], p)
  }

  /** Every p-character of r is a plain space. */
  ghost predicate OnlyPlainSpaces(r: string, p: char -> bool)
  {
    forall i :: 0 <= i < |r| && p(r[i]) ==> r[i] == ' '
  }

  /** No two p-characters are adjacent in r. */
  ghost predicate NoAdjacent(r: string, p: char -> bool)
  {
    forall i, j :: 0 <= i && j == i + 1 && j < |r| && p(r[i]) ==> !p(r[j])
  }

  /** Collapsing leaves only plain spaces of the class p. */
  lemma {:induction false} CollapseRunsPlain(s: string, p: char -> bool)
    ensures OnlyPlainSpaces(CollapseRuns(s, p), p)
    decreases |s|
  {
    if s != [] {
      var t := if p(s[0]) then DropLeading(s[1..], p) else s[1..];
      var head := if p(s[0]) then ' ' else s[0];
      CollapseRunsPlain(t, p);
      assert CollapseRuns(s, p) == [head] + CollapseRuns(t, p);
      PlainCons(head, CollapseRuns(t, p), p);
    }
  }

  /** Prepending a plain space or a character outside p keeps OnlyPlainSpaces. */
  lemma PlainCons(c: char, r: string, p: char -> bool)
    requires OnlyPlainSpaces(r, p)
    requires p(c) ==> c == ' '
    ensures OnlyPlainSpaces([c] + r, p)
  {
    var u := [c] + r;
    forall i | 0 <= i < |u| && p(u[i]) ensures u[i] == ' ' {
      if i > 0 { assert u[i] == r[i - 1]; }
    }
  }

  /** The tail of a collapsed string is collapsed. */
  lemma CollapsedTail(s: string, p: char -> bool)
    requires s != [] && OnlyPlainSpaces(s, p) && NoAdjacent(s, p)
    ensures OnlyPlainSpaces(s[1..], p) && NoAdjacent(s[1..], p)
    ensures p(s[0]) ==> s[0] == ' ' && (|s| == 1 || !p(s[1]))
  {
    var t := s[1..];
    forall i | 0 <= i < |t| && p(t[i]) ensures t[i] == ' ' {
      assert t[i] == s[i + 1];
    }
    forall i, j | 0 <= i && j == i + 1 && j < |t| && p(t[i]) ensures !p(t[j]) {
      assert t[i] == s[i + 1] && t[j] == s[j + 1];
    }
  }

  /** Collapsing keeps a first character outside p and the last one outside p. */
  lemma {:induction false} CollapseRunsEnds(s: string, p: char -> bool)
    requires s != [] && !p(s[|s| - 1])
    ensures var r := CollapseRuns(s, p);
      r != [] && !p(r[|r| - 1]) && (!p(s[0]) ==> r[0] == s[0])
    decreases |s|
  {
    if |s| > 1 {
      var t := if p(s[0]) then DropLeading(s[1..], p) else s[1..];
      if p(s[0]) {
        DropLeadingKeepsLast(s[1..], p);
      }
      assert t != [] && t[|t| - 1] == s[|s| - 1];
      CollapseRunsEnds(t, p);
      var head := if p(s[0]) then ' ' else s[0];
      assert CollapseRuns(s, p) == [head] + CollapseRuns(t, p);
    }
  }

  /** Dropping a prefix keeps a last character outside p. */
  lemma {:induction false} DropLeadingKeepsLast(s: string, p: char -> bool)
    requires s != [] && !p(s[|s| - 1])
    ensures var t := DropLeading(s, p); t != [] && t[|t| - 1] == s[|s| - 1]
  {
    if p(s[0]) {
      DropLeadingKeepsLast(s[1..], p);
    }
  }

  /** Collapsing a string with no p-character at either end keeps it so. */
  lemma CollapseRunsStripped(s: string, p: char -> bool)
    requires s == [] || (!p(s[0]) && !p(s[|s| - 1]))
    ensures var r := CollapseRuns(s, p); r == [] || (!p(r[0]) && !p(r[|r| - 1]))
  {
    if s != [] { CollapseRunsEnds(s, p); }
  }

  /** When spaces are in p, a collapsed run is never followed by another p-character. */
  lemma {:induction false} CollapseRunsNoAdjacent(s: string, p: char -> bool)
    requires p(' ')
    requires s == [] || !p(s[|s| - 1])
    ensures NoAdjacent(CollapseRuns(s, p), p)
    decreases |s|
  {
    if s != [] {
      if p(s[0]) {
        var t := DropLeading(s[1..], p);
        DropLeadingKeepsLast(s[1..], p);
        CollapseRunsEnds(t, p);
        CollapseRunsNoAdjacent(t, p);
        NoAdjacentCons(' ', CollapseRuns(t, p), p);
      } else {
        var t := s[1..];
        assert t == [] || t[|t| - 1] == s[|s| - 1];
        CollapseRunsNoAdjacent(t, p);
        NoAdjacentCons(s[0], CollapseRuns(t, p), p);
      }
    }
  }

  /** Prepending a character keeps NoAdjacent when it is not a p-character
      followed by one. */
  lemma NoAdjacentCons(c: char, r: string, p: char -> bool)
    requires NoAdjacent(r, p)
    requires p(c) ==> r == [] || !p(r[0])
    ensures NoAdjacent([c] + r, p)
  {
    var u := [c] + r;
    forall i, j | 0 <= i && j == i + 1 && j < |u| && p(u[i]) ensures !p(u[j]) {
      assert u[j] == r[i];
      if i > 0 { assert u[i] == r[i - 1]; }
    }
  }

  /** A collapsed string is left unchanged by collapsing. */
  lemma {:induction false} CollapseRunsFixed(s: string, p: char -> bool)
    requires OnlyPlainSpaces(s, p) && NoAdjacent(s, p)
    ensures CollapseRuns(s, p) == s
    decreases |s|
  {
    if s != [] {
      var t := s[1..];
      CollapsedTail(s, p);
      CollapseRunsFixed(t, p);
      if p(s[0]) {
        assert t == [] || !p(t[0]);
        DropLeadingNone(t, p);
      }
      assert s == [s[0]] + t;
    }
  }

  // ---------------------------------------------------------------------------
  // A character mapping that keeps the class p commutes with the primitives
  // ---------------------------------------------------------------------------

  lemma {:induction false} MapDropLeading(s: string, p: char -> bool, f: char -> char)
    requires forall c :: p(f(c)) == p(c)
    ensures MapChars(DropLeading(s, p), f) == DropLeading(MapChars(s, f), p)
  {
    if s != [] {
      var m := MapChars(s, f);
      assert m == [f(s[0])] + MapChars(s[1..], f);
      assert m[1..] == MapChars(s[1..], f);
      if p(s[0]) {
        MapDropLeading(s[1..], p, f);
      } else {
        DropLeadingNone(s, p);
        DropLeadingNone(m, p);
      }
    }
  }

  lemma {:induction false} MapDropTrailing(s: string, p: char -> bool, f: char -> char)
    requires forall c :: p(f(c)) == p(c)
    ensures MapChars(DropTrailing(s, p), f) == DropTrailing(MapChars(s, f), p)
  {
    if s != [] {
      var m := MapChars(s, f);
      MapCharsIndex(s, f);
      MapCharsIndex(s[..|s| - 1], f);
      assert m[..|m| - 1] == MapChars(s[..|s| - 1], f);
      MapDropTrailing(s[..|s| - 1], p, f);
    }
  }

  lemma {:induction false} MapCollapseRuns(s: string, p: char -> bool, f: char -> char)
    requires forall c :: p(f(c)) == p(c)
    requires f(' ') == ' '
    ensures MapChars(CollapseRuns(s, p), f) == CollapseRuns(MapChars(s, f), p)
    decreases |s|
  {
    if s != [] {
      var m := MapChars(s, f);
      assert m[1..] == MapChars(s[1..], f);
      if p(s[0]) {
        MapDropLeading(s[1..], p, f);
        MapCollapseRuns(DropLeading(s[1..], p), p, f);
        MapConcat([' '], CollapseRuns(DropLeading(s[1..], p), p), f);
      } else {
        MapCollapseRuns(s[1..], p, f);
        MapConcat([s[0]], CollapseRuns(s[1..], p), f);
      }
    }
  }

  // ---------------------------------------------------------------------------
  // A character-to-string mapping that fixes the class p and never produces a
  // p-character from another character commutes with the primitives
  // ---------------------------------------------------------------------------

  /** f leaves p-characters alone and turns every other character into a
      non-empty string without p-characters. */
  ghost predicate KeepsClass(p: char -> bool, f: char -> seq<char>)
  {
    (forall c :: p(c) ==> f(c) == [c])
    && (forall c :: !p(c) ==> f(c) != [] && forall i :: 0 <= i < |f(c)| ==> !p(f(c)[i]))
  }

  lemma {:induction false} FlatMapDropLeading(s: string, p: char -> bool, f: char -> seq<char>)
    requires KeepsClass(p, f)
    ensures FlatMap(DropLeading(s, p), f) == DropLeading(FlatMap(s, f), p)
  {
    if s != [] {
      var rest := FlatMap(s[1..], f);
      assert FlatMap(s, f) == f(s[0]) + rest;
      if p(s[0]) {
        assert f(s[0]) == [s[0]];
        assert (f(s[0]) + rest)[1..] == rest;
        FlatMapDropLeading(s[1..], p, f);
      } else {
        var h := f(s[0]);
        assert h != [] && !p(h[0]);
        assert (h + rest)[0] == h[0];
        DropLeadingNone(s, p);
        DropLeadingNone(h + rest, p);
      }
    }
  }

  lemma {:induction false} FlatMapDropTrailing(s: string, p: char -> bool, f: char -> seq<char>)
    requires KeepsClass(p, f)
    ensures FlatMap(DropTrailing(s, p), f) == DropTrailing(FlatMap(s, f), p)
  {
    if s != [] {
      var init, last := s[..|s| - 1], s[|s| - 1];
      assert s == init + [last];
      FlatMapConcat(init, [last], f);
      FlatMapSingle(last, f);
      var m := FlatMap(s, f);
      if p(last) {
        assert m == FlatMap(init, f) + [last];
        assert m[..|m| - 1] == FlatMap(init, f);
        FlatMapDropTrailing(init, p, f);
      } else {
        DropTrailingNone(s, p);
        DropTrailingNone(m, p);
      }
    }
  }

  /** Collapsing runs passes over a prefix without p-characters. */
  lemma {:induction false} CollapseRunsPrefix(u: string, t: string, p: char -> bool)
    requires forall i :: 0 <= i < |u| ==> !p(u[i])
    ensures CollapseRuns(u + t, p) == u + CollapseRuns(t, p)
  {
    if u != [] {
      assert (u + t)[0] == u[0] && (u + t)[1..] == u[1..] + t;
      CollapseRunsPrefix(u[1..], t, p);
    } else {
      assert u + t == t;
    }
  }

  lemma {:induction false} FlatMapCollapseRuns(s: string, p: char -> bool, f: char -> seq<char>)
    requires KeepsClass(p, f)
    requires p(' ')
    ensures FlatMap(CollapseRuns(s, p), f) == CollapseRuns(FlatMap(s, f), p)
    decreases |s|
  {
    if s != [] {
      var rest := FlatMap(s[1..], f);
      assert FlatMap(s, f) == f(s[0]) + rest;
      if p(s[0]) {
        var t := DropLeading(s[1..], p);
        FlatMapDropLeading(s[1..], p, f);
        FlatMapCollapseRuns(t, p, f);
        FlatMapConcat([' '], CollapseRuns(t, p), f);
        FlatMapSingle(' ', f);
        assert ([s[0]] + rest)[1..] == rest;
      } else {
        FlatMapCollapseRuns(s[1..], p, f);
        FlatMapConcat([s[0]], CollapseRuns(s[1..], p), f);
        FlatMapSingle(s[0], f);
        CollapseRunsPrefix(f(s[0]), rest, p);
      }
    }
  }

  /** Case folding fixes Python whitespace and never produces it. */
  lemma FoldKeepsPySpace()
    ensures KeepsClass(IsPySpace, FoldChar)
  {
    forall c | IsPySpace(c) ensures FoldChar(c) == [c] {
      PySpaceLower(c);
    }
    forall c | !IsPySpace(c)
      ensures FoldChar(c) != [] && forall i :: 0 <= i < |FoldChar(c)| ==> !IsPySpace(FoldChar(c)[i])
    {
      if c != '\U{00DF}' && c != '\U{00B5}' {
        LowerKeepsNonPySpace(c);
      }
    }
  }

  lemma PySpaceLower(c: char)
    requires IsPySpace(c)
    ensures LowerChar(c) == c
  {
  }

  lemma LowerKeepsNonPySpace(c: char)
    requires !IsPySpace(c)
    ensures !IsPySpace(LowerChar(c))
  {
  }
}
