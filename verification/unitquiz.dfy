/** The unit quiz and the mock exam of the TypeScript port
    (`generateUnitQuiz` and `generateExamBlanc` in francais-b2-next/src/lib/quiz.ts),
    together with the question builders the Python port shares.

    Random choices are nondeterministic: the contracts hold for every outcome
    of `sample`, `shuffle` and the writing-prompt draw. */
module UnitQuiz {
  import opened Seqs
  import opened Catalog
  import opened Quiz

  /** The number of questions a unit quiz aims for. */
  const Target: nat := 40

  // ---------------------------------------------------------------------------
  // Weak keys of the current unit
  // ---------------------------------------------------------------------------

  /** Does the weak point belong to the given unit? */
  function OfUnit(unitNum: int): WeakPoint -> bool
  {
    (w: WeakPoint) => w.unit == unitNum
  }

  /** The keys of the weak points of one type, in a list of weak points. */
  function KeysOf(ws: seq<WeakPoint>, kind: WeakPointType): set<string>
  {
    if ws == [] then {}
    else
      var last := ws[|ws| - 1];
      KeysOf(ws[..|ws| - 1], kind) + (if last.kind == kind then {last.key} else {})
  }

  /** The weak keys of one type for one unit: `weakKeysByType[type]`. */
  function WeakKeys(wps: seq<WeakPoint>, unitNum: int, kind: WeakPointType): set<string>
  {
    KeysOf(Filter(wps, OfUnit(unitNum)), kind)
  }

  /** A key is in KeysOf exactly when a weak point of that type carries it. */
  lemma {:induction false} KeysOfMember(ws: seq<WeakPoint>, kind: WeakPointType, k: string)
    ensures k in KeysOf(ws, kind) <==> exists i :: 0 <= i < |ws| && ws[i].kind == kind && ws[i].key == k
  {
    if ws != [] {
      var init := ws[..|ws| - 1];
      KeysOfMember(init, kind, k);
      if exists i :: 0 <= i < |init| && init[i].kind == kind && init[i].key == k {
        var i :| 0 <= i < |init| && init[i].kind == kind && init[i].key == k;
        assert ws[i] == init[i];
      }
    }
  }

  /** A key is weak for a unit and a type exactly when some weak point of that
      unit and type carries it. */
  lemma WeakKeysMember(wps: seq<WeakPoint>, unitNum: int, kind: WeakPointType, k: string)
    ensures k in WeakKeys(wps, unitNum, kind)
        <==> exists w :: w in wps && w.unit == unitNum && w.kind == kind && w.key == k
  {
    var unitWeak := Filter(wps, OfUnit(unitNum));
    KeysOfMember(unitWeak, kind, k);
    if k in WeakKeys(wps, unitNum, kind) {
      var i :| 0 <= i < |unitWeak| && unitWeak[i].kind == kind && unitWeak[i].key == k;
      FilterMember(wps, OfUnit(unitNum), unitWeak[i]);
    }
    if exists w :: w in wps && w.unit == unitNum && w.kind == kind && w.key == k {
      var w :| w in wps && w.unit == unitNum && w.kind == kind && w.key == k;
      FilterMember(wps, OfUnit(unitNum), w);
      var i :| 0 <= i < |unitWeak| && unitWeak[i] == w;
    }
  }

  /** The loop that sorts the current unit's weak keys by type. */
  method CollectWeakKeys(wps: seq<WeakPoint>, unitNum: int)
    returns (vocabulary: set<string>, expression: set<string>, conjugation: set<string>, grammar: set<string>)
    ensures vocabulary == WeakKeys(wps, unitNum, Vocabulary)
    ensures expression == WeakKeys(wps, unitNum, Expression)
    ensures conjugation == WeakKeys(wps, unitNum, Conjugation)
    ensures grammar == WeakKeys(wps, unitNum, Grammar)
  {
    var unitWeak := Filter(wps, OfUnit(unitNum));
    vocabulary, expression, conjugation, grammar := {}, {}, {}, {};
    for i := 0 to |unitWeak|
      invariant vocabulary == KeysOf(unitWeak[..i], Vocabulary)
      invariant expression == KeysOf(unitWeak[..i], Expression)
      invariant conjugation == KeysOf(unitWeak[..i], Conjugation)
      invariant grammar == KeysOf(unitWeak[..i], Grammar)
    {
      var w := unitWeak[i];
      assert unitWeak[..i + 1][..i] == unitWeak[..i];
      match w.kind
      case Vocabulary => vocabulary := vocabulary + {w.key};
      case Expression => expression := expression + {w.key};
      case Conjugation => conjugation := conjugation + {w.key};
      case Grammar => grammar := grammar + {w.key};
    }
    assert unitWeak[..|unitWeak|] == unitWeak;
  }

  /** `weakQuota(n)`: 40% of n, rounded up. */
  function WeakQuota(n: nat): (q: nat)
    ensures 5 * q >= 2 * n && 5 * q < 2 * n + 5
  {
    (2 * n + 4) / 5
  }

  // ---------------------------------------------------------------------------
  // Distractor definitions
  // ---------------------------------------------------------------------------

  /** The definitions of a list of vocabulary items, in order. */
  function DefinitionsOf(vs: seq<VocabItem>): (r: seq<string>)
    ensures |r| == |vs| && forall j :: 0 <= j < |vs| ==> r[j] == vs[j].definition
  {
    seq(|vs|, j requires 0 <= j < |vs| => vs[j].definition)
  }

  /** `allDefs`: every definition of every unit, unit by unit. */
  function Definitions(units: seq<Unit>): seq<string>
  {
    if units == [] then []
    else Definitions(units[..|units| - 1]) + DefinitionsOf(units[|units| - 1].vocabulary)
  }

  /** A string is in allDefs exactly when it is the definition of some
      vocabulary item of some unit. */
  lemma {:induction false} DefinitionsMember(units: seq<Unit>, d: string)
    ensures d in Definitions(units)
        <==> exists i, j :: 0 <= i < |units| && 0 <= j < |units[i].vocabulary|
                           && units[i].vocabulary[j].definition == d
  {
    if units != [] {
      var init := units[..|units| - 1];
      DefinitionsMember(init, d);
      HasDefinitionSnoc(units, d);
      assert Definitions(units) == Definitions(init) + DefinitionsOf(units[|units| - 1].vocabulary);
    }
  }

  /** Some item of the units has the definition exactly when some item of all
      but the last unit has it or the last unit's definitions hold it. */
  lemma HasDefinitionSnoc(units: seq<Unit>, d: string)
    requires units != []
    ensures var init, last := units[..|units| - 1], units[|units| - 1];
      (exists i, j :: 0 <= i < |units| && 0 <= j < |units[i].vocabulary|
                      && units[i].vocabulary[j].definition == d)
      <==> (exists i, j :: 0 <= i < |init| && 0 <= j < |init[i].vocabulary|
                          && init[i].vocabulary[j].definition == d)
           || d in DefinitionsOf(last.vocabulary)
  {
    var init, last := units[..|units| - 1], units[|units| - 1];
    if d in DefinitionsOf(last.vocabulary) {
      var j :| 0 <= j < |last.vocabulary| && DefinitionsOf(last.vocabulary)[j] == d;
      assert units[|units| - 1].vocabulary[j].definition == d;
    }
    if exists i, j :: 0 <= i < |init| && 0 <= j < |init[i].vocabulary| && init[i].vocabulary[j].definition == d {
      var i, j :| 0 <= i < |init| && 0 <= j < |init[i].vocabulary| && init[i].vocabulary[j].definition == d;
      assert units[i] == init[i];
    }
    if exists i, j :: 0 <= i < |units| && 0 <= j < |units[i].vocabulary| && units[i].vocabulary[j].definition == d {
      var i, j :| 0 <= i < |units| && 0 <= j < |units[i].vocabulary| && units[i].vocabulary[j].definition == d;
      if i < |init| {
        assert init[i] == units[i];
      } else {
        assert DefinitionsOf(last.vocabulary)[j] == d;
      }
    }
  }

  /** The nested loop that gathers allDefs. */
  method CollectDefinitions(allUnits: seq<Unit>) returns (allDefs: seq<string>)
    ensures allDefs == Definitions(allUnits)
  {
    allDefs := [];
    for i := 0 to |allUnits|
      invariant allDefs == Definitions(allUnits[..i])
    {
      var u := allUnits[i];
      assert allUnits[..i + 1][..i] == allUnits[..i];
      for j := 0 to |u.vocabulary|
        invariant allDefs == Definitions(allUnits[..i]) + DefinitionsOf(u.vocabulary[..j])
      {
        assert DefinitionsOf(u.vocabulary[..j + 1]) == DefinitionsOf(u.vocabulary[..j]) + [u.vocabulary[j].definition];
        allDefs := allDefs + [u.vocabulary[j].definition];
      }
      assert u.vocabulary[..|u.vocabulary|] == u.vocabulary;
    }
    assert allUnits[..|allUnits|] == allUnits;
  }

  // ---------------------------------------------------------------------------
  // Questions
  // ---------------------------------------------------------------------------

  /** Is d a definition other than c? (the distractor pool's filter) */
  function Other(c: string): string -> bool
  {
    d => d != c
  }

  /** The multiple-choice prompt for a word. */
  function McqPrompt(word: string): string
  {
    "Quelle est la définition de « " + word + " » ?"
  }

  /** The options of a multiple-choice question: the correct definition exactly
      once, plus min(3, |pool|) distractors drawn from the other definitions. */
  ghost predicate McqOptions(options: seq<string>, correct: string, allDefs: seq<string>)
  {
    var pool := Filter(allDefs, Other(correct));
    multiset(options)[correct] == 1
    && multiset(options) - multiset{correct} <= multiset(pool)
    && |options| == 1 + Min(3, |pool|)
  }

  /** A multiple-choice question on item v. */
  method BuildMcq(v: VocabItem, allDefs: seq<string>) returns (q: Question)
    ensures q.Mcq? && q.prompt == McqPrompt(v.word) && q.answer == v.definition && q.key == VocabKey(v)
    ensures McqOptions(q.options, v.definition, allDefs)
  {
    var correctDef := v.definition;
    var pool := Filter(allDefs, Other(correctDef));
    var distractors := Sample(pool, Min(3, |pool|));
    assert correctDef !in pool by {
      forall k | 0 <= k < |pool| ensures pool[k] != correctDef {
        assert Other(correctDef)(pool[k]);
      }
    }
    assert multiset(distractors)[correctDef] == 0 by {
      assert multiset(pool)[correctDef] == 0;
    }
    var options := Shuffled([correctDef] + distractors);
    assert multiset(options) == multiset{correctDef} + multiset(distractors);
    q := Mcq(McqPrompt(v.word), options, correctDef, VocabKey(v));
  }

  /** The question built for the vocabulary item v at a position where it is
      (mcq) or is not a multiple-choice question. */
  ghost predicate VocabQuestionFor(q: Question, v: VocabItem, mcq: bool, allDefs: seq<string>)
  {
    if mcq then
      q.Mcq? && q.prompt == McqPrompt(v.word) && q.answer == v.definition && q.key == VocabKey(v)
      && McqOptions(q.options, v.definition, allDefs)
    else
      q == VocabFill(v.definition, v.answer, v.article, VocabKey(v))
  }

  /** `max(1, floor(nVocab / 4))`: how many vocabulary questions are multiple choice. */
  function McqCount(nVocab: nat): (m: nat)
    ensures m >= 1 && (nVocab >= 4 ==> 4 * m <= nVocab < 4 * m + 4)
  {
    Max(1, nVocab / 4)
  }

  /** The vocabulary-question loop: the first nMcq items become multiple-choice
      questions, the rest fill-in questions. */
  method VocabQuestions(vocabQs: seq<VocabItem>, nMcq: nat, allDefs: seq<string>) returns (qs: seq<Question>)
    ensures |qs| == |vocabQs|
    ensures forall i :: 0 <= i < |qs| ==> VocabQuestionFor(qs[i], vocabQs[i], i < nMcq, allDefs)
  {
    qs := [];
    for i := 0 to |vocabQs|
      invariant |qs| == i
      invariant forall k :: 0 <= k < i ==> VocabQuestionFor(qs[k], vocabQs[k], k < nMcq, allDefs)
    {
      var v := vocabQs[i];
      var key := VocabKey(v);
      var q;
      if i < nMcq {
        q := BuildMcq(v, allDefs);
      } else {
        q := VocabFill(v.definition, v.answer, v.article, key);
      }
      qs := qs + [q];
    }
  }

  /** An expression fill-in question: TypeScript drops an empty example
      (`e.example || undefined`), Python always passes it. */
  function ExprQuestion(port: Port): ExpressionItem -> Question
  {
    (e: ExpressionItem) => ExprFill(e.usage,
      if port == TypeScript && e.example == "" then None else Some(e.example),
      e.expression, ExprKey(e))
  }

  /** The conjugation prompt "verb — tense — person". */
  function ConjPrompt(c: ConjugationItem): string
  {
    c.verb + " — " + c.tense + " — " + c.person
  }

  /** A conjugation fill-in question. */
  function ConjQuestion(c: ConjugationItem): Question
  {
    ConjFill(ConjPrompt(c), c.answer, c.person, ConjKey(c))
  }

  /** A rewrite question: the TypeScript port repeats the source as the prompt. */
  function TransQuestion(port: Port): GrammarTransform -> Question
  {
    (t: GrammarTransform) => Rewrite(t.transformType, t.source,
      if port == TypeScript then Some(t.source) else None,
      t.answer, TransKey(t))
  }

  /** The key of a question of any kind. */
  function QuestionKey(q: Question): string { q.key }

  /** Each question carries the key of the item it was built from, so a weak
      point recorded on the question is found again by the item's key. */
  lemma QuestionKeys(port: Port, e: ExpressionItem, c: ConjugationItem, t: GrammarTransform)
    ensures QuestionKey(ExprQuestion(port)(e)) == ExprKey(e)
    ensures QuestionKey(ConjQuestion(c)) == ConjKey(c)
    ensures QuestionKey(TransQuestion(port)(t)) == TransKey(t)
    ensures ExprQuestion(port)(e).hint == None <==> port == TypeScript && e.example == ""
  {
  }

  // ---------------------------------------------------------------------------
  // The unit quiz
  // ---------------------------------------------------------------------------

  function TotalPool(unit: Unit): nat
  {
    |unit.vocabulary| + |unit.expressions| + |unit.conjugations| + |unit.transforms|
  }

  /** The allocation of the budget left after the expressions over vocabulary,
      conjugation and transforms, in that key order. */
  function UnitAlloc(unit: Unit): (alloc: seq<nat>)
    ensures |alloc| == 3
    ensures alloc[0] <= |unit.vocabulary| && alloc[1] <= |unit.conjugations| && alloc[2] <= |unit.transforms|
  {
    var pools: seq<nat> := [|unit.vocabulary|, |unit.conjugations|, |unit.transforms|];
    AllocBounds(pools, RemainingTarget(unit), TypeScript);
    AllocSpec(pools, RemainingTarget(unit), TypeScript)
  }

  /** `Math.max(TARGET - nExpr, 0)`. */
  function RemainingTarget(unit: Unit): nat
  {
    if |unit.expressions| >= Target then 0 else Target - |unit.expressions|
  }

  /** The quiz is made of the selections vs, es, cs, ts: each a weak-biased
      selection from its pool with the allocated quota (every expression, and a
      40% weak quota elsewhere), turned into questions. */
  ghost predicate Assembled(quiz: QuizData, unit: Unit, allUnits: seq<Unit>, wps: seq<WeakPoint>,
                            vs: seq<VocabItem>, es: seq<ExpressionItem>,
                            cs: seq<ConjugationItem>, ts: seq<GrammarTransform>)
  {
    var alloc := UnitAlloc(unit);
    var u := unit.unitNumber;
    var nExpr := |unit.expressions|;
    Selection(vs, unit.vocabulary, InKeys(WeakKeys(wps, u, Vocabulary), VocabKey), alloc[0], WeakQuota(alloc[0]))
    && Selection(es, unit.expressions, InKeys(WeakKeys(wps, u, Expression), ExprKey), nExpr, nExpr)
    && Selection(cs, unit.conjugations, InKeys(WeakKeys(wps, u, Conjugation), ConjKey), alloc[1], WeakQuota(alloc[1]))
    && Selection(ts, unit.transforms, InKeys(WeakKeys(wps, u, Grammar), TransKey), alloc[2], WeakQuota(alloc[2]))
    && |quiz.vocab| == |vs|
    && (forall i :: 0 <= i < |vs| ==>
          VocabQuestionFor(quiz.vocab[i], vs[i], i < McqCount(alloc[0]), Definitions(allUnits)))
    && quiz.expr == MapSeq(es, ExprQuestion(TypeScript))
    && quiz.conj == MapSeq(cs, ConjQuestion)
    && quiz.trans == MapSeq(ts, TransQuestion(TypeScript))
  }

  /** `generateUnitQuiz(unit, allUnits, weakPoints)`. */
  method GenerateUnitQuiz(unit: Unit, allUnits: seq<Unit>, weakPoints: seq<WeakPoint>) returns (quiz: QuizData)
    ensures TotalPool(unit) == 0 ==> quiz == QuizData([], [], [], [])
    ensures TotalPool(unit) > 0 ==>
      exists vs, es, cs, ts :: Assembled(quiz, unit, allUnits, weakPoints, vs, es, cs, ts)
  {
    var vocab, expr, conj, transforms := unit.vocabulary, unit.expressions, unit.conjugations, unit.transforms;
    var totalPool := |vocab| + |expr| + |conj| + |transforms|;
    if totalPool == 0 {
      return QuizData([], [], [], []);
    }

    var nExpr := |expr|;
    var remainingTarget: nat := if Target - nExpr >= 0 then Target - nExpr else 0;
    var alloc := Allocate([|vocab|, |conj|, |transforms|], remainingTarget, TypeScript);
    assert alloc == UnitAlloc(unit);
    var nVocab, nConj, nTrans := alloc[0], alloc[1], alloc[2];

    var vk, ek, ck, gk := CollectWeakKeys(weakPoints, unit.unitNumber);

    var vocabQs := SplitWeakAndNormal(vocab, InKeys(vk, VocabKey), nVocab, WeakQuota(nVocab));
    var exprQs := SplitWeakAndNormal(expr, InKeys(ek, ExprKey), nExpr, nExpr);
    var conjQs := SplitWeakAndNormal(conj, InKeys(ck, ConjKey), nConj, WeakQuota(nConj));
    var transQs := SplitWeakAndNormal(transforms, InKeys(gk, TransKey), nTrans, WeakQuota(nTrans));

    var allDefs := CollectDefinitions(allUnits);
    var vocabQuestions := VocabQuestions(vocabQs, McqCount(nVocab), allDefs);

    quiz := QuizData(vocabQuestions, MapSeq(exprQs, ExprQuestion(TypeScript)),
                     MapSeq(conjQs, ConjQuestion), MapSeq(transQs, TransQuestion(TypeScript)));
    assert Assembled(quiz, unit, allUnits, weakPoints, vocabQs, exprQs, conjQs, transQs);
  }

  /** Every expression of the unit is asked, once each, in some order. */
  lemma AssembledAllExpressions(quiz: QuizData, unit: Unit, allUnits: seq<Unit>, wps: seq<WeakPoint>,
                                vs: seq<VocabItem>, es: seq<ExpressionItem>,
                                cs: seq<ConjugationItem>, ts: seq<GrammarTransform>)
    requires Assembled(quiz, unit, allUnits, wps, vs, es, cs, ts)
    ensures multiset(quiz.expr) == multiset(MapSeq(unit.expressions, ExprQuestion(TypeScript)))
  {
    var nExpr := |unit.expressions|;
    SelectionAll(es, unit.expressions, InKeys(WeakKeys(wps, unit.unitNumber, Expression), ExprKey), nExpr, nExpr);
    MapMultiset(es, unit.expressions, ExprQuestion(TypeScript));
  }

  /** Each of the other three kinds gets at most its allocation, and the first
      max(1, floor(nVocab / 4)) vocabulary questions are the multiple-choice ones. */
  lemma AssembledShape(quiz: QuizData, unit: Unit, allUnits: seq<Unit>, wps: seq<WeakPoint>,
                       vs: seq<VocabItem>, es: seq<ExpressionItem>,
                       cs: seq<ConjugationItem>, ts: seq<GrammarTransform>)
    requires Assembled(quiz, unit, allUnits, wps, vs, es, cs, ts)
    ensures var alloc := UnitAlloc(unit);
      |quiz.vocab| <= alloc[0] && |quiz.conj| <= alloc[1] && |quiz.trans| <= alloc[2]
      && forall i :: 0 <= i < |quiz.vocab| ==> (quiz.vocab[i].Mcq? <==> i < McqCount(alloc[0]))
  {
    var alloc := UnitAlloc(unit);
    var u := unit.unitNumber;
    SelectionWithinQuota(vs, unit.vocabulary, InKeys(WeakKeys(wps, u, Vocabulary), VocabKey), alloc[0], WeakQuota(alloc[0]));
    SelectionWithinQuota(cs, unit.conjugations, InKeys(WeakKeys(wps, u, Conjugation), ConjKey), alloc[1], WeakQuota(alloc[1]));
    SelectionWithinQuota(ts, unit.transforms, InKeys(WeakKeys(wps, u, Grammar), TransKey), alloc[2], WeakQuota(alloc[2]));
  }

  /** Every multiple-choice question offers its answer exactly once, among
      definitions of other vocabulary items of the course. */
  lemma AssembledMcqOptions(quiz: QuizData, unit: Unit, allUnits: seq<Unit>, wps: seq<WeakPoint>,
                            vs: seq<VocabItem>, es: seq<ExpressionItem>,
                            cs: seq<ConjugationItem>, ts: seq<GrammarTransform>, i: nat, o: string)
    requires Assembled(quiz, unit, allUnits, wps, vs, es, cs, ts)
    requires i < |quiz.vocab| && quiz.vocab[i].Mcq? && o in quiz.vocab[i].options
    ensures multiset(quiz.vocab[i].options)[quiz.vocab[i].answer] == 1
    ensures o != quiz.vocab[i].answer ==> o in Definitions(allUnits)
  {
    var q := quiz.vocab[i];
    var defs := Definitions(allUnits);
    var pool := Filter(defs, Other(q.answer));
    if o != q.answer {
      assert o in multiset(q.options) - multiset{q.answer};
      assert o in multiset(pool);
      FilterMember(defs, Other(q.answer), o);
    }
  }

  // ---------------------------------------------------------------------------
  // The mock exam
  // ---------------------------------------------------------------------------

  /** The exam vocabulary questions of one unit. */
  function ExamVocabOf(u: Unit): (r: seq<ExamVocabQ>)
    ensures |r| == |u.vocabulary|
  {
    seq(|u.vocabulary|, j requires 0 <= j < |u.vocabulary| =>
      var v := u.vocabulary[j];
      ExamVocabQ(v.definition, v.answer, v.article, u.unitNumber))
  }

  /** The transforms of one unit, tagged with its number. */
  function ExamTransformsOf(u: Unit): (r: seq<ExamGrammarQ>)
    ensures |r| == |u.transforms|
  {
    seq(|u.transforms|, j requires 0 <= j < |u.transforms| =>
      var t := u.transforms[j];
      ExamGrammarQ(t.transformType, t.source, t.answer, u.unitNumber))
  }

  /** `allVocab`: the exam vocabulary of every unit, unit by unit. */
  function ExamVocab(units: seq<Unit>): seq<ExamVocabQ>
  {
    if units == [] then [] else ExamVocab(units[..|units| - 1]) + ExamVocabOf(units[|units| - 1])
  }

  /** `allTransforms`: the tagged transforms of every unit, unit by unit. */
  function ExamTransforms(units: seq<Unit>): seq<ExamGrammarQ>
  {
    if units == [] then [] else ExamTransforms(units[..|units| - 1]) + ExamTransformsOf(units[|units| - 1])
  }

  /** Every tagged transform comes from a unit of that number. */
  lemma {:induction false} ExamTransformsFrom(units: seq<Unit>, q: ExamGrammarQ)
    requires q in ExamTransforms(units)
    ensures exists i, j :: (0 <= i < |units| && 0 <= j < |units[i].transforms|
      && q == ExamGrammarQ(units[i].transforms[j].transformType, units[i].transforms[j].source,
                           units[i].transforms[j].answer, units[i].unitNumber))
  {
    var init := units[..|units| - 1];
    if q in ExamTransforms(init) {
      ExamTransformsFrom(init, q);
      var i, j :| 0 <= i < |init| && 0 <= j < |init[i].transforms|
        && q == ExamGrammarQ(init[i].transforms[j].transformType, init[i].transforms[j].source,
                             init[i].transforms[j].answer, init[i].unitNumber);
      assert units[i] == init[i];
    } else {
      var last := units[|units| - 1];
      var j :| 0 <= j < |last.transforms| && ExamTransformsOf(last)[j] == q;
    }
  }

  /** The loop over the units that gathers both exam pools. */
  method CollectExamPools(allUnits: seq<Unit>) returns (allVocab: seq<ExamVocabQ>, allTransforms: seq<ExamGrammarQ>)
    ensures allVocab == ExamVocab(allUnits) && allTransforms == ExamTransforms(allUnits)
  {
    allVocab, allTransforms := [], [];
    for i := 0 to |allUnits|
      invariant allVocab == ExamVocab(allUnits[..i]) && allTransforms == ExamTransforms(allUnits[..i])
    {
      var u := allUnits[i];
      assert allUnits[..i + 1][..i] == allUnits[..i];
      for j := 0 to |u.vocabulary|
        invariant allVocab == ExamVocab(allUnits[..i]) + ExamVocabOf(u)[..j]
      {
        var v := u.vocabulary[j];
        assert ExamVocabOf(u)[..j + 1] == ExamVocabOf(u)[..j] + [ExamVocabQ(v.definition, v.answer, v.article, u.unitNumber)];
        allVocab := allVocab + [ExamVocabQ(v.definition, v.answer, v.article, u.unitNumber)];
      }
      for j := 0 to |u.transforms|
        invariant allTransforms == ExamTransforms(allUnits[..i]) + ExamTransformsOf(u)[..j]
      {
        var t := u.transforms[j];
        assert ExamTransformsOf(u)[..j + 1] == ExamTransformsOf(u)[..j] + [ExamGrammarQ(t.transformType, t.source, t.answer, u.unitNumber)];
        allTransforms := allTransforms + [ExamGrammarQ(t.transformType, t.source, t.answer, u.unitNumber)];
      }
      assert ExamVocabOf(u)[..|u.vocabulary|] == ExamVocabOf(u);
      assert ExamTransformsOf(u)[..|u.transforms|] == ExamTransformsOf(u);
    }
    assert allUnits[..|allUnits|] == allUnits;
  }

  /** The units a list of grammar questions covers. */
  function UnitsOf(qs: seq<ExamGrammarQ>): set<int>
  {
    set q | q in qs :: q.unit
  }

  /** What the duplicate test compares: TypeScript compares type, source and
      unit (`alreadyIncluded`), Python compares whole records (`t not in grammar_qs`).
      The identity is the record with the fields that are not compared blanked. */
  function Ident(q: ExamGrammarQ, port: Port): ExamGrammarQ
  {
    if port == TypeScript then q.(answer := "") else q
  }

  /** The identities occurring in a list of grammar questions. */
  function IdentsOf(qs: seq<ExamGrammarQ>, port: Port): set<ExamGrammarQ>
  {
    set q | q in qs :: Ident(q, port)
  }

  /** `alreadyIncluded`: some chosen question has the same identity as t. */
  predicate AlreadyIncluded(g: seq<ExamGrammarQ>, t: ExamGrammarQ, port: Port)
  {
    exists k :: 0 <= k < |g| && Ident(g[k], port) == Ident(t, port)
  }

  /** No two questions share a unit. */
  ghost predicate DistinctUnits(g: seq<ExamGrammarQ>)
  {
    forall i, j :: 0 <= i < j < |g| ==> g[i].unit != g[j].unit
  }

  /** No two questions share an identity. */
  ghost predicate DistinctIdents(g: seq<ExamGrammarQ>, port: Port)
  {
    forall i, j :: 0 <= i < j < |g| ==> Ident(g[i], port) != Ident(g[j], port)
  }

  /** The first pass over the shuffled transforms: take a transform when its
      unit is not yet used, up to 5. */
  method FirstPass(ts: seq<ExamGrammarQ>) returns (g: seq<ExamGrammarQ>)
    ensures |g| <= 5 && DistinctUnits(g) && forall q :: q in g ==> q in ts
    ensures |g| < 5 ==> UnitsOf(g) == UnitsOf(ts)
  {
    g := [];
    var unitsUsed: set<int> := {};
    var i := 0;
    while i < |ts|
      invariant 0 <= i <= |ts| && |g| <= 5
      invariant DistinctUnits(g) && (forall q :: q in g ==> q in ts)
      invariant unitsUsed == UnitsOf(g) && UnitsOf(g) <= UnitsOf(ts)
      invariant forall k :: 0 <= k < i ==> ts[k].unit in unitsUsed
    {
      if |g| >= 5 {
        break;
      }
      var t := ts[i];
      if t.unit !in unitsUsed {
        assert UnitsOf(g + [t]) == UnitsOf(g) + {t.unit};
        g := g + [t];
        unitsUsed := unitsUsed + {t.unit};
      }
      i := i + 1;
    }
    if |g| < 5 {
      assert i == |ts|;
      forall u | u in UnitsOf(ts) ensures u in UnitsOf(g) {
        var q :| q in ts && q.unit == u;
        var k :| 0 <= k < |ts| && ts[k] == q;
      }
    }
  }

  /** The second pass: fill up to 5 with transforms whose identity is not yet
      taken. */
  method SecondPass(ts: seq<ExamGrammarQ>, first: seq<ExamGrammarQ>, port: Port) returns (g: seq<ExamGrammarQ>)
    requires |first| <= 5 && DistinctIdents(first, port)
    ensures |g| <= 5 && first <= g && DistinctIdents(g, port)
    ensures forall q :: q in g[|first|..] ==> q in ts
    ensures |g| < 5 ==> IdentsOf(ts, port) <= IdentsOf(g, port)
  {
    g := first;
    var i := 0;
    while i < |ts|
      invariant 0 <= i <= |ts| && |g| <= 5 && first <= g
      invariant DistinctIdents(g, port)
      invariant forall q :: q in g[|first|..] ==> q in ts
      invariant forall k :: 0 <= k < i ==> |g| >= 5 || AlreadyIncluded(g, ts[k], port)
    {
      if |g| >= 5 {
        break;
      }
      var t := ts[i];
      if !AlreadyIncluded(g, t, port) {
        assert forall k :: 0 <= k < i ==> AlreadyIncluded(g, ts[k], port) ==> AlreadyIncluded(g + [t], ts[k], port) by {
          forall k | 0 <= k < i && AlreadyIncluded(g, ts[k], port) ensures AlreadyIncluded(g + [t], ts[k], port) {
            var m :| 0 <= m < |g| && Ident(g[m], port) == Ident(ts[k], port);
            assert (g + [t])[m] == g[m];
          }
        }
        assert (g + [t])[|first|..] == g[|first|..] + [t];
        g := g + [t];
        assert AlreadyIncluded(g, t, port) by { assert g[|g| - 1] == t; }
      }
      i := i + 1;
    }
    if |g| < 5 {
      forall x | x in IdentsOf(ts, port) ensures x in IdentsOf(g, port) {
        var q :| q in ts && Ident(q, port) == x;
        var k :| 0 <= k < |ts| && ts[k] == q;
        var m :| 0 <= m < |g| && Ident(g[m], port) == Ident(ts[k], port);
      }
    }
  }

  /** Distinct units make distinct identities. */
  lemma DistinctUnitsIdents(g: seq<ExamGrammarQ>, port: Port)
    requires DistinctUnits(g)
    ensures DistinctIdents(g, port)
  {
  }

  /** A list with distinct identities has as many identities as elements. */
  lemma {:induction false} IdentsCard(g: seq<ExamGrammarQ>, port: Port)
    requires DistinctIdents(g, port)
    ensures |IdentsOf(g, port)| == |g|
  {
    if g != [] {
      IdentsLast(g, port);
      IdentsCard(g[..|g| - 1], port);
    }
  }

  /** Dropping the last question keeps the identities distinct, and the last
      question adds a new identity. */
  lemma IdentsLast(g: seq<ExamGrammarQ>, port: Port)
    requires g != [] && DistinctIdents(g, port)
    ensures var init, last := g[..|g| - 1], g[|g| - 1];
      DistinctIdents(init, port)
      && IdentsOf(g, port) == IdentsOf(init, port) + {Ident(last, port)}
      && Ident(last, port) !in IdentsOf(init, port)
  {
    var init, last := g[..|g| - 1], g[|g| - 1];
    assert g == init + [last];
    forall q | q in init ensures Ident(q, port) != Ident(last, port) {
      var k :| 0 <= k < |init| && init[k] == q;
      assert g[k] == q;
    }
  }

  /** A list with distinct units covers as many units as it has elements. */
  lemma {:induction false} UnitsCard(g: seq<ExamGrammarQ>)
    requires DistinctUnits(g)
    ensures |UnitsOf(g)| == |g|
  {
    if g != [] {
      UnitsLast(g);
      UnitsCard(g[..|g| - 1]);
    }
  }

  /** Dropping the last question keeps the units distinct, and the last
      question adds a new unit. */
  lemma UnitsLast(g: seq<ExamGrammarQ>)
    requires g != [] && DistinctUnits(g)
    ensures var init, last := g[..|g| - 1], g[|g| - 1];
      DistinctUnits(init) && UnitsOf(g) == UnitsOf(init) + {last.unit} && last.unit !in UnitsOf(init)
  {
    var init, last := g[..|g| - 1], g[|g| - 1];
    assert g == init + [last];
    forall q | q in init ensures q.unit != last.unit {
      var k :| 0 <= k < |init| && init[k] == q;
      assert g[k] == q;
    }
  }

  /** The identities of a sub-list of ts are identities of ts. */
  lemma IdentsSubset(g: seq<ExamGrammarQ>, ts: seq<ExamGrammarQ>, port: Port)
    requires forall q :: q in g ==> q in ts
    ensures IdentsOf(g, port) <= IdentsOf(ts, port)
  {
  }

  /** The units of a prefix are units of the whole list. */
  lemma UnitsPrefix(g: seq<ExamGrammarQ>, h: seq<ExamGrammarQ>)
    requires g <= h
    ensures UnitsOf(g) <= UnitsOf(h)
  {
    forall u | u in UnitsOf(g) ensures u in UnitsOf(h) {
      var q :| q in g && q.unit == u;
      var k :| 0 <= k < |g| && g[k] == q;
      assert h[k] == q;
    }
  }

  /** The grammar part of the mock exam, both passes: at most 5 questions, all
      of them transforms of the course with pairwise distinct identities,
      covering min(5, number of units with transforms) units, and
      min(5, number of distinct identities) questions in all. */
  method PickGrammar(ts: seq<ExamGrammarQ>, port: Port) returns (g: seq<ExamGrammarQ>)
    ensures |g| == Min(5, |IdentsOf(ts, port)|)
    ensures DistinctIdents(g, port) && forall q :: q in g ==> q in ts
    ensures |UnitsOf(g)| >= Min(5, |UnitsOf(ts)|)
  {
    var first := FirstPass(ts);
    DistinctUnitsIdents(first, port);
    g := SecondPass(ts, first, port);
    assert forall q :: q in g ==> q in ts by {
      forall q | q in g ensures q in ts {
        var k :| 0 <= k < |g| && g[k] == q;
        if k < |first| {
          assert first[k] == q;
        } else {
          assert g[|first|..][k - |first|] == q;
        }
      }
    }
    IdentsCard(g, port);
    IdentsSubset(g, ts, port);
    SubsetCard(IdentsOf(g, port), IdentsOf(ts, port));
    if |g| < 5 {
      assert IdentsOf(g, port) == IdentsOf(ts, port);
    }
    UnitsCard(first);
    UnitsPrefix(first, g);
    SubsetCard(UnitsOf(first), UnitsOf(g));
    if |first| < 5 {
      assert UnitsOf(first) == UnitsOf(ts);
    }
  }

  /** `generateExamBlanc(allUnits, examWritingPrompts)`: 20 vocabulary questions
      (or all there are), the grammar questions, and a random writing prompt,
      undefined when there is none. */
  method GenerateExamBlanc(allUnits: seq<Unit>, examWritingPrompts: map<int, string>) returns (exam: ExamBlanc)
    ensures |exam.vocabulary| == Min(20, |ExamVocab(allUnits)|)
    ensures multiset(exam.vocabulary) <= multiset(ExamVocab(allUnits))
    ensures var ts := ExamTransforms(allUnits);
      |exam.grammar| == Min(5, |IdentsOf(ts, TypeScript)|)
      && DistinctIdents(exam.grammar, TypeScript) && (forall q :: q in exam.grammar ==> q in ts)
      && |UnitsOf(exam.grammar)| >= Min(5, |UnitsOf(ts)|)
    ensures exam.writingPrompt.None? <==> |examWritingPrompts| == 0
    ensures exam.writingPrompt.Some? ==> exam.writingPrompt.value in examWritingPrompts.Values
  {
    var allVocab, allTransforms := CollectExamPools(allUnits);
    var vocabQs := Sample(allVocab, Min(20, |allVocab|));
    var shuffled := Shuffled(allTransforms);
    assert IdentsOf(shuffled, TypeScript) == IdentsOf(allTransforms, TypeScript) by {
      SubMultisetMembers(shuffled, allTransforms);
      SubMultisetMembers(allTransforms, shuffled);
    }
    assert UnitsOf(shuffled) == UnitsOf(allTransforms) by {
      SubMultisetMembers(shuffled, allTransforms);
      SubMultisetMembers(allTransforms, shuffled);
    }
    var grammarQs := PickGrammar(shuffled, TypeScript);
    SubMultisetMembers(shuffled, allTransforms);
    var writingPrompt: Option<string> := None;
    if |examWritingPrompts| > 0 {
      var p :| p in examWritingPrompts.Values;
      writingPrompt := Some(p);
    }
    exam := ExamBlanc(vocabQs, grammarQs, writingPrompt);
  }

  /** When the course has at least 5 transforms with distinct (type, source,
      unit), the exam has exactly 5 grammar questions; when at least 5 units have
      transforms, they come from 5 different units. */
  lemma ExamGrammarFull(ts: seq<ExamGrammarQ>, g: seq<ExamGrammarQ>)
    requires |g| == Min(5, |IdentsOf(ts, TypeScript)|) && DistinctIdents(g, TypeScript)
    requires |UnitsOf(g)| >= Min(5, |UnitsOf(ts)|)
    requires |UnitsOf(ts)| >= 5
    ensures |g| == 5 && DistinctUnits(g)
  {
    assert |IdentsOf(ts, TypeScript)| >= 5 by {
      UnitsFromIdents(ts);
      SubsetCard(UnitsOf(ts), set x | x in IdentsOf(ts, TypeScript) :: x.unit);
      ImageCard(IdentsOf(ts, TypeScript));
    }
    SeqUnitsCard(g);
    assert |UnitsOf(g)| == 5;
    if !DistinctUnits(g) {
      var i, j :| 0 <= i < j < |g| && g[i].unit == g[j].unit;
      UnitsDrop(g, i, j);
      assert false;
    }
  }

  /** Each unit of ts is the unit of some identity. */
  lemma UnitsFromIdents(ts: seq<ExamGrammarQ>)
    ensures UnitsOf(ts) <= set x | x in IdentsOf(ts, TypeScript) :: x.unit
  {
    forall u | u in UnitsOf(ts) ensures u in set x | x in IdentsOf(ts, TypeScript) :: x.unit {
      var q :| q in ts && q.unit == u;
      assert Ident(q, TypeScript) in IdentsOf(ts, TypeScript);
    }
  }

  /** The image of a set under `unit` has at most as many elements as the set. */
  lemma {:induction false} ImageCard(s: set<ExamGrammarQ>)
    ensures |set x | x in s :: x.unit| <= |s|
    decreases |s|
  {
    if s != {} {
      var y :| y in s;
      var rest := s - {y};
      ImageCard(rest);
      assert (set x | x in s :: x.unit) <= (set x | x in rest :: x.unit) + {y.unit};
      SubsetCard(set x | x in s :: x.unit, (set x | x in rest :: x.unit) + {y.unit});
    }
  }

  /** Two questions of the same unit leave fewer units than questions. */
  lemma UnitsDrop(g: seq<ExamGrammarQ>, i: nat, j: nat)
    requires i < j < |g| && g[i].unit == g[j].unit
    ensures |UnitsOf(g)| < |g|
  {
    var h := g[..j] + g[j + 1..];
    assert UnitsOf(g) <= UnitsOf(h) by {
      forall u | u in UnitsOf(g) ensures u in UnitsOf(h) {
        var q :| q in g && q.unit == u;
        var k :| 0 <= k < |g| && g[k] == q;
        if k < j { assert h[k] == q; }
        else if k == j { assert h[i] == g[i]; }
        else { assert h[k - 1] == q; }
      }
    }
    SubsetCard(UnitsOf(g), UnitsOf(h));
    SeqUnitsCard(h);
  }

  /** A list covers at most as many units as it has elements. */
  lemma {:induction false} SeqUnitsCard(g: seq<ExamGrammarQ>)
    ensures |UnitsOf(g)| <= |g|
  {
    if g != [] {
      var init := g[..|g| - 1];
      SeqUnitsCard(init);
      assert g == init + [g[|g| - 1]];
      assert UnitsOf(g) == UnitsOf(init) + {g[|g| - 1].unit};
    }
  }
}
