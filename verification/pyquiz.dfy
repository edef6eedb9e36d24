/** The Python quiz assembler (`generate_unit_quiz` and `generate_exam_blanc`
    in lib/quiz.py).  It shares keys, sampling, selection and question shapes
    with the TypeScript port and differs in four places: the expressions join
    the allocation (four pools, target 40, Python rounding and ties), the weak
    quota applies to every kind, weak points are looked up by type labels, and
    the mock exam de-duplicates whole records and fails without writing
    prompts. */
module PyQuiz {
  import opened Seqs
  import opened Catalog
  import opened Quiz
  import opened UnitQuiz

  // ---------------------------------------------------------------------------
  // Weak keys by type tag
  // ---------------------------------------------------------------------------

  /** The type labels under which the four kinds of weak point are found. */
  datatype Labels = Labels(vocab: string, expr: string, conj: string, trans: string)

  /** The labels the quiz looks up (`weak_keys_by_type`). */
  const QuizLabels := Labels("vocab", "expr", "conj", "trans")

  /** The labels the quiz page records weak points under (`cat_label_map`). */
  const RecordedLabels := Labels("vocabulary", "expression", "conjugation", "grammar")

  function PyOfUnit(unitNum: int): PyWeakPoint -> bool
  {
    (w: PyWeakPoint) => w.unit == unitNum
  }

  /** The keys of the weak points carrying a tag. */
  function PyKeysOf(ws: seq<PyWeakPoint>, tag: string): set<string>
  {
    if ws == [] then {}
    else
      var last := ws[|ws| - 1];
      PyKeysOf(ws[..|ws| - 1], tag) + (if last.kind == tag then {last.key} else {})
  }

  /** The weak keys of one tag for one unit. */
  function PyWeakKeys(wps: seq<PyWeakPoint>, unitNum: int, tag: string): set<string>
  {
    PyKeysOf(Filter(wps, PyOfUnit(unitNum)), tag)
  }

  /** A key is found under a tag exactly when a weak point with that tag carries it. */
  lemma {:induction false} PyKeysOfMember(ws: seq<PyWeakPoint>, tag: string, k: string)
    ensures k in PyKeysOf(ws, tag) <==> exists i :: 0 <= i < |ws| && ws[i].kind == tag && ws[i].key == k
  {
    if ws != [] {
      var init := ws[..|ws| - 1];
      PyKeysOfMember(init, tag, k);
      if exists i :: 0 <= i < |init| && init[i].kind == tag && init[i].key == k {
        var i :| 0 <= i < |init| && init[i].kind == tag && init[i].key == k;
        assert ws[i] == init[i];
      }
    }
  }

  /** The loop over the unit's weak points: a point whose tag is one of the
      four is filed under it, any other tag is ignored. */
  method CollectWeakKeys(wps: seq<PyWeakPoint>, unitNum: int, labels: Labels)
    returns (vocab: set<string>, expr: set<string>, conj: set<string>, trans: set<string>)
    requires labels.vocab != labels.expr && labels.vocab != labels.conj && labels.vocab != labels.trans
    requires labels.expr != labels.conj && labels.expr != labels.trans && labels.conj != labels.trans
    ensures vocab == PyWeakKeys(wps, unitNum, labels.vocab)
    ensures expr == PyWeakKeys(wps, unitNum, labels.expr)
    ensures conj == PyWeakKeys(wps, unitNum, labels.conj)
    ensures trans == PyWeakKeys(wps, unitNum, labels.trans)
  {
    var unitWeak := Filter(wps, PyOfUnit(unitNum));
    vocab, expr, conj, trans := {}, {}, {}, {};
    for i := 0 to |unitWeak|
      invariant vocab == PyKeysOf(unitWeak[..i], labels.vocab)
      invariant expr == PyKeysOf(unitWeak[..i], labels.expr)
      invariant conj == PyKeysOf(unitWeak[..i], labels.conj)
      invariant trans == PyKeysOf(unitWeak[..i], labels.trans)
    {
      var wp := unitWeak[i];
      assert unitWeak[..i + 1][..i] == unitWeak[..i];
      if wp.kind == labels.vocab {
        vocab := vocab + {wp.key};
      } else if wp.kind == labels.expr {
        expr := expr + {wp.key};
      } else if wp.kind == labels.conj {
        conj := conj + {wp.key};
      } else if wp.kind == labels.trans {
        trans := trans + {wp.key};
      }
    }
    assert unitWeak[..|unitWeak|] == unitWeak;
  }

  /** Is the tag one of the four recorded ones? */
  predicate Recorded(tag: string)
  {
    tag == RecordedLabels.vocab || tag == RecordedLabels.expr
    || tag == RecordedLabels.conj || tag == RecordedLabels.trans
  }

  /** As written, the quiz looks weak points up under labels the quiz page never
      records: for weak points recorded by the page, no key is weak and the
      weak bias never applies. */
  lemma AsWrittenKeysMissRecorded(wps: seq<PyWeakPoint>, unitNum: int)
    requires forall i :: 0 <= i < |wps| ==> Recorded(wps[i].kind)
    ensures PyWeakKeys(wps, unitNum, QuizLabels.vocab) == {}
    ensures PyWeakKeys(wps, unitNum, QuizLabels.expr) == {}
    ensures PyWeakKeys(wps, unitNum, QuizLabels.conj) == {}
    ensures PyWeakKeys(wps, unitNum, QuizLabels.trans) == {}
  {
    var unitWeak := Filter(wps, PyOfUnit(unitNum));
    forall tag, k | tag in {"vocab", "expr", "conj", "trans"}
      ensures k !in PyKeysOf(unitWeak, tag)
    {
      PyKeysOfMember(unitWeak, tag, k);
      forall i | 0 <= i < |unitWeak| ensures unitWeak[i].kind != tag {
        FilterMember(wps, PyOfUnit(unitNum), unitWeak[i]);
        var j :| 0 <= j < |wps| && wps[j] == unitWeak[i];
      }
    }
  }

  /** Looked up under the labels the page records, every weak point of the unit
      makes its key weak for its kind. */
  lemma RecordedKeysFound(wps: seq<PyWeakPoint>, unitNum: int, w: PyWeakPoint)
    requires w in wps && w.unit == unitNum
    ensures w.kind == RecordedLabels.vocab ==> w.key in PyWeakKeys(wps, unitNum, RecordedLabels.vocab)
    ensures w.kind == RecordedLabels.expr ==> w.key in PyWeakKeys(wps, unitNum, RecordedLabels.expr)
    ensures w.kind == RecordedLabels.conj ==> w.key in PyWeakKeys(wps, unitNum, RecordedLabels.conj)
    ensures w.kind == RecordedLabels.trans ==> w.key in PyWeakKeys(wps, unitNum, RecordedLabels.trans)
  {
    var unitWeak := Filter(wps, PyOfUnit(unitNum));
    FilterMember(wps, PyOfUnit(unitNum), w);
    var i :| 0 <= i < |unitWeak| && unitWeak[i] == w;
    PyKeysOfMember(unitWeak, w.kind, w.key);
  }

  // ---------------------------------------------------------------------------
  // The unit quiz
  // ---------------------------------------------------------------------------

  /** The question-building loops (`for e in expr_qs: ...append(...)`). */
  method MapLoop<A, B>(s: seq<A>, f: A -> B) returns (r: seq<B>)
    ensures r == MapSeq(s, f)
  {
    r := [];
    for i := 0 to |s|
      invariant r == MapSeq(s[..i], f)
    {
      assert MapSeq(s[..i + 1], f) == MapSeq(s[..i], f) + [f(s[i])];
      r := r + [f(s[i])];
    }
    assert s[..|s|] == s;
  }

  /** The allocation of all 40 questions over vocabulary, expressions,
      conjugation and transforms, in that key order. */
  function PyUnitAlloc(unit: Unit): (alloc: seq<nat>)
    ensures |alloc| == 4
    ensures alloc[0] <= |unit.vocabulary| && alloc[1] <= |unit.expressions|
    ensures alloc[2] <= |unit.conjugations| && alloc[3] <= |unit.transforms|
  {
    var pools: seq<nat> := [|unit.vocabulary|, |unit.expressions|, |unit.conjugations|, |unit.transforms|];
    AllocBounds(pools, Target, Python);
    AllocSpec(pools, Target, Python)
  }

  /** The quiz is made of the selections vs, es, cs, ts, each a weak-biased
      selection with its allocated quota and a 40% weak quota, the weak keys
      being looked up under the given labels. */
  ghost predicate PyAssembled(quiz: QuizData, unit: Unit, allUnits: seq<Unit>, wps: seq<PyWeakPoint>, l: Labels,
                              vs: seq<VocabItem>, es: seq<ExpressionItem>,
                              cs: seq<ConjugationItem>, ts: seq<GrammarTransform>)
  {
    var alloc := PyUnitAlloc(unit);
    var u := unit.unitNumber;
    Selection(vs, unit.vocabulary, InKeys(PyWeakKeys(wps, u, l.vocab), VocabKey), alloc[0], WeakQuota(alloc[0]))
    && Selection(es, unit.expressions, InKeys(PyWeakKeys(wps, u, l.expr), ExprKey), alloc[1], WeakQuota(alloc[1]))
    && Selection(cs, unit.conjugations, InKeys(PyWeakKeys(wps, u, l.conj), ConjKey), alloc[2], WeakQuota(alloc[2]))
    && Selection(ts, unit.transforms, InKeys(PyWeakKeys(wps, u, l.trans), TransKey), alloc[3], WeakQuota(alloc[3]))
    && |quiz.vocab| == |vs|
    && (forall i :: 0 <= i < |vs| ==>
          VocabQuestionFor(quiz.vocab[i], vs[i], i < McqCount(alloc[0]), Definitions(allUnits)))
    && quiz.expr == MapSeq(es, ExprQuestion(Python))
    && quiz.conj == MapSeq(cs, ConjQuestion)
    && quiz.trans == MapSeq(ts, TransQuestion(Python))
  }

  /** `generate_unit_quiz(unit, all_units, weak_points)`, with weak points
      looked up under the given labels: `QuizLabels` as the code is written,
      `RecordedLabels` for the lookup the quiz page's records call for. */
  method GenerateUnitQuiz(unit: Unit, allUnits: seq<Unit>, weakPoints: seq<PyWeakPoint>, labels: Labels)
    returns (quiz: QuizData)
    requires labels.vocab != labels.expr && labels.vocab != labels.conj && labels.vocab != labels.trans
    requires labels.expr != labels.conj && labels.expr != labels.trans && labels.conj != labels.trans
    ensures TotalPool(unit) == 0 ==> quiz == QuizData([], [], [], [])
    ensures TotalPool(unit) > 0 ==>
      exists vs, es, cs, ts :: PyAssembled(quiz, unit, allUnits, weakPoints, labels, vs, es, cs, ts)
  {
    var vocab, expr, conj, transforms := unit.vocabulary, unit.expressions, unit.conjugations, unit.transforms;
    var totalPool := |vocab| + |expr| + |conj| + |transforms|;
    if totalPool == 0 {
      return QuizData([], [], [], []);
    }

    var alloc := Allocate([|vocab|, |expr|, |conj|, |transforms|], Target, Python);
    assert alloc == PyUnitAlloc(unit);
    var nVocab, nExpr, nConj, nTrans := alloc[0], alloc[1], alloc[2], alloc[3];

    var vk, ek, ck, tk := CollectWeakKeys(weakPoints, unit.unitNumber, labels);

    var vocabQs := SplitWeakAndNormal(vocab, InKeys(vk, VocabKey), nVocab, WeakQuota(nVocab));
    var exprQs := SplitWeakAndNormal(expr, InKeys(ek, ExprKey), nExpr, WeakQuota(nExpr));
    var conjQs := SplitWeakAndNormal(conj, InKeys(ck, ConjKey), nConj, WeakQuota(nConj));
    var transQs := SplitWeakAndNormal(transforms, InKeys(tk, TransKey), nTrans, WeakQuota(nTrans));

    var allDefs := Definitions(allUnits);
    var vocabQuestions := VocabQuestions(vocabQs, McqCount(nVocab), allDefs);
    var exprQuestions := MapLoop(exprQs, ExprQuestion(Python));
    var conjQuestions := MapLoop(conjQs, ConjQuestion);
    var transQuestions := MapLoop(transQs, TransQuestion(Python));

    quiz := QuizData(vocabQuestions, exprQuestions, conjQuestions, transQuestions);
    assert PyAssembled(quiz, unit, allUnits, weakPoints, labels, vocabQs, exprQs, conjQs, transQs);
  }

  /** Every kind, expressions included, gets at most its allocation. */
  lemma PyAssembledShape(quiz: QuizData, unit: Unit, allUnits: seq<Unit>, wps: seq<PyWeakPoint>, l: Labels,
                         vs: seq<VocabItem>, es: seq<ExpressionItem>,
                         cs: seq<ConjugationItem>, ts: seq<GrammarTransform>)
    requires PyAssembled(quiz, unit, allUnits, wps, l, vs, es, cs, ts)
    ensures var alloc := PyUnitAlloc(unit);
      |quiz.vocab| <= alloc[0] && |quiz.expr| <= alloc[1] && |quiz.conj| <= alloc[2] && |quiz.trans| <= alloc[3]
      && forall i :: 0 <= i < |quiz.vocab| ==> (quiz.vocab[i].Mcq? <==> i < McqCount(alloc[0]))
  {
    var alloc := PyUnitAlloc(unit);
    var u := unit.unitNumber;
    SelectionWithinQuota(vs, unit.vocabulary, InKeys(PyWeakKeys(wps, u, l.vocab), VocabKey), alloc[0], WeakQuota(alloc[0]));
    SelectionWithinQuota(es, unit.expressions, InKeys(PyWeakKeys(wps, u, l.expr), ExprKey), alloc[1], WeakQuota(alloc[1]));
    SelectionWithinQuota(cs, unit.conjugations, InKeys(PyWeakKeys(wps, u, l.conj), ConjKey), alloc[2], WeakQuota(alloc[2]));
    SelectionWithinQuota(ts, unit.transforms, InKeys(PyWeakKeys(wps, u, l.trans), TransKey), alloc[3], WeakQuota(alloc[3]));
  }

  /** Every expression question asks an expression of the unit, and every
      question carries its item's example as the hint, even an empty one. */
  lemma PyAssembledExpressions(quiz: QuizData, unit: Unit, allUnits: seq<Unit>, wps: seq<PyWeakPoint>, l: Labels,
                               vs: seq<VocabItem>, es: seq<ExpressionItem>,
                               cs: seq<ConjugationItem>, ts: seq<GrammarTransform>, i: nat)
    requires PyAssembled(quiz, unit, allUnits, wps, l, vs, es, cs, ts) && i < |quiz.expr|
    ensures exists e :: e in unit.expressions && quiz.expr[i] == ExprFill(e.usage, Some(e.example), e.expression, e.expression)
  {
    var e := es[i];
    assert e in multiset(es);
    assert e in unit.expressions;
  }

  /** As written, with weak points the quiz page recorded, the quiz is
      unbiased: every kind is a plain sample of its allocation, or of the whole
      pool when that is smaller, and no selected item counts as weak. */
  lemma AsWrittenUnbiased(quiz: QuizData, unit: Unit, allUnits: seq<Unit>, wps: seq<PyWeakPoint>,
                          vs: seq<VocabItem>, es: seq<ExpressionItem>,
                          cs: seq<ConjugationItem>, ts: seq<GrammarTransform>)
    requires PyAssembled(quiz, unit, allUnits, wps, QuizLabels, vs, es, cs, ts)
    requires forall i :: 0 <= i < |wps| ==> Recorded(wps[i].kind)
    ensures var alloc := PyUnitAlloc(unit);
      |vs| == Min(alloc[0], |unit.vocabulary|) && |es| == Min(alloc[1], |unit.expressions|)
      && |cs| == Min(alloc[2], |unit.conjugations|) && |ts| == Min(alloc[3], |unit.transforms|)
    ensures var u := unit.unitNumber;
      Filter(vs, InKeys(PyWeakKeys(wps, u, QuizLabels.vocab), VocabKey)) == []
      && Filter(es, InKeys(PyWeakKeys(wps, u, QuizLabels.expr), ExprKey)) == []
      && Filter(cs, InKeys(PyWeakKeys(wps, u, QuizLabels.conj), ConjKey)) == []
      && Filter(ts, InKeys(PyWeakKeys(wps, u, QuizLabels.trans), TransKey)) == []
  {
    var alloc := PyUnitAlloc(unit);
    var u := unit.unitNumber;
    var l := QuizLabels;
    AsWrittenKeysMissRecorded(wps, u);
    SelectionNoWeak(vs, unit.vocabulary, InKeys(PyWeakKeys(wps, u, l.vocab), VocabKey), alloc[0], WeakQuota(alloc[0]));
    SelectionNoWeak(es, unit.expressions, InKeys(PyWeakKeys(wps, u, l.expr), ExprKey), alloc[1], WeakQuota(alloc[1]));
    SelectionNoWeak(cs, unit.conjugations, InKeys(PyWeakKeys(wps, u, l.conj), ConjKey), alloc[2], WeakQuota(alloc[2]));
    SelectionNoWeak(ts, unit.transforms, InKeys(PyWeakKeys(wps, u, l.trans), TransKey), alloc[3], WeakQuota(alloc[3]));
  }

  // ---------------------------------------------------------------------------
  // The mock exam
  // ---------------------------------------------------------------------------

  /** `generate_exam_blanc(all_units, exam_writing_prompts)`: None stands for the
      IndexError `random.choice` raises on an empty prompt list. */
  method GenerateExamBlanc(allUnits: seq<Unit>, examWritingPrompts: map<int, string>) returns (r: Option<ExamBlanc>)
    ensures r.None? <==> |examWritingPrompts| == 0
    ensures r.Some? ==>
      var exam := r.value;
      var ts := ExamTransforms(allUnits);
      |exam.vocabulary| == Min(20, |ExamVocab(allUnits)|)
      && multiset(exam.vocabulary) <= multiset(ExamVocab(allUnits))
      && |exam.grammar| == Min(5, |IdentsOf(ts, Python)|)
      && DistinctIdents(exam.grammar, Python) && (forall q :: q in exam.grammar ==> q in ts)
      && |UnitsOf(exam.grammar)| >= Min(5, |UnitsOf(ts)|)
      && exam.writingPrompt.Some? && exam.writingPrompt.value in examWritingPrompts.Values
  {
    var allVocab, allTransforms := CollectExamPools(allUnits);
    var vocabQs := Sample(allVocab, Min(20, |allVocab|));
    var shuffled := Shuffled(allTransforms);
    SubMultisetMembers(shuffled, allTransforms);
    SubMultisetMembers(allTransforms, shuffled);
    assert IdentsOf(shuffled, Python) == IdentsOf(allTransforms, Python);
    assert UnitsOf(shuffled) == UnitsOf(allTransforms);
    var grammarQs := PickGrammar(shuffled, Python);
    if |examWritingPrompts| == 0 {
      return None;
    }
    var p :| p in examWritingPrompts.Values;
    r := Some(ExamBlanc(vocabQs, grammarQs, Some(p)));
  }

  /** Two transforms of one unit with the same type and source but different
      answers: TypeScript counts them as one question, Python as two. */
  lemma DuplicateTestsDiffer(a: ExamGrammarQ, b: ExamGrammarQ)
    requires a.transformType == b.transformType && a.source == b.source && a.unit == b.unit
    requires a.answer != b.answer
    ensures |IdentsOf([a, b], TypeScript)| == 1
    ensures |IdentsOf([a, b], Python)| == 2
  {
    assert IdentsOf([a, b], TypeScript) == {Ident(a, TypeScript)};
    var s := [a, b];
    assert Ident(a, Python) == a && Ident(b, Python) == b;
    assert s[0] == a && s[1] == b;
    assert IdentsOf(s, Python) == {a, b};
  }
}
