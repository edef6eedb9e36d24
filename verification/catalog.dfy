/** The course data and the records the quiz assembler and the weak-point
    ledger exchange (francais-b2-next/src/lib/types.ts).  Only the fields the
    modelled operations read or write are kept. */
module Catalog {

  datatype Option<T> = None | Some(value: T)

  /** A vocabulary entry.  `article` is read by the quiz assembler although the
      declared interface omits it; an absent article is the empty string. */
  datatype VocabItem = VocabItem(word: string, definition: string, answer: string, article: string)

  datatype ExpressionItem = ExpressionItem(expression: string, usage: string, example: string)

  datatype ConjugationItem = ConjugationItem(verb: string, tense: string, person: string, answer: string)

  /** A sentence transformation; `transformType` is the field called `type`. */
  datatype GrammarTransform = GrammarTransform(transformType: string, source: string, answer: string)

  /** One course unit: its number and its four question pools. */
  datatype Unit = Unit(
    unitNumber: int,
    vocabulary: seq<VocabItem>,
    expressions: seq<ExpressionItem>,
    conjugations: seq<ConjugationItem>,
    transforms: seq<GrammarTransform>)

  /** A quiz question.  The variants are the shapes the generators build: a
      multiple-choice vocabulary question, the three fill-in questions and the
      rewrite question.  `key` is the `_key` that links a question to its weak
      point.  A rewrite question carries a prompt only in the TypeScript port. */
  datatype Question =
    | Mcq(prompt: string, options: seq<string>, answer: string, key: string)
    | VocabFill(prompt: string, answer: string, article: string, key: string)
    | ExprFill(prompt: string, hint: Option<string>, answer: string, key: string)
    | ConjFill(prompt: string, answer: string, person: string, key: string)
    | Rewrite(transformType: string, source: string, rewritePrompt: Option<string>, answer: string, key: string)

  datatype QuizData = QuizData(
    vocab: seq<Question>, expr: seq<Question>, conj: seq<Question>, trans: seq<Question>)

  /** The four weak-point categories. */
  datatype WeakPointType = Vocabulary | Expression | Conjugation | Grammar

  /** A weak point: one failed question, identified by (type, unit, key). */
  datatype WeakPoint = WeakPoint(kind: WeakPointType, unit: int, key: string, item: string, failCount: int)

  /** A weak point as the Python port stores it: the type is a free string and
      the fail count may be missing (`fail_count` absent). */
  datatype PyWeakPoint = PyWeakPoint(kind: string, unit: int, key: string, item: string, failCount: Option<int>)

  /** A vocabulary question of the mock exam. */
  datatype ExamVocabQ = ExamVocabQ(definition: string, answer: string, article: string, unit: int)

  /** A grammar question of the mock exam, tagged with its unit (`_unit`). */
  datatype ExamGrammarQ = ExamGrammarQ(transformType: string, source: string, answer: string, unit: int)

  /** The mock exam.  With no writing prompts at all the prompt is undefined. */
  datatype ExamBlanc = ExamBlanc(
    vocabulary: seq<ExamVocabQ>, grammar: seq<ExamGrammarQ>, writingPrompt: Option<string>)
}
