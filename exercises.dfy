/**
 * The exercise data model: one record kind per exercise type, and the
 * tagged union `Exercise` whose every variant carries a batch of records of
 * a single kind, as authored in one pass through the menu.
 */
module Exercises {

  /** A matching question; the answer is one of the option strings offered when it was authored. */
  datatype Matching = Matching(question: string, answer: string)

  /** A question answered by yes or no. */
  datatype YesNo = YesNo(question: string, answer: bool)

  /** A question with a free-text answer. */
  datatype Recall = Recall(question: string, answer: string)

  /** A multiple-choice question with its own options, in the order they were entered. */
  datatype Mcq = Mcq(question: string, answer: string, options: seq<string>)

  /** A question whose answer is a root, with an example of its use. */
  datatype RecognizeRoot = RecognizeRoot(question: string, answer: string, example: string)

  /** A fill-in-the-blank question; no authoring path creates one. */
  datatype FillInTheBlank = FillInTheBlank(question: string, answer: string, blank: string)

  /** A same-or-opposite question over two words; no authoring path creates one. */
  datatype SameOrOpposite = SameOrOpposite(firstWord: string, secondWord: string, answer: bool)

  /** Seven variants, each wrapping a sequence of one record kind. */
  datatype Exercise =
    | Matching(matching: seq<Matching>)
    | YesNo(yesNo: seq<YesNo>)
    | Recall(recall: seq<Recall>)
    | Mcq(mcq: seq<Mcq>)
    | RecognizeRoot(recognizeRoot: seq<RecognizeRoot>)
    | FillInTheBlank(fillInTheBlank: seq<FillInTheBlank>)
    | SameOrOpposite(sameOrOpposite: seq<SameOrOpposite>)

  /** The position of the variant in declaration order. */
  function VariantIndex(e: Exercise): (i: nat)
    ensures i < 7
  {
    match e
    case Matching(_) => 0
    case YesNo(_) => 1
    case Recall(_) => 2
    case Mcq(_) => 3
    case RecognizeRoot(_) => 4
    case FillInTheBlank(_) => 5
    case SameOrOpposite(_) => 6
  }

  /** The tag written for a variant: its own name. */
  function VariantName(e: Exercise): (name: string)
    ensures name == VariantNames()[VariantIndex(e)]
  {
    match e
    case Matching(_) => "Matching"
    case YesNo(_) => "YesNo"
    case Recall(_) => "Recall"
    case Mcq(_) => "Mcq"
    case RecognizeRoot(_) => "RecognizeRoot"
    case FillInTheBlank(_) => "FillInTheBlank"
    case SameOrOpposite(_) => "SameOrOpposite"
  }

  /** The seven tags, in declaration order. */
  function VariantNames(): seq<string>
  {
    ["Matching", "YesNo", "Recall", "Mcq", "RecognizeRoot", "FillInTheBlank", "SameOrOpposite"]
  }

  /** The tag identifies the variant: two exercises carry the same tag exactly when they are of the same variant. */
  lemma VariantNameIdentifies(e1: Exercise, e2: Exercise)
    ensures VariantName(e1) == VariantName(e2) <==> VariantIndex(e1) == VariantIndex(e2)
  {
    var n1, n2 := VariantName(e1), VariantName(e2);
    if n1 == n2 {
      assert |n1| == |n2| && n1[0] == n2[0];
    }
  }

  // Field-copying constructors.

  function NewMatching(question: string, answer: string): (m: Matching)
    ensures m.question == question && m.answer == answer
  {
    Matching.Matching(question, answer)
  }

  function NewYesNo(question: string, answer: bool): (y: YesNo)
    ensures y.question == question && y.answer == answer
  {
    YesNo.YesNo(question, answer)
  }

  function NewRecall(question: string, answer: string): (r: Recall)
    ensures r.question == question && r.answer == answer
  {
    Recall.Recall(question, answer)
  }

  function NewMcq(question: string, answer: string, options: seq<string>): (q: Mcq)
    ensures q.question == question && q.answer == answer
    ensures q.options == options
  {
    Mcq.Mcq(question, answer, options)
  }

  /** Arguments in the order (question, answer, example), each stored in its own field. */
  function NewRecognizeRoot(question: string, answer: string, example: string): (r: RecognizeRoot)
    ensures r.question == question && r.answer == answer && r.example == example
  {
    RecognizeRoot.RecognizeRoot(question, answer, example)
  }

  function NewFillInTheBlank(question: string, answer: string, blank: string): (f: FillInTheBlank)
    ensures f.question == question && f.answer == answer && f.blank == blank
  {
    FillInTheBlank.FillInTheBlank(question, answer, blank)
  }

  function NewSameOrOpposite(firstWord: string, secondWord: string, answer: bool): (s: SameOrOpposite)
    ensures s.firstWord == firstWord && s.secondWord == secondWord && s.answer == answer
  {
    SameOrOpposite.SameOrOpposite(firstWord, secondWord, answer)
  }

  /**
   * The constructors lose and add nothing: every record is what its constructor
   * builds from the record's own fields, and two records built from different
   * arguments differ.
   */
  lemma ConstructorsAreExact()
    ensures forall m: Matching :: NewMatching(m.question, m.answer) == m
    ensures forall y: YesNo :: NewYesNo(y.question, y.answer) == y
    ensures forall r: Recall :: NewRecall(r.question, r.answer) == r
    ensures forall q: Mcq :: NewMcq(q.question, q.answer, q.options) == q
    ensures forall r: RecognizeRoot :: NewRecognizeRoot(r.question, r.answer, r.example) == r
    ensures forall f: FillInTheBlank :: NewFillInTheBlank(f.question, f.answer, f.blank) == f
    ensures forall s: SameOrOpposite :: NewSameOrOpposite(s.firstWord, s.secondWord, s.answer) == s
  {
  }
}
