/**
 * The exercise-entry engine: one reader per exercise kind, each turning the
 * user's responses into a batch of records, and the menu loop that keeps
 * dispatching to a reader until the user picks SaveAndQuit.
 */
module Entry {
  import opened Exercises
  import opened Prompts

  // ---------------------------------------------------------------------------
  // Option letters

  /**
   * The index of U+10FFFF among the letters 'a', 'b', ...: the character range
   * steps over the surrogate block, and stepping past the last character panics.
   */
  const MaxLabelIndex: nat := 0x10FFFF - 0x800 - 97

  /** The code point of the i-th option letter, counting from 'a' and skipping the surrogates. */
  function LabelCode(i: nat): nat
  {
    if 97 + i < 0xD800 then 97 + i else 97 + i + 0x800
  }

  /** The i-th option letter: 'a' + i, for the first 0xD800 - 97 letters. */
  function Label(i: nat): (c: char)
    requires i <= MaxLabelIndex
    ensures 97 + i < 0xD800 ==> c as int == 'a' as int + i
  {
    LabelCode(i) as char
  }

  /** Option letters start at 'a', run through 'z' one by one, and never repeat. */
  lemma LabelsConsecutive(i: nat, j: nat)
    requires i < j <= MaxLabelIndex
    ensures Label(0) == 'a'
    ensures j < 26 ==> 'a' <= Label(j) <= 'z' && Label(j) as int == Label(j - 1) as int + 1
    ensures Label(i) < Label(j)
  {
  }

  /** The prompts that ask for n options: "(a)", "(b)", ..., one per option position. */
  function OptionMessages(n: nat): (ms: seq<Message>)
    ensures |ms| == n && forall i :: 0 <= i < n ==> ms[i] == Lettered(i)
  {
    if n == 0 then [] else OptionMessages(n - 1) + [Lettered(n - 1)]
  }

  /**
   * Reads n options, one text prompt per letter. Yielding the letter at index
   * MaxLabelIndex steps the character range past U+10FFFF and panics, so any
   * larger n aborts.
   */
  function ReadOptions(n: nat, s: Script, at: nat): (r: Outcome<seq<string>>)
    requires at <= |s|
    ensures r.Done? ==> |r.value| == n <= MaxLabelIndex && r.next == at + n <= |s|
  {
    if n > MaxLabelIndex then Aborted else ReadTexts(OptionMessages(n), 0, s, at)
  }

  /**
   * Reading n options succeeds exactly when there are at most MaxLabelIndex of
   * them and the next n responses are texts; the options are those texts in
   * order, asked for under the letters 'a', 'b', ... in turn.
   */
  lemma ReadOptionsSpec(n: nat, s: Script, at: nat)
    requires at <= |s|
    ensures var r := ReadOptions(n, s, at);
            && (r.Done? <==> n <= MaxLabelIndex && at + n <= |s| && forall j :: at <= j < at + n ==> s[j].Text?)
            && (r.Done? ==>
                  && |r.value| == n
                  && (forall i :: 0 <= i < n ==> s[at + i] == Text(r.value[i])))
  {
    if n <= MaxLabelIndex {
      ReadTextsSpec(OptionMessages(n), 0, s, at);
    }
  }

  /** Option j of a successful read is the j-th text typed. */
  lemma ReadOptionsAt(n: nat, s: Script, at: nat, j: nat)
    requires at <= |s| && ReadOptions(n, s, at).Done? && j < n
    ensures s[at + j] == Text(ReadOptions(n, s, at).value[j])
  {
    ReadOptionsSpec(n, s, at);
  }

  /**
   * The options are asked for in turn under the letters of positions 0, 1, ...,
   * that is 'a', 'b', ... (see LabelsConsecutive), every one of which exists.
   */
  lemma ReadOptionsPrompts(n: nat, s: Script, at: nat)
    requires at <= |s| && ReadOptions(n, s, at).Done?
    ensures var r := ReadOptions(n, s, at);
            && n <= MaxLabelIndex
            && |r.asked| == n && forall i :: 0 <= i < n ==> r.asked[i] == TextPrompt(Lettered(i))
  {
    ReadTextsSpec(OptionMessages(n), 0, s, at);
  }

  /** What the matching select's formatter echoes for a submitted option: "(letter) value". */
  function FormatOption(i: nat, value: string): (line: string)
    requires i < MaxLabelIndex
    ensures |line| == |value| + 4 && line[1] == Label(i) && line[4..] == value
  {
    "(" + [Label(i)] + ") " + value
  }

  /** Distinct positions or distinct values are displayed differently. */
  lemma FormatOptionInjective(i: nat, v: string, j: nat, w: string)
    requires i < MaxLabelIndex && j < MaxLabelIndex
    requires FormatOption(i, v) == FormatOption(j, w)
    ensures i == j && v == w
  {
    var a, b := FormatOption(i, v), FormatOption(j, w);
    assert Label(i) == a[1] == b[1] == Label(j);
    if i < j {
      LabelsConsecutive(i, j);
    } else if j < i {
      LabelsConsecutive(j, i);
    }
    assert v == a[4..] == b[4..] == w;
  }

  /**
   * What the matching select's formatter echoes for each pool position once
   * that position is submitted: the position's letter, then the item.
   */
  function FormattedPool(pool: seq<string>): (echoes: seq<string>)
    requires |pool| <= MaxLabelIndex
    ensures |echoes| == |pool|
    ensures forall j :: 0 <= j < |pool| ==>
              |echoes[j]| == |pool[j]| + 4 && echoes[j][1] == Label(j) && echoes[j][4..] == pool[j]
  {
    seq(|pool|, j requires 0 <= j < |pool| => FormatOption(j, pool[j]))
  }

  /** No two pool positions are echoed alike, even when their items are equal. */
  lemma FormattedPoolDistinct(pool: seq<string>, i: nat, j: nat)
    requires |pool| <= MaxLabelIndex && i < j < |pool|
    ensures FormattedPool(pool)[i] != FormattedPool(pool)[j]
  {
    LabelsConsecutive(i, j);
  }

  // ---------------------------------------------------------------------------
  // Questions

  /** The prompts that ask for n questions: "1. ", "2. ", ... */
  function QuestionMessages(n: nat): (ms: seq<Message>)
    ensures |ms| == n && forall i :: 0 <= i < n ==> ms[i] == Numbered(i + 1)
  {
    seq(n, i requires 0 <= i < n => Numbered(i + 1))
  }

  /** Asks how many questions, then one numbered text prompt per question. */
  function ReadQuestions(s: Script, at: nat): (r: Outcome<seq<string>>)
    requires at <= |s|
    ensures r.Done? ==> at < |s| && s[at] == Number(|r.value|) && r.next == at + 1 + |r.value| <= |s|
  {
    match AskNumber(HowManyQuestions, s, at)
    case Aborted => Aborted
    case Done(n, at1, a1) =>
      match ReadTexts(QuestionMessages(n), 0, s, at1)
      case Aborted => Aborted
      case Done(qs, at2, a2) => Done(qs, at2, a1 + a2)
  }

  /**
   * Reading questions succeeds exactly on a count n followed by n texts. The
   * questions are those texts in the order they were typed (none for a count
   * of 0), each asked for under its 1-based number.
   */
  lemma ReadQuestionsSpec(s: Script, at: nat)
    requires at <= |s|
    ensures var r := ReadQuestions(s, at);
            && (r.Done? <==>
                  at < |s| && s[at].Number? && at + 1 + s[at].n <= |s| && forall j :: at < j <= at + s[at].n ==> s[j].Text?)
            && (r.Done? ==>
                  && s[at] == Number(|r.value|)
                  && (forall i :: 0 <= i < |r.value| ==> s[at + 1 + i] == Text(r.value[i]))
                  && |r.asked| == 1 + |r.value| && r.asked[0] == NumberPrompt(HowManyQuestions)
                  && (forall i :: 1 <= i <= |r.value| ==> r.asked[i] == TextPrompt(Numbered(i))))
  {
    if at < |s| && s[at].Number? {
      var n := s[at].n;
      ReadTextsSpec(QuestionMessages(n), 0, s, at + 1);
      var r, t := ReadQuestions(s, at), ReadTexts(QuestionMessages(n), 0, s, at + 1);
      if t.Done? {
        assert r.asked == [NumberPrompt(HowManyQuestions)] + t.asked;
        forall i | 1 <= i <= n
          ensures r.asked[i] == TextPrompt(Numbered(i))
        {
          assert r.asked[i] == t.asked[i - 1];
        }
      }
    }
  }

  /** Question i of a successful read is the i-th text typed after the count. */
  lemma ReadQuestionsAt(s: Script, at: nat, i: nat)
    requires at <= |s| && ReadQuestions(s, at).Done? && i < |ReadQuestions(s, at).value|
    ensures s[at + 1 + i] == Text(ReadQuestions(s, at).value[i])
  {
    ReadQuestionsSpec(s, at);
  }

  // ---------------------------------------------------------------------------
  // Matching

  /**
   * For each of questions[k..] in order, a select list over the shared pool,
   * echoing a submitted position as `echoes` gives it; the picked option
   * becomes that question's answer.
   */
  function PickMatching(questions: seq<string>, k: nat, pool: seq<string>, echoes: seq<string>, s: Script, at: nat): (r: Outcome<seq<Matching>>)
    requires k <= |questions| && at <= |s|
    ensures r.Done? ==> r.next == at + |questions| - k <= |s| && |r.value| == |questions| - k
    decreases |questions| - k
  {
    if k == |questions| then Done([], at, [])
    else
      match AskSelect(NumberedQuestion(k + 1, questions[k]), pool, echoes, s, at)
      case Aborted => Aborted
      case Done(answer, at1, a1) =>
        match PickMatching(questions, k + 1, pool, echoes, s, at1)
        case Aborted => Aborted
        case Done(ms, at2, a2) => Done([NewMatching(questions[k], answer)] + ms, at2, a1 + a2)
  }

  /**
   * Picking succeeds exactly when the next responses are one in-range choice
   * per remaining question. Entry i pairs question k + i with the pool item
   * its choice picks, asked under the question's 1-based number.
   */
  lemma {:induction false} PickMatchingSpec(questions: seq<string>, k: nat, pool: seq<string>, echoes: seq<string>, s: Script, at: nat)
    requires k <= |questions| && at <= |s|
    ensures var r := PickMatching(questions, k, pool, echoes, s, at);
            && (r.Done? <==>
                  && at + |questions| - k <= |s|
                  && forall j :: at <= j < at + |questions| - k ==> s[j].Choice? && s[j].index < |pool|)
            && (r.Done? ==>
                  && |r.value| == |questions| - k
                  && |r.asked| == |questions| - k
                  && forall i :: 0 <= i < |questions| - k ==>
                       && s[at + i].Choice? && s[at + i].index < |pool|
                       && r.value[i] == NewMatching(questions[k + i], pool[s[at + i].index])
                       && r.asked[i] == SelectPrompt(NumberedQuestion(k + i + 1, questions[k + i]), echoes))
    decreases |questions| - k
  {
    if k < |questions| && at < |s| && s[at].Choice? && s[at].index < |pool| {
      PickMatchingSpec(questions, k + 1, pool, echoes, s, at + 1);
      var r, r1 := PickMatching(questions, k, pool, echoes, s, at), PickMatching(questions, k + 1, pool, echoes, s, at + 1);
      if r1.Done? {
        assert r.value == [NewMatching(questions[k], pool[s[at].index])] + r1.value;
        assert r.asked == [SelectPrompt(NumberedQuestion(k + 1, questions[k]), echoes)] + r1.asked;
        forall i | 0 <= i < |questions| - k
          ensures && s[at + i].Choice? && s[at + i].index < |pool|
                  && r.value[i] == NewMatching(questions[k + i], pool[s[at + i].index])
                  && r.asked[i] == SelectPrompt(NumberedQuestion(k + i + 1, questions[k + i]), echoes)
        {
          if i > 0 {
            assert r.value[i] == r1.value[i - 1];
            assert r.asked[i] == r1.asked[i - 1];
            assert k + i == (k + 1) + (i - 1);
          }
        }
      }
    }
  }

  /** Entry i of a successful pick pairs question i with the pool item its in-range choice names. */
  lemma PickMatchingAt(questions: seq<string>, pool: seq<string>, echoes: seq<string>, s: Script, at: nat, i: nat)
    requires at <= |s| && PickMatching(questions, 0, pool, echoes, s, at).Done? && i < |questions|
    ensures var r := PickMatching(questions, 0, pool, echoes, s, at);
            && s[at + i].Choice? && s[at + i].index < |pool|
            && r.value[i] == NewMatching(questions[i], pool[s[at + i].index])
  {
    PickMatchingSpec(questions, 0, pool, echoes, s, at);
  }

  /**
   * The second half of a Matching batch: a pool of as many options as there
   * are questions, then one pick from that pool per question.
   */
  function ReadPoolAndPick(questions: seq<string>, s: Script, at: nat): (r: Outcome<seq<Matching>>)
    requires at <= |s|
    ensures r.Done? ==> |r.value| == |questions| <= MaxLabelIndex && r.next == at + 2 * |questions| <= |s|
  {
    match ReadOptions(|questions|, s, at)
    case Aborted => Aborted
    case Done(pool, at1, a1) =>
      match PickMatching(questions, 0, pool, FormattedPool(pool), s, at1)
      case Aborted => Aborted
      case Done(ms, at2, a2) => Done(ms, at2, a1 + a2)
  }

  /**
   * Reading the pool and the picks succeeds exactly when the next n responses
   * are texts and the n after them are choices among n items, for n questions
   * (and n is not past the last option letter).
   */
  lemma ReadPoolAndPickSucceeds(questions: seq<string>, s: Script, at: nat)
    requires at <= |s|
    ensures var n := |questions|;
            ReadPoolAndPick(questions, s, at).Done? <==>
              && n <= MaxLabelIndex && at + 2 * n <= |s|
              && (forall j :: at <= j < at + n ==> s[j].Text?)
              && (forall j :: at + n <= j < at + 2 * n ==> s[j].Choice? && s[j].index < n)
  {
    var n := |questions|;
    ReadOptionsSpec(n, s, at);
    var o := ReadOptions(n, s, at);
    if o.Done? {
      PickMatchingSpec(questions, 0, o.value, FormattedPool(o.value), s, at + n);
    }
  }

  /**
   * Entry i of the second half keeps question i; its pick, n + i responses in,
   * names a pool position, and the answer is the text typed at that position.
   */
  lemma ReadPoolAndPickAt(questions: seq<string>, s: Script, at: nat, i: nat)
    requires at <= |s| && ReadPoolAndPick(questions, s, at).Done? && i < |questions|
    ensures var r := ReadPoolAndPick(questions, s, at);
            var n := |questions|;
            && s[at + n + i].Choice? && s[at + n + i].index < n
            && r.value[i].question == questions[i]
            && s[at + s[at + n + i].index] == Text(r.value[i].answer)
  {
    var n := |questions|;
    var o := ReadOptions(n, s, at);
    PickMatchingAt(questions, o.value, FormattedPool(o.value), s, at + n, i);
    ReadOptionsAt(n, s, at, s[at + n + i].index);
  }

  /**
   * Matching: n questions, then a pool of exactly n options, then one pick
   * from that pool per question.
   */
  function ReadMatching(s: Script, at: nat): (r: Outcome<seq<Matching>>)
    requires at <= |s|
    ensures r.Done? ==> && at < |s| && s[at] == Number(|r.value|) && |r.value| <= MaxLabelIndex
                        && r.next == at + 1 + 3 * |r.value| <= |s|
  {
    match ReadQuestions(s, at)
    case Aborted => Aborted
    case Done(questions, at1, a1) =>
      match ReadPoolAndPick(questions, s, at1)
      case Aborted => Aborted
      case Done(ms, at2, a2) => Done(ms, at2, a1 + a2)
  }

  // ---------------------------------------------------------------------------
  // YesNo and Recall

  /** For each of questions[k..] in order, a numbered confirmation; its answer is recorded. */
  function ConfirmEach(questions: seq<string>, k: nat, s: Script, at: nat): (r: Outcome<seq<YesNo>>)
    requires k <= |questions| && at <= |s|
    ensures r.Done? ==> r.next == at + |questions| - k <= |s| && |r.value| == |questions| - k
    decreases |questions| - k
  {
    if k == |questions| then Done([], at, [])
    else
      match AskConfirm(NumberedQuestion(k + 1, questions[k]), s, at)
      case Aborted => Aborted
      case Done(answer, at1, a1) =>
        match ConfirmEach(questions, k + 1, s, at1)
        case Aborted => Aborted
        case Done(ys, at2, a2) => Done([NewYesNo(questions[k], answer)] + ys, at2, a1 + a2)
  }

  /**
   * Confirming succeeds exactly when the next responses are one confirmation
   * per remaining question; entry i pairs question k + i with its confirmation.
   */
  lemma {:induction false} ConfirmEachSpec(questions: seq<string>, k: nat, s: Script, at: nat)
    requires k <= |questions| && at <= |s|
    ensures var r := ConfirmEach(questions, k, s, at);
            && (r.Done? <==> at + |questions| - k <= |s| && forall j :: at <= j < at + |questions| - k ==> s[j].Confirm?)
            && (r.Done? ==>
                  && |r.value| == |questions| - k
                  && forall i :: 0 <= i < |questions| - k ==>
                       r.value[i] == NewYesNo(questions[k + i], s[at + i].yes) && s[at + i] == Confirm(r.value[i].answer))
    decreases |questions| - k
  {
    if k < |questions| && at < |s| && s[at].Confirm? {
      ConfirmEachSpec(questions, k + 1, s, at + 1);
      var r, r1 := ConfirmEach(questions, k, s, at), ConfirmEach(questions, k + 1, s, at + 1);
      if r1.Done? {
        assert r.value == [NewYesNo(questions[k], s[at].yes)] + r1.value;
        forall i | 0 <= i < |questions| - k
          ensures r.value[i] == NewYesNo(questions[k + i], s[at + i].yes) && s[at + i] == Confirm(r.value[i].answer)
        {
          if i > 0 {
            assert r.value[i] == r1.value[i - 1];
            assert k + i == (k + 1) + (i - 1);
          }
        }
      }
    }
  }

  /** Question k + i of a successful run is asked under its 1-based number k + i + 1, one confirmation per question. */
  lemma {:induction false} ConfirmEachPrompts(questions: seq<string>, k: nat, s: Script, at: nat)
    requires k <= |questions| && at <= |s| && ConfirmEach(questions, k, s, at).Done?
    ensures var r := ConfirmEach(questions, k, s, at);
            && |r.asked| == |questions| - k
            && forall i :: 0 <= i < |questions| - k ==> r.asked[i] == ConfirmPrompt(NumberedQuestion(k + i + 1, questions[k + i]))
    decreases |questions| - k
  {
    if k < |questions| {
      ConfirmEachPrompts(questions, k + 1, s, at + 1);
      var r, r1 := ConfirmEach(questions, k, s, at), ConfirmEach(questions, k + 1, s, at + 1);
      assert r.asked == [ConfirmPrompt(NumberedQuestion(k + 1, questions[k]))] + r1.asked;
      forall i | 0 < i < |questions| - k
        ensures r.asked[i] == ConfirmPrompt(NumberedQuestion(k + i + 1, questions[k + i]))
      {
        assert r.asked[i] == r1.asked[i - 1];
        assert k + i == (k + 1) + (i - 1);
      }
    }
  }

  /** YesNo: n questions, then one confirmation per question. */
  function ReadYesNo(s: Script, at: nat): (r: Outcome<seq<YesNo>>)
    requires at <= |s|
    ensures r.Done? ==> at < |s| && s[at] == Number(|r.value|) && r.next == at + 1 + 2 * |r.value| <= |s|
  {
    match ReadQuestions(s, at)
    case Aborted => Aborted
    case Done(questions, at1, a1) =>
      match ConfirmEach(questions, 0, s, at1)
      case Aborted => Aborted
      case Done(ys, at2, a2) => Done(ys, at2, a1 + a2)
  }

  /** For each of questions[k..] in order, a numbered free-text prompt echoing it; the text is the answer. */
  function AnswerEach(questions: seq<string>, k: nat, s: Script, at: nat): (r: Outcome<seq<Recall>>)
    requires k <= |questions| && at <= |s|
    ensures r.Done? ==> r.next == at + |questions| - k <= |s| && |r.value| == |questions| - k
    decreases |questions| - k
  {
    if k == |questions| then Done([], at, [])
    else
      match AskText(NumberedQuestion(k + 1, questions[k]), s, at)
      case Aborted => Aborted
      case Done(answer, at1, a1) =>
        match AnswerEach(questions, k + 1, s, at1)
        case Aborted => Aborted
        case Done(rs, at2, a2) => Done([NewRecall(questions[k], answer)] + rs, at2, a1 + a2)
  }

  /**
   * Answering succeeds exactly when the next responses are one text per
   * remaining question; entry i pairs question k + i with its typed answer.
   */
  lemma {:induction false} AnswerEachSpec(questions: seq<string>, k: nat, s: Script, at: nat)
    requires k <= |questions| && at <= |s|
    ensures var r := AnswerEach(questions, k, s, at);
            && (r.Done? <==> at + |questions| - k <= |s| && forall j :: at <= j < at + |questions| - k ==> s[j].Text?)
            && (r.Done? ==>
                  && |r.value| == |questions| - k
                  && forall i :: 0 <= i < |questions| - k ==>
                       r.value[i] == NewRecall(questions[k + i], s[at + i].text) && s[at + i] == Text(r.value[i].answer))
    decreases |questions| - k
  {
    if k < |questions| && at < |s| && s[at].Text? {
      AnswerEachSpec(questions, k + 1, s, at + 1);
      var r, r1 := AnswerEach(questions, k, s, at), AnswerEach(questions, k + 1, s, at + 1);
      if r1.Done? {
        assert r.value == [NewRecall(questions[k], s[at].text)] + r1.value;
        forall i | 0 <= i < |questions| - k
          ensures r.value[i] == NewRecall(questions[k + i], s[at + i].text) && s[at + i] == Text(r.value[i].answer)
        {
          if i > 0 {
            assert r.value[i] == r1.value[i - 1];
            assert k + i == (k + 1) + (i - 1);
          }
        }
      }
    }
  }

  /** Question k + i of a successful run is asked under its 1-based number k + i + 1, one free-text prompt per question. */
  lemma {:induction false} AnswerEachPrompts(questions: seq<string>, k: nat, s: Script, at: nat)
    requires k <= |questions| && at <= |s| && AnswerEach(questions, k, s, at).Done?
    ensures var r := AnswerEach(questions, k, s, at);
            && |r.asked| == |questions| - k
            && forall i :: 0 <= i < |questions| - k ==> r.asked[i] == TextPrompt(NumberedQuestion(k + i + 1, questions[k + i]))
    decreases |questions| - k
  {
    if k < |questions| {
      AnswerEachPrompts(questions, k + 1, s, at + 1);
      var r, r1 := AnswerEach(questions, k, s, at), AnswerEach(questions, k + 1, s, at + 1);
      assert r.asked == [TextPrompt(NumberedQuestion(k + 1, questions[k]))] + r1.asked;
      forall i | 0 < i < |questions| - k
        ensures r.asked[i] == TextPrompt(NumberedQuestion(k + i + 1, questions[k + i]))
      {
        assert r.asked[i] == r1.asked[i - 1];
        assert k + i == (k + 1) + (i - 1);
      }
    }
  }

  /** Recall: n questions, then one free-text answer per question. */
  function ReadRecall(s: Script, at: nat): (r: Outcome<seq<Recall>>)
    requires at <= |s|
    ensures r.Done? ==> at < |s| && s[at] == Number(|r.value|) && r.next == at + 1 + 2 * |r.value| <= |s|
  {
    match ReadQuestions(s, at)
    case Aborted => Aborted
    case Done(questions, at1, a1) =>
      match AnswerEach(questions, 0, s, at1)
      case Aborted => Aborted
      case Done(rs, at2, a2) => Done(rs, at2, a1 + a2)
  }

  // ---------------------------------------------------------------------------
  // Mcq

  /**
   * Where question i of a run of Mcq questions with m options each starts,
   * `at` being where the run starts: every question takes its text, its m
   * options and one pick.
   */
  function McqStart(at: nat, m: nat, i: nat): nat
  {
    at + i * (m + 2)
  }

  /**
   * The responses one Mcq question with m options accepts: its text, m option
   * texts and a pick among those m options.
   */
  predicate McqBlock(m: nat, s: Script, at: nat)
  {
    && m <= MaxLabelIndex && at + m + 2 <= |s|
    && (forall j :: at <= j <= at + m ==> s[j].Text?)
    && s[at + m + 1].Choice? && s[at + m + 1].index < m
  }

  /** Question k (from 0): its text, its own m options, and a pick among them (displayed without letters). */
  function McqQuestion(k: nat, m: nat, s: Script, at: nat): (r: Outcome<Mcq>)
    requires at <= |s|
    ensures r.Done? ==> r.next == at + m + 2 <= |s|
  {
    match AskText(Numbered(k + 1), s, at)
    case Aborted => Aborted
    case Done(question, at1, a1) =>
      match ReadOptions(m, s, at1)
      case Aborted => Aborted
      case Done(options, at2, a2) =>
        match AskSelect(NumberedQuestion(k + 1, question), options, options, s, at2)
        case Aborted => Aborted
        case Done(answer, at3, a3) => Done(NewMcq(question, answer, options), at3, a1 + a2 + a3)
  }

  /**
   * The question an Mcq block stands for: the text at its start, the m option
   * texts after it, and as answer the option the pick names.
   */
  function McqBlockValue(m: nat, s: Script, at: nat): (q: Mcq)
    requires McqBlock(m, s, at)
  {
    var options := TextsOf(s, at + 1, at + 1 + m);
    NewMcq(s[at].text, options[s[at + m + 1].index], options)
  }

  /**
   * Question q was read from the Mcq block at b: it holds the text typed
   * there, exactly the m option texts typed next, in order, and as answer the
   * option that the pick after them names, so the answer is one of its own
   * options.
   */
  predicate McqReadFrom(q: Mcq, m: nat, s: Script, b: nat)
  {
    && b + m + 2 <= |s|
    && s[b] == Text(q.question)
    && |q.options| == m
    && (forall j :: 0 <= j < m ==> s[b + 1 + j] == Text(q.options[j]))
    && s[b + m + 1].Choice? && s[b + m + 1].index < m
    && q.answer == q.options[s[b + m + 1].index]
    && q.answer in q.options
  }

  /** The question an Mcq block stands for was read from that block. */
  lemma McqBlockFields(m: nat, s: Script, at: nat)
    requires McqBlock(m, s, at)
    ensures McqReadFrom(McqBlockValue(m, s, at), m, s, at)
  {
    var q := McqBlockValue(m, s, at);
    forall j | 0 <= j < m
      ensures s[at + 1 + j] == Text(q.options[j])
    {
      assert s[at + 1 + j].Text?;
    }
  }

  /** One Mcq question succeeds exactly on an Mcq block. */
  lemma McqQuestionSucceeds(k: nat, m: nat, s: Script, at: nat)
    requires at <= |s|
    ensures McqQuestion(k, m, s, at).Done? <==> McqBlock(m, s, at)
  {
    if at < |s| && s[at].Text? {
      ReadOptionsSpec(m, s, at + 1);
    }
  }

  /** A successful Mcq question reads the question its block stands for. */
  lemma McqQuestionValue(k: nat, m: nat, s: Script, at: nat)
    requires at <= |s| && McqQuestion(k, m, s, at).Done?
    ensures McqBlock(m, s, at) && McqQuestion(k, m, s, at).value == McqBlockValue(m, s, at)
  {
    ReadOptionsSpec(m, s, at + 1);
    var options := ReadOptions(m, s, at + 1);
    var ts := TextsOf(s, at + 1, at + 1 + m);
    forall j | 0 <= j < m
      ensures options.value[j] == ts[j]
    {
      assert s[at + 1 + j].Text?;
    }
    assert options.value == ts;
  }

  /** The responses c Mcq questions with m options accept: c Mcq blocks in a row. */
  predicate McqItemsScript(c: nat, m: nat, s: Script, at: nat)
  {
    forall i :: 0 <= i < c ==> McqBlock(m, s, McqStart(at, m, i))
  }

  /** The questions c Mcq blocks in a row stand for, block by block. */
  function McqBlocks(c: nat, m: nat, s: Script, at: nat): (qs: seq<Mcq>)
    requires McqItemsScript(c, m, s, at)
    ensures |qs| == c
  {
    seq(c, i requires 0 <= i < c => McqBlockValue(m, s, McqStart(at, m, i)))
  }

  /** Question i + 1 of a run starts where question i of the run after its first block starts. */
  lemma McqStartShift(at: nat, m: nat, i: nat)
    ensures McqStart(at, m, i + 1) == McqStart(at + m + 2, m, i)
  {
    assert (i + 1) * (m + 2) == (m + 2) + i * (m + 2);
  }

  /** A run of c > 0 Mcq blocks is one block followed by a run of c - 1 blocks. */
  lemma McqItemsStep(c: nat, m: nat, s: Script, at: nat)
    requires c > 0
    ensures McqStart(at + m + 2, m, c - 1) == McqStart(at, m, c)
    ensures McqItemsScript(c, m, s, at) <==> McqBlock(m, s, at) && McqItemsScript(c - 1, m, s, at + m + 2)
  {
    var next := at + m + 2;
    McqStartShift(at, m, c - 1);
    assert McqStart(at, m, 0) == at;
    if McqBlock(m, s, at) && McqItemsScript(c - 1, m, s, next) {
      forall i | 0 <= i < c
        ensures McqBlock(m, s, McqStart(at, m, i))
      {
        if i > 0 {
          McqStartShift(at, m, i - 1);
        }
      }
    }
    if McqItemsScript(c, m, s, at) {
      forall i | 0 <= i < c - 1
        ensures McqBlock(m, s, McqStart(next, m, i))
      {
        McqStartShift(at, m, i);
        assert McqBlock(m, s, McqStart(at, m, i + 1));
      }
    }
  }

  /** The questions of a run of c > 0 Mcq blocks: its first block's, then those of the rest of the run. */
  lemma McqBlocksStep(c: nat, m: nat, s: Script, at: nat)
    requires c > 0 && McqItemsScript(c, m, s, at) && McqItemsScript(c - 1, m, s, at + m + 2)
    ensures McqBlock(m, s, at)
    ensures McqBlocks(c, m, s, at) == [McqBlockValue(m, s, at)] + McqBlocks(c - 1, m, s, at + m + 2)
  {
    var next := at + m + 2;
    assert McqStart(at, m, 0) == at;
    var qs, rest := McqBlocks(c, m, s, at), McqBlocks(c - 1, m, s, next);
    var joined := [McqBlockValue(m, s, at)] + rest;
    forall i | 0 <= i < c
      ensures qs[i] == joined[i]
    {
      if i > 0 {
        McqStartShift(at, m, i - 1);
      }
    }
  }

  /**
   * Questions k..count-1, one after the other. Reading them succeeds exactly
   * on c = count - k Mcq blocks in a row, and then yields the questions those
   * blocks stand for; any other script aborts.
   */
  function McqItems(count: nat, m: nat, k: nat, s: Script, at: nat): (r: Outcome<seq<Mcq>>)
    requires k <= count && at <= |s|
    ensures r.Done? <==> McqItemsScript(count - k, m, s, at)
    ensures r.Done? ==> r.value == McqBlocks(count - k, m, s, at) && r.next == McqStart(at, m, count - k) <= |s|
    decreases count - k
  {
    if k == count then Done([], at, [])
    else
      McqItemsStep(count - k, m, s, at);
      McqQuestionSucceeds(k, m, s, at);
      match McqQuestion(k, m, s, at)
      case Aborted => Aborted
      case Done(q, _, a1) =>
        McqQuestionValue(k, m, s, at);
        match McqItems(count, m, k + 1, s, at + m + 2)
        case Aborted => Aborted
        case Done(qs, at2, a2) =>
          McqBlocksStep(count - k, m, s, at);
          Done([q] + qs, at2, a1 + a2)
  }

  /** Picking from an empty option list fails, so with no options any question aborts the batch. */
  lemma McqWithoutOptionsAborts(count: nat, k: nat, s: Script, at: nat)
    requires k < count && at <= |s|
    ensures McqItems(count, 0, k, s, at).Aborted?
  {
    McqQuestionSucceeds(k, 0, s, at);
  }

  /** Question i of c Mcq blocks in a row was read from the block that starts McqStart(at, m, i). */
  lemma McqBlocksEntries(c: nat, m: nat, s: Script, at: nat)
    requires McqItemsScript(c, m, s, at)
    ensures forall i :: 0 <= i < c ==> McqReadFrom(McqBlocks(c, m, s, at)[i], m, s, McqStart(at, m, i))
  {
    forall i | 0 <= i < c
      ensures McqReadFrom(McqBlocks(c, m, s, at)[i], m, s, McqStart(at, m, i))
    {
      McqBlockFields(m, s, McqStart(at, m, i));
    }
  }

  /**
   * The prompts Mcq question k (from 0) with m options shows once it has read
   * q: its text under its 1-based number k + 1, its options under the letters
   * of positions 0..m-1 (starting again at 'a' for every question), then the
   * pick among its own options, echoing the question under the same number.
   */
  function McqQuestionAsked(k: nat, m: nat, q: Mcq): (asked: seq<Prompt>)
    ensures |asked| == m + 2
  {
    seq(m + 2, j requires 0 <= j < m + 2 =>
      if j == 0 then TextPrompt(Numbered(k + 1))
      else if j <= m then TextPrompt(Lettered(j - 1))
      else SelectPrompt(NumberedQuestion(k + 1, q.question), q.options))
  }

  /** The prompts of Mcq questions k, k + 1, ... that read qs, one question after the other. */
  function McqAsked(k: nat, m: nat, qs: seq<Mcq>): seq<Prompt>
    decreases |qs|
  {
    if qs == [] then [] else McqQuestionAsked(k, m, qs[0]) + McqAsked(k + 1, m, qs[1..])
  }

  /** The prompts of questions that read q and then qs are q's prompts, then those of qs. */
  lemma McqAskedJoin(asked: seq<Prompt>, first: seq<Prompt>, rest: seq<Prompt>, k: nat, m: nat, qs: seq<Mcq>, q: Mcq, tail: seq<Mcq>)
    requires asked == first + rest && qs == [q] + tail
    requires first == McqQuestionAsked(k, m, q) && rest == McqAsked(k + 1, m, tail)
    ensures asked == McqAsked(k, m, qs)
  {
    HeadAndTail(q, tail);
  }

  /** A successful Mcq question shows the prompts McqQuestionAsked gives for the question it read. */
  lemma McqQuestionPrompts(k: nat, m: nat, s: Script, at: nat)
    requires at <= |s| && McqQuestion(k, m, s, at).Done?
    ensures var r := McqQuestion(k, m, s, at);
            r.asked == McqQuestionAsked(k, m, r.value)
  {
    ReadOptionsPrompts(m, s, at + 1);
    var r, o := McqQuestion(k, m, s, at), ReadOptions(m, s, at + 1);
    var select := SelectPrompt(NumberedQuestion(k + 1, r.value.question), r.value.options);
    assert r.asked == [TextPrompt(Numbered(k + 1))] + o.asked + [select];
    forall j | 0 <= j < m + 2
      ensures r.asked[j] == McqQuestionAsked(k, m, r.value)[j]
    {
      if 0 < j <= m {
        assert r.asked[j] == o.asked[j - 1];
      }
    }
  }

  /**
   * A successful run of questions k..count-1, k < count, is question k
   * followed by the run of the rest, which starts at `mid`.
   */
  lemma McqItemsCons(count: nat, m: nat, k: nat, s: Script, at: nat, mid: nat)
    requires k < count && at <= |s| && McqItems(count, m, k, s, at).Done? && mid == at + m + 2
    ensures mid <= |s| && McqQuestion(k, m, s, at).Done? && McqItems(count, m, k + 1, s, mid).Done?
    ensures McqItems(count, m, k, s, at).asked == McqQuestion(k, m, s, at).asked + McqItems(count, m, k + 1, s, mid).asked
    ensures McqItems(count, m, k, s, at).value == [McqQuestion(k, m, s, at).value] + McqItems(count, m, k + 1, s, mid).value
  {
  }

  /** A successful run of questions k..count-1 shows the prompts McqAsked gives for the questions it read. */
  lemma {:induction false} McqItemsPrompts(count: nat, m: nat, k: nat, s: Script, at: nat)
    requires k <= count && at <= |s| && McqItems(count, m, k, s, at).Done?
    ensures McqItems(count, m, k, s, at).asked == McqAsked(k, m, McqItems(count, m, k, s, at).value)
    decreases count - k
  {
    if k < count {
      var mid := at + m + 2;
      McqItemsCons(count, m, k, s, at, mid);
      McqItemsPrompts(count, m, k + 1, s, mid);
      McqItemsPromptsStep(count, m, k, s, at, mid);
    }
  }

  /** The step of McqItemsPrompts: question k's prompts, then those of the rest of the run from `mid`. */
  lemma McqItemsPromptsStep(count: nat, m: nat, k: nat, s: Script, at: nat, mid: nat)
    requires k < count && at <= |s| && McqItems(count, m, k, s, at).Done? && mid == at + m + 2 && mid <= |s|
    requires McqItems(count, m, k + 1, s, mid).Done?
    requires McqItems(count, m, k + 1, s, mid).asked == McqAsked(k + 1, m, McqItems(count, m, k + 1, s, mid).value)
    ensures McqItems(count, m, k, s, at).asked == McqAsked(k, m, McqItems(count, m, k, s, at).value)
  {
    McqItemsCons(count, m, k, s, at, mid);
    McqQuestionPrompts(k, m, s, at);
    var r, q, rest := McqItems(count, m, k, s, at), McqQuestion(k, m, s, at), McqItems(count, m, k + 1, s, mid);
    McqAskedJoin(r.asked, q.asked, rest.asked, k, m, r.value, q.value, rest.value);
  }

  /** Mcq question k's prompts, position by position: its number, the letters of positions 0..m-1, its pick. */
  lemma McqQuestionAskedAt(k: nat, m: nat, q: Mcq)
    ensures var asked := McqQuestionAsked(k, m, q);
            && asked[0] == TextPrompt(Numbered(k + 1))
            && (forall j :: 0 < j <= m ==> asked[j] == TextPrompt(Lettered(j - 1)))
            && asked[m + 1] == SelectPrompt(NumberedQuestion(k + 1, q.question), q.options)
  {
  }

  /** The prompts of a non-empty qs: those of its first question, then those of the rest, numbered from k1 = k + 1. */
  lemma McqAskedSplit(k: nat, m: nat, qs: seq<Mcq>, k1: nat, tail: seq<Mcq>)
    requires qs != [] && k1 == k + 1 && tail == qs[1..]
    ensures McqAsked(k, m, qs) == McqQuestionAsked(k, m, qs[0]) + McqAsked(k1, m, tail)
  {
  }

  /** The first question of qs is shown first: under its number k + 1, then its options' letters, then its pick. */
  lemma McqAskedHead(k: nat, m: nat, qs: seq<Mcq>)
    requires qs != []
    ensures var asked := McqAsked(k, m, qs);
            && m + 2 <= |asked|
            && asked[0] == TextPrompt(Numbered(k + 1))
            && (forall j :: 0 < j <= m ==> asked[j] == TextPrompt(Lettered(j - 1)))
            && asked[m + 1] == SelectPrompt(NumberedQuestion(k + 1, qs[0].question), qs[0].options)
  {
    var k1, tail := k + 1, qs[1..];
    McqAskedSplit(k, m, qs, k1, tail);
    var first, rest := McqQuestionAsked(k, m, qs[0]), McqAsked(k1, m, tail);
    McqQuestionAskedAt(k, m, qs[0]);
    forall j | 0 < j <= m
      ensures (first + rest)[j] == TextPrompt(Lettered(j - 1))
    {
      ConcatLeft(first, rest, j);
    }
    ConcatLeft(first, rest, 0);
    ConcatLeft(first, rest, m + 1);
  }

  /**
   * Question k + i of qs is shown from position b = McqStart(0, m, i) of the
   * prompts on: under its number k + i + 1, then its options under the
   * letters of positions 0..m-1, then its pick.
   */
  lemma {:induction false} McqAskedAt(k: nat, m: nat, qs: seq<Mcq>, i: nat, b: nat)
    requires i < |qs| && b == McqStart(0, m, i)
    ensures var asked := McqAsked(k, m, qs);
            && b + m + 2 <= |asked|
            && asked[b] == TextPrompt(Numbered(k + i + 1))
            && (forall j :: b < j <= b + m ==> asked[j] == TextPrompt(Lettered(j - b - 1)))
            && asked[b + m + 1] == SelectPrompt(NumberedQuestion(k + i + 1, qs[i].question), qs[i].options)
    decreases i, 1
  {
    if i == 0 {
      assert b == 0 by { assert McqStart(0, m, 0) == 0; }
      McqAskedHead(k, m, qs);
    } else {
      var c := McqStart(0, m, i - 1);
      assert b == c + (m + 2) by { McqStartShift(0, m, i - 1); }
      McqAskedShift(k, m, qs, i, b, c);
    }
  }

  /** McqAskedAt for a question after the first: the prompts of the rest of qs, shown after the first question's m + 2. */
  lemma {:induction false} McqAskedShift(k: nat, m: nat, qs: seq<Mcq>, i: nat, b: nat, c: nat)
    requires 0 < i < |qs| && c == McqStart(0, m, i - 1) && b == c + (m + 2)
    ensures var asked := McqAsked(k, m, qs);
            && b + m + 2 <= |asked|
            && asked[b] == TextPrompt(Numbered(k + i + 1))
            && (forall j :: b < j <= b + m ==> asked[j] == TextPrompt(Lettered(j - b - 1)))
            && asked[b + m + 1] == SelectPrompt(NumberedQuestion(k + i + 1, qs[i].question), qs[i].options)
    decreases i, 0
  {
    var k1, tail := k + 1, qs[1..];
    McqAskedSplit(k, m, qs, k1, tail);
    var first, rest := McqQuestionAsked(k, m, qs[0]), McqAsked(k1, m, tail);
    McqAskedAt(k1, m, tail, i - 1, c);
    forall j | b < j <= b + m
      ensures (first + rest)[j] == TextPrompt(Lettered(j - b - 1))
    {
      ConcatRight(first, rest, j - (m + 2), j);
    }
    ConcatRight(first, rest, c, b);
    ConcatRight(first, rest, c + m + 1, b + m + 1);
    assert tail[i - 1] == qs[i] && k1 + (i - 1) == k + i;
  }


  /**
   * Within a successful run of questions k..count-1, question k + i is asked
   * under its number k + i + 1, its options under the letters of positions
   * 0..m-1, then its pick, from position McqStart(0, m, i) of the prompts on.
   */
  lemma McqItemsPromptsAt(count: nat, m: nat, k: nat, s: Script, at: nat, i: nat, b: nat)
    requires k <= count && at <= |s| && McqItems(count, m, k, s, at).Done? && i < count - k && b == McqStart(0, m, i)
    ensures var r := McqItems(count, m, k, s, at);
            && b + m + 2 <= |r.asked|
            && r.asked[b] == TextPrompt(Numbered(k + i + 1))
            && (forall j :: b < j <= b + m ==> r.asked[j] == TextPrompt(Lettered(j - b - 1)))
            && r.asked[b + m + 1] == SelectPrompt(NumberedQuestion(k + i + 1, r.value[i].question), r.value[i].options)
  {
    McqItemsPrompts(count, m, k, s, at);
    McqAskedAt(k, m, McqItems(count, m, k, s, at).value, i, b);
  }


  /** Mcq: the number of questions and the number of options up front, then the questions. */
  function ReadMcq(s: Script, at: nat): (r: Outcome<seq<Mcq>>)
    requires at <= |s|
    ensures r.Done? ==> && at + 2 <= |s| && s[at] == Number(|r.value|) && s[at + 1].Number?
                        && McqItemsScript(|r.value|, s[at + 1].n, s, at + 2)
                        && r.value == McqBlocks(|r.value|, s[at + 1].n, s, at + 2)
                        && r.next == McqStart(at + 2, s[at + 1].n, |r.value|) <= |s|
  {
    match AskNumber(HowManyQuestions, s, at)
    case Aborted => Aborted
    case Done(n, at1, a1) =>
      match AskNumber(HowManyOptions, s, at1)
      case Aborted => Aborted
      case Done(m, at2, a2) =>
        match McqItems(n, m, 0, s, at2)
        case Aborted => Aborted
        case Done(qs, at3, a3) => Done(qs, at3, a1 + a2 + a3)
  }

  /**
   * A successful Mcq read asks for the number of questions, then for the
   * number of options, then shows every question's prompts in turn, the
   * questions numbered from 1.
   */
  lemma ReadMcqPrompts(s: Script, at: nat)
    requires at <= |s| && ReadMcq(s, at).Done?
    ensures var r := ReadMcq(s, at);
            && at + 1 < |s| && s[at + 1].Number? && 2 <= |r.asked|
            && r.asked[0] == NumberPrompt(HowManyQuestions) && r.asked[1] == NumberPrompt(HowManyOptions)
            && r.asked[2..] == McqAsked(0, s[at + 1].n, r.value)
  {
    AskNumberSpec(HowManyQuestions, s, at);
    AskNumberSpec(HowManyOptions, s, at + 1);
    var n, m := s[at].n, s[at + 1].n;
    McqItemsPrompts(n, m, 0, s, at + 2);
  }

  // ---------------------------------------------------------------------------
  // RecognizeRoot

  /**
   * Question k (from 0), read as three texts: the question, an example, and
   * then the answer, typed at a prompt that echoes both.
   */
  function RootQuestion(k: nat, s: Script, at: nat): (r: Outcome<RecognizeRoot>)
    requires at <= |s|
    ensures r.Done? ==> r.next == at + 3 <= |s|
  {
    match AskText(Numbered(k + 1), s, at)
    case Aborted => Aborted
    case Done(question, at1, a1) =>
      match AskText(ExampleLine, s, at1)
      case Aborted => Aborted
      case Done(example, at2, a2) =>
        match AskText(NumberedWithExample(k + 1, question, example), s, at2)
        case Aborted => Aborted
        case Done(answer, at3, a3) => Done(NewRecognizeRoot(question, answer, example), at3, a1 + a2 + a3)
  }

  /**
   * One RecognizeRoot question succeeds exactly when the next three responses
   * are texts; it holds, in the order typed, its question, its example and
   * its answer, and the answer prompt echoes the first two.
   */
  lemma RootQuestionSpec(k: nat, s: Script, at: nat)
    requires at <= |s|
    ensures var r := RootQuestion(k, s, at);
            && (r.Done? <==> at + 3 <= |s| && s[at].Text? && s[at + 1].Text? && s[at + 2].Text?)
            && (r.Done? ==>
                  && s[at] == Text(r.value.question)
                  && s[at + 1] == Text(r.value.example)
                  && s[at + 2] == Text(r.value.answer)
                  && r.asked == [TextPrompt(Numbered(k + 1)), TextPrompt(ExampleLine),
                                 TextPrompt(NumberedWithExample(k + 1, r.value.question, r.value.example))])
  {
  }

  /** The responses one RecognizeRoot question accepts: three texts. */
  predicate RootBlock(s: Script, at: nat)
  {
    at + 3 <= |s| && s[at].Text? && s[at + 1].Text? && s[at + 2].Text?
  }

  /** The question a RecognizeRoot block stands for: question, example and answer, in the order typed. */
  function RootBlockValue(s: Script, at: nat): (q: RecognizeRoot)
    requires RootBlock(s, at)
    ensures s[at] == Text(q.question) && s[at + 1] == Text(q.example) && s[at + 2] == Text(q.answer)
  {
    NewRecognizeRoot(s[at].text, s[at + 2].text, s[at + 1].text)
  }

  /** The responses c RecognizeRoot questions accept: c blocks of three texts in a row. */
  predicate RootItemsScript(c: nat, s: Script, at: nat)
    decreases c
  {
    c == 0 || (RootBlock(s, at) && RootItemsScript(c - 1, s, at + 3))
  }

  /** The questions c RecognizeRoot blocks in a row stand for, block by block. */
  function RootBlocks(c: nat, s: Script, at: nat): (qs: seq<RecognizeRoot>)
    requires RootItemsScript(c, s, at)
    ensures |qs| == c
    decreases c
  {
    if c == 0 then [] else [RootBlockValue(s, at)] + RootBlocks(c - 1, s, at + 3)
  }

  /**
   * Questions k..count-1, one after the other. Reading them succeeds exactly
   * on c = count - k RecognizeRoot blocks in a row, and then yields the
   * questions those blocks stand for; any other script aborts.
   */
  function RootItems(count: nat, k: nat, s: Script, at: nat): (r: Outcome<seq<RecognizeRoot>>)
    requires k <= count && at <= |s|
    ensures r.Done? <==> RootItemsScript(count - k, s, at)
    ensures r.Done? ==> r.value == RootBlocks(count - k, s, at) && r.next == at + 3 * (count - k) <= |s|
    decreases count - k
  {
    if k == count then Done([], at, [])
    else
      RootQuestionSpec(k, s, at);
      match RootQuestion(k, s, at)
      case Aborted => Aborted
      case Done(q, _, a1) =>
        match RootItems(count, k + 1, s, at + 3)
        case Aborted => Aborted
        case Done(rs, at2, a2) => Done([q] + rs, at2, a1 + a2)
  }

  /**
   * Block i of c RecognizeRoot blocks in a row starts b = 3i responses in:
   * the blocks follow each other without gaps or overlap.
   */
  lemma {:induction false} RootBlocksAt(c: nat, s: Script, at: nat, i: nat, b: nat)
    requires RootItemsScript(c, s, at) && i < c && b == at + 3 * i
    ensures RootBlock(s, b) && RootBlocks(c, s, at)[i] == RootBlockValue(s, b)
    decreases i
  {
    if i > 0 {
      RootBlocksAt(c - 1, s, at + 3, i - 1, b);
    } else {
      assert b == at;
    }
  }

  /** c RecognizeRoot blocks in a row are exactly the next 3c responses, all of them texts. */
  lemma {:induction false} RootItemsScriptTexts(c: nat, s: Script, at: nat)
    requires at <= |s|
    ensures RootItemsScript(c, s, at) <==> at + 3 * c <= |s| && forall j :: at <= j < at + 3 * c ==> s[j].Text?
    decreases c
  {
    if c > 0 {
      if RootItemsScript(c, s, at) {
        RootItemsScriptTexts(c - 1, s, at + 3);
        forall j | at <= j < at + 3 * c
          ensures s[j].Text?
        {
          if j >= at + 3 {
            assert at + 3 <= j < (at + 3) + 3 * (c - 1);
          } else {
            assert j == at || j == at + 1 || j == at + 2;
          }
        }
      } else if at + 3 * c <= |s| && forall j :: at <= j < at + 3 * c ==> s[j].Text? {
        assert s[at].Text? && s[at + 1].Text? && s[at + 2].Text?;
        RootItemsScriptTexts(c - 1, s, at + 3);
      }
    }
  }

  /**
   * The prompts RecognizeRoot question k (from 0) shows once it has read q:
   * its text under its 1-based number k + 1, the example, then the answer,
   * echoing question and example under the same number.
   */
  function RootQuestionAsked(k: nat, q: RecognizeRoot): seq<Prompt>
  {
    [TextPrompt(Numbered(k + 1)), TextPrompt(ExampleLine), TextPrompt(NumberedWithExample(k + 1, q.question, q.example))]
  }

  /** The prompts of RecognizeRoot questions k, k + 1, ... that read qs, one question after the other. */
  function RootAsked(k: nat, qs: seq<RecognizeRoot>): seq<Prompt>
    decreases |qs|
  {
    if qs == [] then [] else RootQuestionAsked(k, qs[0]) + RootAsked(k + 1, qs[1..])
  }

  /** The prompts of questions that read q and then qs are q's prompts, then those of qs. */
  lemma RootAskedJoin(asked: seq<Prompt>, first: seq<Prompt>, rest: seq<Prompt>, k: nat, qs: seq<RecognizeRoot>, q: RecognizeRoot, tail: seq<RecognizeRoot>)
    requires asked == first + rest && qs == [q] + tail
    requires first == RootQuestionAsked(k, q) && rest == RootAsked(k + 1, tail)
    ensures asked == RootAsked(k, qs)
  {
    HeadAndTail(q, tail);
  }

  /**
   * A successful run of questions k..count-1, k < count, is question k
   * followed by the run of the rest, which starts at `mid`.
   */
  lemma RootItemsCons(count: nat, k: nat, s: Script, at: nat, mid: nat)
    requires k < count && at <= |s| && RootItems(count, k, s, at).Done? && mid == at + 3
    ensures mid <= |s| && RootQuestion(k, s, at).Done? && RootItems(count, k + 1, s, mid).Done?
    ensures RootItems(count, k, s, at).asked == RootQuestion(k, s, at).asked + RootItems(count, k + 1, s, mid).asked
    ensures RootItems(count, k, s, at).value == [RootQuestion(k, s, at).value] + RootItems(count, k + 1, s, mid).value
  {
  }

  /** A successful run of questions k..count-1 shows the prompts RootAsked gives for the questions it read. */
  lemma {:induction false} RootItemsPrompts(count: nat, k: nat, s: Script, at: nat)
    requires k <= count && at <= |s| && RootItems(count, k, s, at).Done?
    ensures RootItems(count, k, s, at).asked == RootAsked(k, RootItems(count, k, s, at).value)
    decreases count - k
  {
    if k < count {
      var mid := at + 3;
      RootItemsCons(count, k, s, at, mid);
      RootItemsPrompts(count, k + 1, s, mid);
      RootItemsPromptsStep(count, k, s, at, mid);
    }
  }

  /** The step of RootItemsPrompts: question k's prompts, then those of the rest of the run from `mid`. */
  lemma RootItemsPromptsStep(count: nat, k: nat, s: Script, at: nat, mid: nat)
    requires k < count && at <= |s| && RootItems(count, k, s, at).Done? && mid == at + 3 && mid <= |s|
    requires RootItems(count, k + 1, s, mid).Done?
    requires RootItems(count, k + 1, s, mid).asked == RootAsked(k + 1, RootItems(count, k + 1, s, mid).value)
    ensures RootItems(count, k, s, at).asked == RootAsked(k, RootItems(count, k, s, at).value)
  {
    RootItemsCons(count, k, s, at, mid);
    RootQuestionSpec(k, s, at);
    var r, q, rest := RootItems(count, k, s, at), RootQuestion(k, s, at), RootItems(count, k + 1, s, mid);
    RootAskedJoin(r.asked, q.asked, rest.asked, k, r.value, q.value, rest.value);
  }

  /**
   * Question k + i of qs is shown from position b = 3i of the prompts on:
   * under its number k + i + 1, then for its example, then for its answer,
   * echoing question and example under the same number.
   */
  lemma {:induction false} RootAskedAt(k: nat, qs: seq<RecognizeRoot>, i: nat, b: nat)
    requires i < |qs| && b == 3 * i
    ensures var asked := RootAsked(k, qs);
            && b + 3 <= |asked|
            && asked[b] == TextPrompt(Numbered(k + i + 1))
            && asked[b + 1] == TextPrompt(ExampleLine)
            && asked[b + 2] == TextPrompt(NumberedWithExample(k + i + 1, qs[i].question, qs[i].example))
    decreases i
  {
    var k1, tail := k + 1, qs[1..];
    var first, rest := RootQuestionAsked(k, qs[0]), RootAsked(k1, tail);
    assert RootAsked(k, qs) == first + rest;
    if i == 0 {
      ConcatLeft(first, rest, 0);
      ConcatLeft(first, rest, 1);
      ConcatLeft(first, rest, 2);
    } else {
      var c := b - 3;
      RootAskedAt(k1, tail, i - 1, c);
      ConcatRight(first, rest, c, b);
      ConcatRight(first, rest, c + 1, b + 1);
      ConcatRight(first, rest, c + 2, b + 2);
      assert tail[i - 1] == qs[i] && k1 + (i - 1) == k + i;
    }
  }

  /**
   * Within a successful run of questions k..count-1, question k + i is asked
   * from position b = 3i of the prompts on: under its number k + i + 1, then
   * for its example, then for its answer, echoing question and example.
   */
  lemma RootItemsPromptsAt(count: nat, k: nat, s: Script, at: nat, i: nat, b: nat)
    requires k <= count && at <= |s| && RootItems(count, k, s, at).Done? && i < count - k && b == 3 * i
    ensures var r := RootItems(count, k, s, at);
            && b + 3 <= |r.asked|
            && r.asked[b] == TextPrompt(Numbered(k + i + 1))
            && r.asked[b + 1] == TextPrompt(ExampleLine)
            && r.asked[b + 2] == TextPrompt(NumberedWithExample(k + i + 1, r.value[i].question, r.value[i].example))
  {
    RootItemsPrompts(count, k, s, at);
    RootAskedAt(k, RootItems(count, k, s, at).value, i, b);
  }

  /** RecognizeRoot: the number of questions, then three texts per question. */
  function ReadRecognizeRoot(s: Script, at: nat): (r: Outcome<seq<RecognizeRoot>>)
    requires at <= |s|
    ensures r.Done? ==> at < |s| && s[at] == Number(|r.value|) && r.next == at + 1 + 3 * |r.value| <= |s|
  {
    match AskNumber(HowManyQuestions, s, at)
    case Aborted => Aborted
    case Done(n, at1, a1) =>
      match RootItems(n, 0, s, at1)
      case Aborted => Aborted
      case Done(rs, at2, a2) => Done(rs, at2, a1 + a2)
  }

  /**
   * A successful RecognizeRoot read asks for the number of questions, then
   * shows every question's prompts in turn, the questions numbered from 1.
   */
  lemma ReadRecognizeRootPrompts(s: Script, at: nat)
    requires at <= |s| && ReadRecognizeRoot(s, at).Done?
    ensures var r := ReadRecognizeRoot(s, at);
            && 1 <= |r.asked| && r.asked[0] == NumberPrompt(HowManyQuestions)
            && r.asked[1..] == RootAsked(0, r.value)
  {
    AskNumberSpec(HowManyQuestions, s, at);
    RootItemsPrompts(s[at].n, 0, s, at + 1);
  }

  // ---------------------------------------------------------------------------
  // The menu loop

  /** The menu: the five authorable kinds and SaveAndQuit. */
  datatype EntryOption = Matching | YesNo | Recall | Mcq | RecognizeRoot | SaveAndQuit

  /** Every menu item exactly once, SaveAndQuit last. */
  function AllOptions(): (os: seq<EntryOption>)
    ensures |os| == 6 && os[QuitIndex] == EntryOption.SaveAndQuit
    ensures forall i, j :: 0 <= i < j < |os| ==> os[i] != os[j]
  {
    [EntryOption.Matching, EntryOption.YesNo, EntryOption.Recall,
     EntryOption.Mcq, EntryOption.RecognizeRoot, EntryOption.SaveAndQuit]
  }

  /** The menu items as displayed: each item's own name. */
  function MenuNames(): seq<string>
  {
    ["Matching", "YesNo", "Recall", "Mcq", "RecognizeRoot", "SaveAndQuit"]
  }

  /** The position of SaveAndQuit in the menu. */
  const QuitIndex: nat := 5

  /** SaveAndQuit is offered at QuitIndex and nowhere else on the menu. */
  lemma QuitPicked(k: nat)
    requires k < |AllOptions()| && AllOptions()[k] == EntryOption.SaveAndQuit
    ensures k == QuitIndex
  {
  }

  /** True when picking `o` in the menu produces an exercise of the variant `e`. */
  predicate Creates(o: EntryOption, e: Exercise)
  {
    match o
    case Matching => e.Matching?
    case YesNo => e.YesNo?
    case Recall => e.Recall?
    case Mcq => e.Mcq?
    case RecognizeRoot => e.RecognizeRoot?
    case SaveAndQuit => false
  }

  /** An exercise of one of the five kinds the menu offers. */
  predicate Authored(e: Exercise)
  {
    !e.FillInTheBlank? && !e.SameOrOpposite?
  }

  /** Runs the reader for the chosen kind and wraps its batch in the matching variant. */
  function ReadKind(o: EntryOption, s: Script, at: nat): (r: Outcome<Exercise>)
    requires o != EntryOption.SaveAndQuit && at <= |s|
    ensures r.Done? ==> Creates(o, r.value) && Authored(r.value) && at < r.next <= |s|
  {
    match o
    case Matching =>
      (match ReadMatching(s, at)
       case Aborted => Aborted
       case Done(v, next, asked) => Done(Exercise.Matching(v), next, asked))
    case YesNo =>
      (match ReadYesNo(s, at)
       case Aborted => Aborted
       case Done(v, next, asked) => Done(Exercise.YesNo(v), next, asked))
    case Recall =>
      (match ReadRecall(s, at)
       case Aborted => Aborted
       case Done(v, next, asked) => Done(Exercise.Recall(v), next, asked))
    case Mcq =>
      (match ReadMcq(s, at)
       case Aborted => Aborted
       case Done(v, next, asked) => Done(Exercise.Mcq(v), next, asked))
    case RecognizeRoot =>
      (match ReadRecognizeRoot(s, at)
       case Aborted => Aborted
       case Done(v, next, asked) => Done(Exercise.RecognizeRoot(v), next, asked))
  }

  /**
   * The session: pick a kind from the menu, read a batch of it, and repeat;
   * SaveAndQuit ends the session and nothing after it is read.
   */
  function ReadSession(s: Script, at: nat): (r: Outcome<seq<Exercise>>)
    requires at <= |s|
    ensures r.Done? ==> at < r.next <= |s|
    decreases |s| - at
  {
    match AskSelect(ExerciseType, AllOptions(), MenuNames(), s, at)
    case Aborted => Aborted
    case Done(o, at1, a1) =>
      if o == EntryOption.SaveAndQuit then Done([], at1, a1)
      else
        match ReadKind(o, s, at1)
        case Aborted => Aborted
        case Done(e, at2, a2) =>
          match ReadSession(s, at2)
          case Aborted => Aborted
          case Done(es, at3, a3) => Done([e] + es, at3, a1 + a2 + a3)
  }
}
