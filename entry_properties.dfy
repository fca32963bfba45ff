/**
 * What each reader of the entry engine does with the responses it is given:
 * exactly which scripts it accepts (any other script aborts the run), where
 * in the script each recorded field comes from, and how the menu loop
 * strings the batches together.
 */
module EntryProperties {
  import opened Exercises
  import opened Prompts
  import opened Entry

  /** The menu offers every kind, and SaveAndQuit, exactly once. */
  lemma MenuOffersEveryOption(o: EntryOption)
    ensures o in AllOptions()
    ensures multiset(AllOptions())[o] == 1
  {
    var os := AllOptions();
    match o
    case Matching => assert os[0] == o;
    case YesNo => assert os[1] == o;
    case Recall => assert os[2] == o;
    case Mcq => assert os[3] == o;
    case RecognizeRoot => assert os[4] == o;
    case SaveAndQuit => assert os[5] == o;
  }

  // ---------------------------------------------------------------------------
  // Matching

  /**
   * The responses a Matching batch accepts at `at`: a count n, n question
   * texts, n option texts, then n picks among the n options.
   */
  predicate MatchingScript(s: Script, at: nat)
  {
    && at < |s| && s[at].Number?
    && var n := s[at].n;
    && n <= MaxLabelIndex && at + 1 + 3 * n <= |s|
    && (forall j :: at < j <= at + n ==> s[j].Text?)
    && (forall j :: at + 1 + n <= j < at + 1 + 2 * n ==> s[j].Text?)
    && (forall j :: at + 1 + 2 * n <= j < at + 1 + 3 * n ==> s[j].Choice? && s[j].index < n)
  }

  /** Reading a Matching batch succeeds exactly on a Matching script; any other script aborts. */
  lemma ReadMatchingSucceeds(s: Script, at: nat)
    requires at <= |s|
    ensures ReadMatching(s, at).Done? <==> MatchingScript(s, at)
  {
    ReadQuestionsSpec(s, at);
    var q := ReadQuestions(s, at);
    if q.Done? {
      ReadPoolAndPickSucceeds(q.value, s, at + 1 + |q.value|);
    }
  }

  /** The option pool of a Matching batch of n entries read at `at`: the n texts typed after the questions. */
  function MatchingPool(s: Script, at: nat, n: nat): (pool: seq<string>)
    requires at + 1 + 2 * n <= |s|
    ensures |pool| == n
  {
    TextsOf(s, at + 1 + n, at + 1 + 2 * n)
  }

  /**
   * Entry i of a Matching batch of n entries holds the i-th question typed;
   * the i-th pick names a position among the n options, and the answer is the
   * option typed at that position.
   */
  lemma ReadMatchingEntry(s: Script, at: nat, i: nat)
    requires at <= |s| && ReadMatching(s, at).Done? && i < |ReadMatching(s, at).value|
    ensures var r := ReadMatching(s, at);
            var n := |r.value|;
            && s[at + 1 + i] == Text(r.value[i].question)
            && s[at + 1 + 2 * n + i].Choice? && s[at + 1 + 2 * n + i].index < n
            && s[at + 1 + n + s[at + 1 + 2 * n + i].index] == Text(r.value[i].answer)
  {
    var q := ReadQuestions(s, at);
    ReadQuestionsAt(s, at, i);
    ReadPoolAndPickAt(q.value, s, at + 1 + |q.value|, i);
  }

  /** Entry i's answer is the pool item its pick names. */
  lemma ReadMatchingPoolEntry(s: Script, at: nat, i: nat, n: nat)
    requires at <= |s| && ReadMatching(s, at).Done? && n == |ReadMatching(s, at).value| && i < n
    ensures at + 1 + 2 * n <= |s| && s[at + 1 + 2 * n + i].Choice? && s[at + 1 + 2 * n + i].index < n
    ensures s[at + 1 + i] == Text(ReadMatching(s, at).value[i].question)
    ensures ReadMatching(s, at).value[i].answer == MatchingPool(s, at, n)[s[at + 1 + 2 * n + i].index]
  {
    ReadMatchingSucceeds(s, at);
    ReadMatchingEntry(s, at, i);
    assert s[at + 1 + n + s[at + 1 + 2 * n + i].index] == Text(MatchingPool(s, at, n)[s[at + 1 + 2 * n + i].index]);
  }

  /**
   * A Matching batch of n entries comes from a Matching script: entry i holds
   * the i-th question typed, and its answer is the item of the pool (the n
   * option texts typed after the questions) that the i-th pick names, so it
   * is always one of the pool.
   */
  lemma ReadMatchingShape(s: Script, at: nat)
    requires at <= |s| && ReadMatching(s, at).Done?
    ensures var r := ReadMatching(s, at);
            var n := |r.value|;
            && MatchingScript(s, at) && s[at] == Number(n)
            && var pool := MatchingPool(s, at, n);
            && (forall i :: 0 <= i < n ==> s[at + 1 + i] == Text(r.value[i].question))
            && (forall i :: 0 <= i < n ==> r.value[i].answer == pool[s[at + 1 + 2 * n + i].index])
            && (forall i :: 0 <= i < n ==> r.value[i].answer in pool)
  {
    ReadMatchingSucceeds(s, at);
    forall i | 0 <= i < |ReadMatching(s, at).value|
      ensures && s[at + 1 + i] == Text(ReadMatching(s, at).value[i].question)
              && ReadMatching(s, at).value[i].answer
                 == MatchingPool(s, at, |ReadMatching(s, at).value|)[s[at + 1 + 2 * |ReadMatching(s, at).value| + i].index]
              && ReadMatching(s, at).value[i].answer in MatchingPool(s, at, |ReadMatching(s, at).value|)
    {
      ReadMatchingPoolEntry(s, at, i, |ReadMatching(s, at).value|);
    }
  }

  // ---------------------------------------------------------------------------
  // YesNo

  /** The responses a YesNo batch accepts at `at`: a count n, n texts, then n confirmations. */
  predicate YesNoScript(s: Script, at: nat)
  {
    && at < |s| && s[at].Number?
    && var n := s[at].n;
    && at + 1 + 2 * n <= |s|
    && (forall j :: at < j <= at + n ==> s[j].Text?)
    && (forall j :: at + 1 + n <= j < at + 1 + 2 * n ==> s[j].Confirm?)
  }

  /** Reading a YesNo batch succeeds exactly on a YesNo script; any other script aborts. */
  lemma ReadYesNoSucceeds(s: Script, at: nat)
    requires at <= |s|
    ensures ReadYesNo(s, at).Done? <==> YesNoScript(s, at)
  {
    ReadQuestionsSpec(s, at);
    var q := ReadQuestions(s, at);
    if q.Done? {
      ConfirmEachSpec(q.value, 0, s, at + 1 + |q.value|);
    }
  }

  /** Entry i holds the i-th question typed and the i-th confirmation given after all the questions. */
  lemma ReadYesNoShape(s: Script, at: nat)
    requires at <= |s| && ReadYesNo(s, at).Done?
    ensures var r := ReadYesNo(s, at);
            && s[at] == Number(|r.value|)
            && forall i :: 0 <= i < |r.value| ==>
                 s[at + 1 + i] == Text(r.value[i].question) && s[at + 1 + |r.value| + i] == Confirm(r.value[i].answer)
  {
    ReadQuestionsSpec(s, at);
    var q := ReadQuestions(s, at);
    ConfirmEachSpec(q.value, 0, s, at + 1 + |q.value|);
    var c := ConfirmEach(q.value, 0, s, at + 1 + |q.value|);
    assert ReadYesNo(s, at).value == c.value;
  }

  // ---------------------------------------------------------------------------
  // Recall

  /** The responses a Recall batch accepts at `at`: a count n, n question texts, then n answer texts. */
  predicate RecallScript(s: Script, at: nat)
  {
    && at < |s| && s[at].Number?
    && var n := s[at].n;
    && at + 1 + 2 * n <= |s|
    && (forall j :: at < j <= at + n ==> s[j].Text?)
    && (forall j :: at + 1 + n <= j < at + 1 + 2 * n ==> s[j].Text?)
  }

  /** Reading a Recall batch succeeds exactly on a Recall script; any other script aborts. */
  lemma ReadRecallSucceeds(s: Script, at: nat)
    requires at <= |s|
    ensures ReadRecall(s, at).Done? <==> RecallScript(s, at)
  {
    ReadQuestionsSpec(s, at);
    var q := ReadQuestions(s, at);
    if q.Done? {
      AnswerEachSpec(q.value, 0, s, at + 1 + |q.value|);
    }
  }

  /** Entry i holds the i-th question typed and the i-th answer, typed after all the questions. */
  lemma ReadRecallShape(s: Script, at: nat)
    requires at <= |s| && ReadRecall(s, at).Done?
    ensures var r := ReadRecall(s, at);
            && s[at] == Number(|r.value|)
            && forall i :: 0 <= i < |r.value| ==>
                 s[at + 1 + i] == Text(r.value[i].question) && s[at + 1 + |r.value| + i] == Text(r.value[i].answer)
  {
    ReadQuestionsSpec(s, at);
    var q := ReadQuestions(s, at);
    AnswerEachSpec(q.value, 0, s, at + 1 + |q.value|);
    var a := AnswerEach(q.value, 0, s, at + 1 + |q.value|);
    assert ReadRecall(s, at).value == a.value;
  }

  // ---------------------------------------------------------------------------
  // Mcq

  /**
   * The responses an Mcq batch accepts at `at`: a count n, a count m, then n
   * Mcq blocks of m options each.
   */
  predicate McqScript(s: Script, at: nat)
  {
    at + 2 <= |s| && s[at].Number? && s[at + 1].Number? && McqItemsScript(s[at].n, s[at + 1].n, s, at + 2)
  }

  /** Reading an Mcq batch succeeds exactly on an Mcq script; any other script aborts. */
  lemma ReadMcqSucceeds(s: Script, at: nat)
    requires at <= |s|
    ensures ReadMcq(s, at).Done? <==> McqScript(s, at)
  {
  }

  /**
   * An Mcq batch of n questions with m options: question i was read from the
   * block that starts McqStart(at + 2, m, i) = at + 2 + i * (m + 2), so it holds the text typed there, exactly the m
   * option texts typed next, and as answer one of its own options, the one
   * the pick after them names.
   */
  lemma ReadMcqShape(s: Script, at: nat)
    requires at <= |s| && ReadMcq(s, at).Done?
    ensures var r := ReadMcq(s, at);
            && at + 2 <= |s| && s[at] == Number(|r.value|) && s[at + 1].Number?
            && forall i :: 0 <= i < |r.value| ==> McqReadFrom(r.value[i], s[at + 1].n, s, McqStart(at + 2, s[at + 1].n, i))
  {
    var r := ReadMcq(s, at);
    McqBlocksEntries(|r.value|, s[at + 1].n, s, at + 2);
  }

  /** With no options, any Mcq batch of one or more questions aborts: a pick needs something to pick. */
  lemma McqNeedsOptions(s: Script, at: nat)
    requires at + 2 <= |s| && s[at].Number? && s[at].n > 0 && s[at + 1] == Number(0)
    ensures ReadMcq(s, at).Aborted?
  {
    McqWithoutOptionsAborts(s[at].n, 0, s, at + 2);
  }

  // ---------------------------------------------------------------------------
  // RecognizeRoot

  /** The responses a RecognizeRoot batch accepts at `at`: a count n, then 3n texts. */
  predicate RootScript(s: Script, at: nat)
  {
    at < |s| && s[at].Number? && at + 1 + 3 * s[at].n <= |s| && forall j :: at < j <= at + 3 * s[at].n ==> s[j].Text?
  }

  /** Reading a RecognizeRoot batch succeeds exactly on such a script; any other script aborts. */
  lemma ReadRecognizeRootSucceeds(s: Script, at: nat)
    requires at <= |s|
    ensures ReadRecognizeRoot(s, at).Done? <==> RootScript(s, at)
  {
    if at < |s| && s[at].Number? {
      RootItemsScriptTexts(s[at].n, s, at + 1);
    }
  }

  /**
   * Entry i holds, in the order they were typed, its question, its example and
   * its answer, the answer typed separately after the example.
   */
  lemma ReadRecognizeRootShape(s: Script, at: nat)
    requires at <= |s| && ReadRecognizeRoot(s, at).Done?
    ensures var r := ReadRecognizeRoot(s, at);
            && s[at] == Number(|r.value|)
            && forall i :: 0 <= i < |r.value| ==>
                 && s[at + 1 + 3 * i] == Text(r.value[i].question)
                 && s[at + 2 + 3 * i] == Text(r.value[i].example)
                 && s[at + 3 + 3 * i] == Text(r.value[i].answer)
  {
    var r := ReadRecognizeRoot(s, at);
    var n := s[at].n;
    forall i | 0 <= i < n
      ensures && s[at + 1 + 3 * i] == Text(r.value[i].question)
              && s[at + 2 + 3 * i] == Text(r.value[i].example)
              && s[at + 3 + 3 * i] == Text(r.value[i].answer)
    {
      RootBlocksAt(n, s, at + 1, i, at + 1 + 3 * i);
    }
  }

  // ---------------------------------------------------------------------------
  // Counts of zero

  /** A count of 0 reads nothing more and yields an empty batch, for every kind. */
  lemma ZeroCountYieldsEmptyBatch(s: Script, at: nat)
    requires at < |s| && s[at] == Number(0)
    ensures ReadMatching(s, at).Done? && ReadMatching(s, at).value == [] && ReadMatching(s, at).next == at + 1
    ensures ReadYesNo(s, at).Done? && ReadYesNo(s, at).value == [] && ReadYesNo(s, at).next == at + 1
    ensures ReadRecall(s, at).Done? && ReadRecall(s, at).value == [] && ReadRecall(s, at).next == at + 1
    ensures ReadRecognizeRoot(s, at).Done? && ReadRecognizeRoot(s, at).value == [] && ReadRecognizeRoot(s, at).next == at + 1
    ensures at + 1 < |s| && s[at + 1].Number? ==>
              ReadMcq(s, at).Done? && ReadMcq(s, at).value == [] && ReadMcq(s, at).next == at + 2
  {
  }

  // ---------------------------------------------------------------------------
  // The menu loop

  /** Picking SaveAndQuit ends the session at once with no batch; nothing after the pick is read. */
  lemma SessionQuit(s: Script, at: nat)
    requires at < |s| && s[at] == Choice(QuitIndex)
    ensures ReadSession(s, at) == Done([], at + 1, [SelectPrompt(ExerciseType, MenuNames())])
  {
  }

  /**
   * Picking any other kind reads one batch of that kind, wrapped in the variant
   * the pick names, and puts it ahead of the batches the rest of the session reads.
   */
  lemma SessionStep(s: Script, at: nat)
    requires at <= |s| && ReadSession(s, at).Done? && ReadSession(s, at).value != []
    ensures at < |s| && s[at].Choice? && s[at].index < QuitIndex
    ensures var o := AllOptions()[s[at].index];
            var e := ReadKind(o, s, at + 1);
            && e.Done? && Creates(o, e.value)
            && var rest := ReadSession(s, e.next);
            && rest.Done?
            && ReadSession(s, at).value == [e.value] + rest.value
            && ReadSession(s, at).next == rest.next
  {
  }

  /** A finished session with no batch read only a SaveAndQuit pick. */
  lemma SessionEmpty(s: Script, at: nat)
    requires at <= |s| && ReadSession(s, at).Done? && ReadSession(s, at).value == []
    ensures at < |s| && s[at] == Choice(QuitIndex) && ReadSession(s, at).next == at + 1
  {
    QuitPicked(s[at].index);
  }

  /** A finished session with a batch finishes where the session after its first batch, at `mid`, does. */
  lemma SessionRest(s: Script, at: nat) returns (mid: nat)
    requires at <= |s| && ReadSession(s, at).Done? && ReadSession(s, at).value != []
    ensures at < mid <= |s| && ReadSession(s, mid).Done? && ReadSession(s, mid).next == ReadSession(s, at).next
  {
    SessionStep(s, at);
    mid := ReadKind(AllOptions()[s[at].index], s, at + 1).next;
  }

  /** A finished session read a SaveAndQuit pick last. */
  lemma {:induction false} SessionEndsOnQuit(s: Script, at: nat)
    requires at <= |s| && ReadSession(s, at).Done?
    ensures s[ReadSession(s, at).next - 1] == Choice(QuitIndex)
    decreases |s| - at
  {
    if ReadSession(s, at).value == [] {
      SessionEmpty(s, at);
    } else {
      var mid := SessionRest(s, at);
      SessionEndsOnQuit(s, mid);
    }
  }

  /** Every batch a finished session read is of one of the five kinds the menu offers. */
  lemma {:induction false} SessionAuthored(s: Script, at: nat)
    requires at <= |s| && ReadSession(s, at).Done?
    ensures var es := ReadSession(s, at).value;
            forall i :: 0 <= i < |es| ==> Authored(es[i])
    decreases |s| - at
  {
    var es := ReadSession(s, at).value;
    if es != [] {
      SessionStep(s, at);
      var e := ReadKind(AllOptions()[s[at].index], s, at + 1);
      SessionAuthored(s, e.next);
      assert es == [e.value] + ReadSession(s, e.next).value;
    }
  }

  /**
   * The converse of SessionStep: a pick of a kind, a batch of that kind that
   * reads, and a rest of the session that finishes make a finished session
   * whose batches are that batch followed by the rest's.
   */
  lemma {:induction false} SessionExtend(s: Script, at: nat, k: nat, mid: nat)
    requires at < |s| && s[at] == Choice(k) && k < QuitIndex
    requires ReadKind(AllOptions()[k], s, at + 1).Done?
    requires ReadKind(AllOptions()[k], s, at + 1).next == mid
    requires ReadSession(s, mid).Done?
    ensures ReadSession(s, at).Done?
    ensures ReadSession(s, at).value == [ReadKind(AllOptions()[k], s, at + 1).value] + ReadSession(s, mid).value
    ensures ReadSession(s, at).next == ReadSession(s, mid).next
  {
    assert AllOptions()[k] != EntryOption.SaveAndQuit;
    assert ReadSession(s, at)
        == Done([ReadKind(AllOptions()[k], s, at + 1).value] + ReadSession(s, mid).value, ReadSession(s, mid).next,
                [SelectPrompt(ExerciseType, MenuNames())] + ReadKind(AllOptions()[k], s, at + 1).asked + ReadSession(s, mid).asked);
  }
}
