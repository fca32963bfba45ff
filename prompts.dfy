/**
 * The interactive prompts, replaced by a script of responses that the
 * prompts consume one at a time. A prompt that cannot use the next response
 * (the script is exhausted, the user aborted, the response is of another
 * kind, or a choice is outside the offered list) fails; every prompt result
 * is unwrapped, so a failed prompt ends the whole run as `Aborted`.
 */
module Prompts {

  /** One response the user gives to one prompt. */
  datatype Response =
    | Number(n: nat)        // a count typed at a number prompt
    | Text(text: string)    // free text
    | Choice(index: nat)    // the position of the item picked in a select list
    | Confirm(yes: bool)    // a yes/no confirmation
    | Abort                 // the user cancels the prompt

  type Script = seq<Response>

  /** What a prompt says, as structure: its 1-based number, its option letter, the echoed question. */
  datatype Message =
    | HowManyQuestions
    | HowManyOptions
    | Numbered(k: nat)                                              // "k. "
    | Lettered(position: nat)                                       // "(c)", c the option letter of that position
    | ExampleLine                                                   // "Example"
    | NumberedQuestion(k: nat, question: string)                    // "k. question"
    | NumberedWithExample(k: nat, question: string, example: string) // "k. question, Example: example"
    | ExerciseType

  /**
   * A prompt that was shown: its kind, its message and, for a select list,
   * the line its formatter echoes for each position once that position is
   * submitted (the list itself displays the offered items as they are).
   */
  datatype Prompt =
    | NumberPrompt(message: Message)
    | TextPrompt(message: Message)
    | ConfirmPrompt(message: Message)
    | SelectPrompt(message: Message, echoes: seq<string>)

  /**
   * The result of reading from position `at` of a script: a value, the position
   * of the first response not read, and the prompts shown; or an abort.
   */
  datatype Outcome<T> = Done(value: T, next: nat, asked: seq<Prompt>) | Aborted

  /** A prompt for a count. */
  function AskNumber(m: Message, s: Script, at: nat): Outcome<nat>
  {
    if at < |s| && s[at].Number? then Done(s[at].n, at + 1, [NumberPrompt(m)]) else Aborted
  }

  /** A prompt for a line of free text. */
  function AskText(m: Message, s: Script, at: nat): Outcome<string>
  {
    if at < |s| && s[at].Text? then Done(s[at].text, at + 1, [TextPrompt(m)]) else Aborted
  }

  /** A yes/no confirmation prompt. */
  function AskConfirm(m: Message, s: Script, at: nat): Outcome<bool>
  {
    if at < |s| && s[at].Confirm? then Done(s[at].yes, at + 1, [ConfirmPrompt(m)]) else Aborted
  }

  /**
   * A select list over `offered`, whose formatter echoes the item at position
   * i as `echoes[i]` once it is submitted.
   */
  function AskSelect<T>(m: Message, offered: seq<T>, echoes: seq<string>, s: Script, at: nat): (r: Outcome<T>)
    ensures r.Done? ==> r.next == at + 1
  {
    if at < |s| && s[at].Choice? && s[at].index < |offered|
    then Done(offered[s[at].index], at + 1, [SelectPrompt(m, echoes)])
    else Aborted
  }

  /** A number prompt succeeds exactly on a typed count, and returns that count. */
  lemma AskNumberSpec(m: Message, s: Script, at: nat)
    ensures var r := AskNumber(m, s, at);
            && (r.Done? <==> at < |s| && s[at].Number?)
            && (r.Done? ==> s[at] == Number(r.value) && r.next == at + 1 && r.asked == [NumberPrompt(m)])
  {
  }

  /** A free-text prompt succeeds exactly on a typed text, and returns that text. */
  lemma AskTextSpec(m: Message, s: Script, at: nat)
    ensures var r := AskText(m, s, at);
            && (r.Done? <==> at < |s| && s[at].Text?)
            && (r.Done? ==> s[at] == Text(r.value) && r.next == at + 1 && r.asked == [TextPrompt(m)])
  {
  }

  /** A yes/no prompt succeeds exactly on a confirmation, and returns its answer. */
  lemma AskConfirmSpec(m: Message, s: Script, at: nat)
    ensures var r := AskConfirm(m, s, at);
            && (r.Done? <==> at < |s| && s[at].Confirm?)
            && (r.Done? ==> s[at] == Confirm(r.value) && r.next == at + 1 && r.asked == [ConfirmPrompt(m)])
  {
  }

  /**
   * A select list succeeds exactly on a choice of an offered position, and
   * returns the item offered there; with nothing offered it always fails.
   */
  lemma AskSelectSpec<T>(m: Message, offered: seq<T>, echoes: seq<string>, s: Script, at: nat)
    ensures var r := AskSelect(m, offered, echoes, s, at);
            && (r.Done? <==> at < |s| && s[at].Choice? && s[at].index < |offered|)
            && (r.Done? ==> r.value == offered[s[at].index] && r.next == at + 1 && r.asked == [SelectPrompt(m, echoes)])
            && (|offered| == 0 ==> r.Aborted?)
  {
  }

  /** The text payloads of s[from..to], position by position (empty text where a response is not text). */
  function TextsOf(s: Script, from: nat, to: nat): (ts: seq<string>)
    requires from <= to <= |s|
    ensures |ts| == to - from
    ensures forall i :: 0 <= i < to - from && s[from + i].Text? ==> s[from + i] == Text(ts[i])
  {
    seq(to - from, i requires 0 <= i < to - from => if s[from + i].Text? then s[from + i].text else "")
  }

  /** Asks one free-text prompt per message of ms[k..], in order. */
  function ReadTexts(ms: seq<Message>, k: nat, s: Script, at: nat): (r: Outcome<seq<string>>)
    requires k <= |ms| && at <= |s|
    ensures r.Done? ==> |r.value| == |ms| - k && r.next == at + |ms| - k <= |s|
    decreases |ms| - k
  {
    if k == |ms| then Done([], at, [])
    else
      match AskText(ms[k], s, at)
      case Aborted => Aborted
      case Done(t, at1, a1) =>
        match ReadTexts(ms, k + 1, s, at1)
        case Aborted => Aborted
        case Done(ts, at2, a2) => Done([t] + ts, at2, a1 + a2)
  }

  /**
   * Reading texts for ms[k..] succeeds exactly when the next |ms| - k responses
   * are all text; it then returns those texts in the order they were entered,
   * and shows one text prompt per message, in order.
   */
  lemma {:induction false} ReadTextsSpec(ms: seq<Message>, k: nat, s: Script, at: nat)
    requires k <= |ms| && at <= |s|
    ensures var r := ReadTexts(ms, k, s, at);
            && (r.Done? <==> at + |ms| - k <= |s| && forall j :: at <= j < at + |ms| - k ==> s[j].Text?)
            && (r.Done? ==>
                  && |r.value| == |ms| - k
                  && (forall i :: 0 <= i < |ms| - k ==> s[at + i] == Text(r.value[i]))
                  && |r.asked| == |ms| - k
                  && (forall i :: 0 <= i < |ms| - k ==> r.asked[i] == TextPrompt(ms[k + i])))
    decreases |ms| - k
  {
    if k < |ms| && at < |s| && s[at].Text? {
      ReadTextsSpec(ms, k + 1, s, at + 1);
      var r, r1 := ReadTexts(ms, k, s, at), ReadTexts(ms, k + 1, s, at + 1);
      if r1.Done? {
        assert r.value == [s[at].text] + r1.value;
        assert r.asked == [TextPrompt(ms[k])] + r1.asked;
        forall i | 0 <= i < |ms| - k
          ensures s[at + i] == Text(r.value[i]) && r.asked[i] == TextPrompt(ms[k + i])
        {
          if i > 0 {
            assert r.value[i] == r1.value[i - 1];
            assert r.asked[i] == r1.asked[i - 1];
          }
        }
      }
    }
  }

  /** A sequence that starts with x has x at its head and the rest after it. */
  lemma HeadAndTail<T>(x: T, xs: seq<T>)
    ensures ([x] + xs)[0] == x && ([x] + xs)[1..] == xs && [x] + xs != []
  {
  }

  /** Position i of a + b, within a, is position i of a. */
  lemma ConcatLeft<T>(a: seq<T>, b: seq<T>, i: nat)
    requires i < |a|
    ensures (a + b)[i] == a[i]
  {
  }

  /** Position i = |a| + j of a + b is position j of b. */
  lemma ConcatRight<T>(a: seq<T>, b: seq<T>, j: nat, i: nat)
    requires j < |b| && i == |a| + j
    ensures (a + b)[i] == b[j]
  {
  }
}
