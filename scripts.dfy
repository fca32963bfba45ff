/**
 * The way back from records to responses: for every batch the menu can
 * produce, the script that authors it. Each reader, given that script
 * anywhere inside a longer one, reads back exactly the batch, so every such
 * batch can be authored, and the readers lose nothing on the way.
 */
module AuthoringScripts {
  import opened Exercises
  import opened Prompts
  import opened Entry
  import opened EntryProperties
  import opened Program

  /** The script `s` holds `enc` starting at position `at`. */
  predicate Embeds(s: Script, at: nat, enc: Script)
  {
    at + |enc| <= |s| && s[at..at + |enc|] == enc
  }

  /** Holding `enc` at `at` means that each response of `enc` sits at its offset from `at`. */
  lemma {:induction false} EmbedsAt(s: Script, at: nat, enc: Script)
    ensures Embeds(s, at, enc) <==> at + |enc| <= |s| && forall j :: 0 <= j < |enc| ==> s[at + j] == enc[j]
  {
    if at + |enc| <= |s| && forall j :: 0 <= j < |enc| ==> s[at + j] == enc[j] {
      assert forall j :: 0 <= j < |enc| ==> s[at..at + |enc|][j] == enc[j];
    }
    if Embeds(s, at, enc) {
      forall j | 0 <= j < |enc|
        ensures s[at + j] == enc[j]
      {
        assert s[at..at + |enc|][j] == enc[j];
      }
    }
  }

  /** A script that holds a concatenation holds each part where it starts: at `at` and at `mid`. */
  lemma {:induction false} EmbedsAppend(s: Script, at: nat, a: Script, b: Script, mid: nat)
    requires Embeds(s, at, a + b) && mid == at + |a|
    ensures Embeds(s, at, a) && Embeds(s, mid, b)
  {
    EmbedsAt(s, at, a + b);
    EmbedsAt(s, at, a);
    EmbedsAt(s, at + |a|, b);
    forall j | 0 <= j < |a|
      ensures s[at + j] == a[j]
    {
      assert (a + b)[j] == a[j];
    }
    forall j | 0 <= j < |b|
      ensures s[at + |a| + j] == b[j]
    {
      assert s[at + (|a| + j)] == (a + b)[|a| + j];
    }
  }

  /** A script that holds `whole`, made of three parts one after the other, holds each part where it starts: at `at`, `mid` and `end`. */
  lemma {:induction false} EmbedsAppend3(s: Script, at: nat, whole: Script, a: Script, b: Script, c: Script, mid: nat, end: nat)
    requires Embeds(s, at, whole) && whole == a + b + c && mid == at + |a| && end == mid + |b|
    ensures Embeds(s, at, a) && Embeds(s, mid, b) && Embeds(s, end, c)
  {
    EmbedsAppend(s, at, a + b, c, end);
    EmbedsAppend(s, at, a, b, mid);
  }

  /** A script that holds a non-empty `enc` at `at` has its first response there. */
  lemma {:induction false} EmbedsHead(s: Script, at: nat, enc: Script)
    requires Embeds(s, at, enc) && enc != []
    ensures at < |s| && s[at] == enc[0]
  {
    EmbedsAt(s, at, enc);
    assert s[at + 0] == enc[0];
  }

  // ---------------------------------------------------------------------------
  // Sequences

  /** The pieces of xss joined end to end. */
  function Flatten<T>(xss: seq<seq<T>>): seq<T>
  {
    if xss == [] then [] else xss[0] + Flatten(xss[1..])
  }

  /** Pieces of width w joined are w elements longer than the rest joined, which are all of width w too. */
  lemma {:induction false} FlattenTail<T>(xss: seq<seq<T>>, w: nat)
    requires xss != [] && forall k :: 0 <= k < |xss| ==> |xss[k]| == w
    ensures forall k :: 0 <= k < |xss| - 1 ==> |xss[1..][k]| == w
    ensures |Flatten(xss)| == w + |Flatten(xss[1..])|
  {
    assert forall k :: 0 <= k < |xss| - 1 ==> xss[1..][k] == xss[k + 1];
  }

  /** The first piece opens the joined sequence. */
  lemma {:induction false} FlattenFirst<T>(xss: seq<seq<T>>, j: nat)
    requires xss != [] && j < |xss[0]|
    ensures j < |Flatten(xss)| && Flatten(xss)[j] == xss[0][j]
  {
  }

  /** Past the first piece, of width w, the joined sequence continues with the rest joined: position n = w + k holds its k-th element. */
  lemma {:induction false} FlattenShift<T>(xss: seq<seq<T>>, w: nat, k: nat, n: nat)
    requires xss != [] && |xss[0]| == w && k < |Flatten(xss[1..])| && n == w + k
    ensures n < |Flatten(xss)| && Flatten(xss)[n] == Flatten(xss[1..])[k]
  {
  }

  /** Joining n pieces of width w gives n * w elements. */
  lemma {:induction false} FlattenLength<T>(xss: seq<seq<T>>, w: nat)
    requires forall k :: 0 <= k < |xss| ==> |xss[k]| == w
    ensures |Flatten(xss)| == |xss| * w
    decreases |xss|
  {
    if xss != [] {
      FlattenTail(xss, w);
      FlattenLength(xss[1..], w);
      assert |xss| * w == w + (|xss| - 1) * w;
    }
  }

  /** Among pieces of width w, element j of piece i sits at offset off = i * w + j of the joined sequence. */
  lemma {:induction false} FlattenIndex<T>(xss: seq<seq<T>>, w: nat, i: nat, j: nat, off: nat)
    requires forall k :: 0 <= k < |xss| ==> |xss[k]| == w
    requires i < |xss| && j < w && off == i * w
    ensures off + j < |Flatten(xss)| && Flatten(xss)[off + j] == xss[i][j]
    decreases i
  {
    if i == 0 {
      FlattenFirst(xss, j);
    } else {
      FlattenTail(xss, w);
      assert off - w == (i - 1) * w;
      FlattenIndex(xss[1..], w, i - 1, j, off - w);
      FlattenShift(xss, w, off - w + j, off + j);
      assert xss[1..][i - 1] == xss[i];
    }
  }

  /** A script holding pieces of width w joined end to end holds piece i at offset off = i * w past their start. */
  lemma {:induction false} FlattenEmbeds(s: Script, at: nat, xss: seq<Script>, w: nat, i: nat, off: nat)
    requires forall k :: 0 <= k < |xss| ==> |xss[k]| == w
    requires Embeds(s, at, Flatten(xss)) && i < |xss| && off == i * w
    ensures Embeds(s, at + off, xss[i])
  {
    EmbedsAt(s, at, Flatten(xss));
    EmbedsAt(s, at + off, xss[i]);
    if w > 0 {
      FlattenIndex(xss, w, i, w - 1, off);
    }
    forall j | 0 <= j < w
      ensures s[at + off + j] == xss[i][j]
    {
      FlattenIndex(xss, w, i, j, off);
      assert s[at + (off + j)] == Flatten(xss)[off + j];
    }
  }

  /** Two sequences of the same length with the same element at every index are equal. */
  lemma {:induction false} SameElements<T>(xs: seq<T>, ys: seq<T>)
    requires |xs| == |ys| && forall i :: 0 <= i < |xs| ==> xs[i] == ys[i]
    ensures xs == ys
  {
  }

  /** A non-empty sequence is its first element followed by its tail. */
  lemma {:induction false} HeadTail<T>(xs: seq<T>)
    requires xs != []
    ensures xs == [xs[0]] + xs[1..]
  {
  }

  // ---------------------------------------------------------------------------
  // Recall

  /** The responses that author a Recall batch: the count, every question, then every answer. */
  function RecallScriptOf(rs: seq<Recall>): (enc: Script)
    ensures |enc| == 1 + 2 * |rs| && enc[0] == Number(|rs|)
  {
    var n := |rs|;
    seq(1 + 2 * n, j requires 0 <= j < 1 + 2 * n =>
      if j == 0 then Number(n)
      else if j <= n then Text(rs[j - 1].question)
      else Text(rs[j - 1 - n].answer))
  }

  /** The script that authors a Recall batch, wherever it sits, is a Recall script holding each field in its place. */
  lemma {:induction false} RecallScriptEmbedded(rs: seq<Recall>, s: Script, at: nat)
    requires Embeds(s, at, RecallScriptOf(rs))
    ensures RecallScript(s, at) && s[at] == Number(|rs|)
    ensures forall i :: 0 <= i < |rs| ==> s[at + 1 + i] == Text(rs[i].question)
    ensures forall i :: 0 <= i < |rs| ==> s[at + 1 + |rs| + i] == Text(rs[i].answer)
  {
    var n, enc := |rs|, RecallScriptOf(rs);
    EmbedsAt(s, at, enc);
    assert s[at + 0] == enc[0];
    forall i | 0 <= i < n
      ensures s[at + 1 + i] == Text(rs[i].question)
    {
      RecallScriptOfAt(rs, 1 + i);
      assert s[at + (1 + i)] == enc[1 + i];
    }
    forall i | 0 <= i < n
      ensures s[at + 1 + n + i] == Text(rs[i].answer)
    {
      RecallScriptOfAt(rs, 1 + n + i);
      assert s[at + (1 + n + i)] == enc[1 + n + i];
    }
    forall j | at < j <= at + n
      ensures s[j].Text?
    {
      assert s[at + 1 + (j - at - 1)] == Text(rs[j - at - 1].question);
    }
    forall j | at + 1 + n <= j < at + 1 + 2 * n
      ensures s[j].Text?
    {
      assert s[at + 1 + n + (j - at - 1 - n)] == Text(rs[j - at - 1 - n].answer);
    }
  }

  /** Response j of the script that authors a Recall batch: the count, then the questions, then the answers. */
  lemma RecallScriptOfAt(rs: seq<Recall>, j: nat)
    requires j < 1 + 2 * |rs|
    ensures 0 < j <= |rs| ==> RecallScriptOf(rs)[j] == Text(rs[j - 1].question)
    ensures |rs| < j ==> RecallScriptOf(rs)[j] == Text(rs[j - 1 - |rs|].answer)
  {
  }

  /** The script that authors a Recall batch, wherever it sits, is read back entry by entry. */
  lemma {:induction false} RecallEntriesRead(rs: seq<Recall>, s: Script, at: nat)
    requires Embeds(s, at, RecallScriptOf(rs))
    ensures ReadRecall(s, at).Done? && |ReadRecall(s, at).value| == |rs|
    ensures forall i :: 0 <= i < |rs| ==> ReadRecall(s, at).value[i] == rs[i]
  {
    RecallScriptEmbedded(rs, s, at);
    ReadRecallSucceeds(s, at);
    ReadRecallShape(s, at);
  }

  /** Every Recall batch is read back from the script that authors it. */
  lemma {:induction false} RecallRoundTrip(rs: seq<Recall>, s: Script, at: nat)
    requires Embeds(s, at, RecallScriptOf(rs))
    ensures var r := ReadRecall(s, at);
            r.Done? && r.value == rs && r.next == at + |RecallScriptOf(rs)|
  {
    RecallEntriesRead(rs, s, at);
    SameElements(ReadRecall(s, at).value, rs);
  }

  // ---------------------------------------------------------------------------
  // YesNo

  /** The responses that author a YesNo batch: the count, every question, then every confirmation. */
  function YesNoScriptOf(ys: seq<YesNo>): (enc: Script)
    ensures |enc| == 1 + 2 * |ys| && enc[0] == Number(|ys|)
  {
    var n := |ys|;
    seq(1 + 2 * n, j requires 0 <= j < 1 + 2 * n =>
      if j == 0 then Number(n)
      else if j <= n then Text(ys[j - 1].question)
      else Confirm(ys[j - 1 - n].answer))
  }

  /** The script that authors a YesNo batch, wherever it sits, is a YesNo script holding each field in its place. */
  lemma {:induction false} YesNoScriptEmbedded(ys: seq<YesNo>, s: Script, at: nat)
    requires Embeds(s, at, YesNoScriptOf(ys))
    ensures YesNoScript(s, at) && s[at] == Number(|ys|)
    ensures forall i :: 0 <= i < |ys| ==> s[at + 1 + i] == Text(ys[i].question)
    ensures forall i :: 0 <= i < |ys| ==> s[at + 1 + |ys| + i] == Confirm(ys[i].answer)
  {
    var n, enc := |ys|, YesNoScriptOf(ys);
    EmbedsAt(s, at, enc);
    assert s[at + 0] == enc[0];
    forall j | at < j <= at + n
      ensures s[j].Text?
    {
      assert s[at + (j - at)] == enc[j - at];
    }
    forall j | at + 1 + n <= j < at + 1 + 2 * n
      ensures s[j].Confirm?
    {
      assert s[at + (j - at)] == enc[j - at];
    }
    forall i | 0 <= i < n
      ensures s[at + 1 + i] == Text(ys[i].question)
    {
      assert s[at + (1 + i)] == enc[1 + i];
    }
    forall i | 0 <= i < n
      ensures s[at + 1 + n + i] == Confirm(ys[i].answer)
    {
      assert s[at + (1 + n + i)] == enc[1 + n + i];
    }
  }

  /** The script that authors a YesNo batch, wherever it sits, is read back entry by entry. */
  lemma {:induction false} YesNoEntriesRead(ys: seq<YesNo>, s: Script, at: nat)
    requires Embeds(s, at, YesNoScriptOf(ys))
    ensures ReadYesNo(s, at).Done? && |ReadYesNo(s, at).value| == |ys|
    ensures forall i :: 0 <= i < |ys| ==> ReadYesNo(s, at).value[i] == ys[i]
  {
    YesNoScriptEmbedded(ys, s, at);
    ReadYesNoSucceeds(s, at);
    ReadYesNoShape(s, at);
  }

  /** Every YesNo batch is read back from the script that authors it. */
  lemma {:induction false} YesNoRoundTrip(ys: seq<YesNo>, s: Script, at: nat)
    requires Embeds(s, at, YesNoScriptOf(ys))
    ensures var r := ReadYesNo(s, at);
            r.Done? && r.value == ys && r.next == at + |YesNoScriptOf(ys)|
  {
    YesNoEntriesRead(ys, s, at);
    SameElements(ReadYesNo(s, at).value, ys);
  }

  // ---------------------------------------------------------------------------
  // RecognizeRoot

  /** The responses that author a RecognizeRoot batch: the count, then question, example and answer of each entry. */
  function RootScriptOf(rs: seq<RecognizeRoot>): (enc: Script)
    ensures |enc| == 1 + 3 * |rs| && enc[0] == Number(|rs|)
    ensures forall i :: 0 <= i < |rs| ==>
              && enc[1 + 3 * i] == Text(rs[i].question)
              && enc[2 + 3 * i] == Text(rs[i].example)
              && enc[3 + 3 * i] == Text(rs[i].answer)
  {
    var n := |rs|;
    seq(1 + 3 * n, j requires 0 <= j < 1 + 3 * n =>
      if j == 0 then Number(n)
      else
        var i, field := (j - 1) / 3, (j - 1) % 3;
        if field == 0 then Text(rs[i].question)
        else if field == 1 then Text(rs[i].example)
        else Text(rs[i].answer))
  }

  /** The script that authors a RecognizeRoot batch, wherever it sits, is a RecognizeRoot script holding each field in its place. */
  lemma {:induction false} RootScriptEmbedded(rs: seq<RecognizeRoot>, s: Script, at: nat)
    requires Embeds(s, at, RootScriptOf(rs))
    ensures RootScript(s, at) && s[at] == Number(|rs|)
    ensures forall i :: 0 <= i < |rs| ==>
              && s[at + 1 + 3 * i] == Text(rs[i].question)
              && s[at + 2 + 3 * i] == Text(rs[i].example)
              && s[at + 3 + 3 * i] == Text(rs[i].answer)
  {
    var n, enc := |rs|, RootScriptOf(rs);
    EmbedsAt(s, at, enc);
    assert s[at + 0] == enc[0];
    forall i | 0 <= i < n
      ensures && s[at + 1 + 3 * i] == Text(rs[i].question)
              && s[at + 2 + 3 * i] == Text(rs[i].example)
              && s[at + 3 + 3 * i] == Text(rs[i].answer)
    {
      assert s[at + (1 + 3 * i)] == enc[1 + 3 * i];
      assert s[at + (2 + 3 * i)] == enc[2 + 3 * i];
      assert s[at + (3 + 3 * i)] == enc[3 + 3 * i];
    }
    forall j | at < j <= at + 3 * n
      ensures s[j].Text?
    {
      assert s[at + (j - at)] == enc[j - at];
    }
  }

  /** The script that authors a RecognizeRoot batch, wherever it sits, is read back entry by entry. */
  lemma {:induction false} RootEntriesRead(rs: seq<RecognizeRoot>, s: Script, at: nat)
    requires Embeds(s, at, RootScriptOf(rs))
    ensures ReadRecognizeRoot(s, at).Done? && |ReadRecognizeRoot(s, at).value| == |rs|
    ensures forall i :: 0 <= i < |rs| ==> ReadRecognizeRoot(s, at).value[i] == rs[i]
  {
    RootScriptEmbedded(rs, s, at);
    ReadRecognizeRootSucceeds(s, at);
    ReadRecognizeRootShape(s, at);
  }

  /** Every RecognizeRoot batch is read back from the script that authors it. */
  lemma {:induction false} RootRoundTrip(rs: seq<RecognizeRoot>, s: Script, at: nat)
    requires Embeds(s, at, RootScriptOf(rs))
    ensures var r := ReadRecognizeRoot(s, at);
            r.Done? && r.value == rs && r.next == at + |RootScriptOf(rs)|
  {
    RootEntriesRead(rs, s, at);
    SameElements(ReadRecognizeRoot(s, at).value, rs);
  }

  // ---------------------------------------------------------------------------
  // Matching

  /** The first position of `x` in `xs`: the choice that picks `x` from a list offering `xs`. */
  function IndexOf(xs: seq<string>, x: string): (k: nat)
    requires x in xs
    ensures k < |xs| && xs[k] == x
  {
    if xs[0] == x then 0 else 1 + IndexOf(xs[1..], x)
  }

  /**
   * The responses that author a Matching batch over the option pool `pool`:
   * the count, every question, every pool option, then for each entry the
   * choice of its answer in the pool.
   */
  function MatchingScriptOf(ms: seq<Matching>, pool: seq<string>): (enc: Script)
    requires |pool| == |ms| && forall i :: 0 <= i < |ms| ==> ms[i].answer in pool
    ensures |enc| == 1 + 3 * |ms| && enc[0] == Number(|ms|)
  {
    var n := |ms|;
    seq(1 + 3 * n, j requires 0 <= j < 1 + 3 * n =>
      if j == 0 then Number(n)
      else if j <= n then Text(ms[j - 1].question)
      else if j <= 2 * n then Text(pool[j - 1 - n])
      else Choice(IndexOf(pool, ms[j - 1 - 2 * n].answer)))
  }

  /** The script that authors a Matching batch, wherever it sits, holds the count and then each question in place. */
  lemma {:induction false} MatchingQuestionsEmbedded(ms: seq<Matching>, pool: seq<string>, s: Script, at: nat)
    requires |pool| == |ms| && forall i :: 0 <= i < |ms| ==> ms[i].answer in pool
    requires Embeds(s, at, MatchingScriptOf(ms, pool))
    ensures s[at] == Number(|ms|)
    ensures forall i :: 0 <= i < |ms| ==> s[at + 1 + i] == Text(ms[i].question)
  {
    var enc := MatchingScriptOf(ms, pool);
    EmbedsAt(s, at, enc);
    assert s[at + 0] == enc[0];
    forall i | 0 <= i < |ms|
      ensures s[at + 1 + i] == Text(ms[i].question)
    {
      assert s[at + (1 + i)] == enc[1 + i];
    }
  }

  /** The script that authors a Matching batch, wherever it sits, holds each pool option in place. */
  lemma {:induction false} MatchingPoolEmbedded(ms: seq<Matching>, pool: seq<string>, s: Script, at: nat)
    requires |pool| == |ms| && forall i :: 0 <= i < |ms| ==> ms[i].answer in pool
    requires Embeds(s, at, MatchingScriptOf(ms, pool))
    ensures forall i :: 0 <= i < |ms| ==> s[at + 1 + |ms| + i] == Text(pool[i])
  {
    var n, enc := |ms|, MatchingScriptOf(ms, pool);
    EmbedsAt(s, at, enc);
    forall i | 0 <= i < n
      ensures s[at + 1 + n + i] == Text(pool[i])
    {
      assert s[at + (1 + n + i)] == enc[1 + n + i];
    }
  }

  /** The script that authors a Matching batch, wherever it sits, holds each entry's choice of its answer in place. */
  lemma {:induction false} MatchingChoicesEmbedded(ms: seq<Matching>, pool: seq<string>, s: Script, at: nat)
    requires |pool| == |ms| && forall i :: 0 <= i < |ms| ==> ms[i].answer in pool
    requires Embeds(s, at, MatchingScriptOf(ms, pool))
    ensures forall i :: 0 <= i < |ms| ==> s[at + 1 + 2 * |ms| + i] == Choice(IndexOf(pool, ms[i].answer))
  {
    var n, enc := |ms|, MatchingScriptOf(ms, pool);
    EmbedsAt(s, at, enc);
    forall i | 0 <= i < n
      ensures s[at + 1 + 2 * n + i] == Choice(IndexOf(pool, ms[i].answer))
    {
      assert s[at + (1 + 2 * n + i)] == enc[1 + 2 * n + i];
    }
  }

  /** The script that authors a Matching batch, wherever it sits, is a Matching script. */
  lemma {:induction false} MatchingScriptShape(ms: seq<Matching>, pool: seq<string>, s: Script, at: nat)
    requires |pool| == |ms| <= MaxLabelIndex && forall i :: 0 <= i < |ms| ==> ms[i].answer in pool
    requires Embeds(s, at, MatchingScriptOf(ms, pool))
    ensures MatchingScript(s, at) && s[at].n == |ms|
  {
    MatchingQuestionsEmbedded(ms, pool, s, at);
    MatchingPoolEmbedded(ms, pool, s, at);
    MatchingChoicesEmbedded(ms, pool, s, at);
    forall j | at < j <= at + |ms|
      ensures s[j].Text?
    {
      assert s[at + 1 + (j - at - 1)] == Text(ms[j - at - 1].question);
    }
    forall j | at + 1 + |ms| <= j < at + 1 + 2 * |ms|
      ensures s[j].Text?
    {
      assert s[at + 1 + |ms| + (j - at - 1 - |ms|)] == Text(pool[j - at - 1 - |ms|]);
    }
    forall j | at + 1 + 2 * |ms| <= j < at + 1 + 3 * |ms|
      ensures s[j].Choice? && s[j].index < |ms|
    {
      assert s[at + 1 + 2 * |ms| + (j - at - 1 - 2 * |ms|)]
          == Choice(IndexOf(pool, ms[j - at - 1 - 2 * |ms|].answer));
    }
  }

  /** The script that authors a Matching batch, wherever it sits, is a Matching script whose pool is `pool`. */
  lemma {:induction false} MatchingScriptEmbedded(ms: seq<Matching>, pool: seq<string>, s: Script, at: nat)
    requires |pool| == |ms| <= MaxLabelIndex && forall i :: 0 <= i < |ms| ==> ms[i].answer in pool
    requires Embeds(s, at, MatchingScriptOf(ms, pool))
    ensures MatchingScript(s, at) && MatchingPool(s, at, |ms|) == pool
  {
    MatchingScriptShape(ms, pool, s, at);
    MatchingPoolEmbedded(ms, pool, s, at);
    forall i | 0 <= i < |ms|
      ensures MatchingPool(s, at, |ms|)[i] == pool[i]
    {
      assert s[at + 1 + |ms| + i] == Text(pool[i]);
    }
    SameElements(MatchingPool(s, at, |ms|), pool);
  }

  /** The script that authors a Matching batch, wherever it sits, is read back entry by entry. */
  lemma {:induction false} MatchingEntriesRead(ms: seq<Matching>, pool: seq<string>, s: Script, at: nat)
    requires |pool| == |ms| <= MaxLabelIndex && forall i :: 0 <= i < |ms| ==> ms[i].answer in pool
    requires Embeds(s, at, MatchingScriptOf(ms, pool))
    ensures ReadMatching(s, at).Done? && |ReadMatching(s, at).value| == |ms|
    ensures forall i :: 0 <= i < |ms| ==> ReadMatching(s, at).value[i] == ms[i]
  {
    MatchingQuestionsEmbedded(ms, pool, s, at);
    MatchingChoicesEmbedded(ms, pool, s, at);
    MatchingScriptEmbedded(ms, pool, s, at);
    ReadMatchingSucceeds(s, at);
    ReadMatchingShape(s, at);
    forall i | 0 <= i < |ms|
      ensures ReadMatching(s, at).value[i] == ms[i]
    {
      assert s[at + 1 + 2 * |ms| + i] == Choice(IndexOf(pool, ms[i].answer));
    }
  }

  /**
   * Every Matching batch of at most MaxLabelIndex entries is read back from
   * the script that authors it over any pool of as many options that holds
   * all its answers.
   */
  lemma {:induction false} MatchingRoundTrip(ms: seq<Matching>, pool: seq<string>, s: Script, at: nat)
    requires |pool| == |ms| <= MaxLabelIndex && forall i :: 0 <= i < |ms| ==> ms[i].answer in pool
    requires Embeds(s, at, MatchingScriptOf(ms, pool))
    ensures var r := ReadMatching(s, at);
            r.Done? && r.value == ms && r.next == at + |MatchingScriptOf(ms, pool)|
  {
    MatchingEntriesRead(ms, pool, s, at);
    SameElements(ReadMatching(s, at).value, ms);
  }

  // ---------------------------------------------------------------------------
  // Mcq

  /** A batch of Mcq questions with m options each, every answer among its own options. */
  predicate McqAuthorable(qs: seq<Mcq>, m: nat)
  {
    && m <= MaxLabelIndex
    && forall i :: 0 <= i < |qs| ==> |qs[i].options| == m && qs[i].answer in qs[i].options
  }

  /** The responses that author one Mcq question: its text, its options, then the choice of its answer. */
  function McqBlockScriptOf(q: Mcq): (enc: Script)
    requires q.answer in q.options
    ensures |enc| == |q.options| + 2 && enc[0] == Text(q.question)
    ensures forall j :: 0 <= j < |q.options| ==> enc[1 + j] == Text(q.options[j])
    ensures enc[|q.options| + 1] == Choice(IndexOf(q.options, q.answer))
  {
    var m := |q.options|;
    seq(m + 2, j requires 0 <= j < m + 2 =>
      if j == 0 then Text(q.question)
      else if j <= m then Text(q.options[j - 1])
      else Choice(IndexOf(q.options, q.answer)))
  }

  /** The script of each question of a run, in order. */
  function McqBlockScripts(qs: seq<Mcq>): (bs: seq<Script>)
    requires forall i :: 0 <= i < |qs| ==> qs[i].answer in qs[i].options
    ensures |bs| == |qs| && forall i :: 0 <= i < |qs| ==> bs[i] == McqBlockScriptOf(qs[i])
  {
    seq(|qs|, i requires 0 <= i < |qs| && qs[i].answer in qs[i].options => McqBlockScriptOf(qs[i]))
  }

  /** The responses that author a run of Mcq questions, one block after the other. */
  function McqBlocksScriptOf(qs: seq<Mcq>): Script
    requires forall i :: 0 <= i < |qs| ==> qs[i].answer in qs[i].options
  {
    Flatten(McqBlockScripts(qs))
  }

  /** The responses that author an Mcq batch with m options per question: both counts, then the questions. */
  function McqScriptOf(qs: seq<Mcq>, m: nat): Script
    requires McqAuthorable(qs, m)
  {
    [Number(|qs|), Number(m)] + McqBlocksScriptOf(qs)
  }

  /** The script that authors one Mcq question, wherever it sits, is an Mcq block standing for that question. */
  lemma {:induction false} McqBlockEmbedded(q: Mcq, m: nat, s: Script, at: nat)
    requires |q.options| == m <= MaxLabelIndex && q.answer in q.options
    requires Embeds(s, at, McqBlockScriptOf(q))
    ensures McqBlock(m, s, at) && McqBlockValue(m, s, at) == q
  {
    var enc := McqBlockScriptOf(q);
    EmbedsAt(s, at, enc);
    assert s[at + 0] == enc[0];
    assert s[at + (m + 1)] == enc[m + 1];
    forall j | 0 <= j < m
      ensures s[at + 1 + j] == Text(q.options[j])
    {
      assert s[at + (1 + j)] == enc[1 + j];
    }
    forall j | at <= j <= at + m
      ensures s[j].Text?
    {
      if j > at {
        assert s[at + 1 + (j - at - 1)] == Text(q.options[j - at - 1]);
      }
    }
    var options := TextsOf(s, at + 1, at + 1 + m);
    forall j | 0 <= j < m
      ensures options[j] == q.options[j]
    {
      assert s[at + 1 + j] == Text(q.options[j]);
    }
    assert options == q.options;
  }

  /** Every block of a batch with m options per question is m + 2 responses long. */
  lemma {:induction false} McqBlockScriptsWidth(qs: seq<Mcq>, m: nat)
    requires McqAuthorable(qs, m)
    ensures forall k :: 0 <= k < |McqBlockScripts(qs)| ==> |McqBlockScripts(qs)[k]| == m + 2
  {
  }

  /** The script that authors a run of Mcq questions with m options each, placed at `at`, ends where the run of blocks ends. */
  lemma {:induction false} McqBlocksLength(qs: seq<Mcq>, m: nat, at: nat)
    requires McqAuthorable(qs, m)
    ensures at + |McqBlocksScriptOf(qs)| == McqStart(at, m, |qs|)
  {
    McqBlockScriptsWidth(qs, m);
    FlattenLength(McqBlockScripts(qs), m + 2);
  }

  /** Within the script that authors a run of Mcq questions, question i's own script starts at block i. */
  lemma {:induction false} McqBlockAt(qs: seq<Mcq>, m: nat, s: Script, at: nat, i: nat, start: nat)
    requires McqAuthorable(qs, m) && Embeds(s, at, McqBlocksScriptOf(qs)) && i < |qs|
    requires start == McqStart(at, m, i)
    ensures Embeds(s, start, McqBlockScriptOf(qs[i]))
  {
    McqBlockScriptsWidth(qs, m);
    FlattenEmbeds(s, at, McqBlockScripts(qs), m + 2, i, i * (m + 2));
  }

  /**
   * The script that authors a run of Mcq questions with m options each,
   * wherever it sits, is that many Mcq blocks in a row standing for exactly
   * those questions.
   */
  lemma {:induction false} McqBlocksEmbedded(qs: seq<Mcq>, m: nat, s: Script, at: nat)
    requires McqAuthorable(qs, m) && Embeds(s, at, McqBlocksScriptOf(qs))
    ensures McqItemsScript(|qs|, m, s, at) && McqBlocks(|qs|, m, s, at) == qs
  {
    forall i | 0 <= i < |qs|
      ensures McqBlock(m, s, McqStart(at, m, i)) && McqBlockValue(m, s, McqStart(at, m, i)) == qs[i]
    {
      McqBlockAt(qs, m, s, at, i, McqStart(at, m, i));
      McqBlockEmbedded(qs[i], m, s, McqStart(at, m, i));
    }
    var read := McqBlocks(|qs|, m, s, at);
    assert forall i :: 0 <= i < |qs| ==> read[i] == qs[i];
  }

  /** Every Mcq batch with m options per question is read back from the script that authors it. */
  lemma {:induction false} McqRoundTrip(qs: seq<Mcq>, m: nat, s: Script, at: nat)
    requires McqAuthorable(qs, m) && Embeds(s, at, McqScriptOf(qs, m))
    ensures var r := ReadMcq(s, at);
            r.Done? && r.value == qs && r.next == at + |McqScriptOf(qs, m)|
  {
    var counts := [Number(|qs|), Number(m)];
    EmbedsAppend(s, at, counts, McqBlocksScriptOf(qs), at + 2);
    EmbedsAt(s, at, counts);
    assert s[at + 0] == counts[0] && s[at + 1] == counts[1];
    McqBlocksEmbedded(qs, m, s, at + 2);
    McqBlocksLength(qs, m, at + 2);
    ReadMcqSucceeds(s, at);
  }

  // ---------------------------------------------------------------------------
  // Sessions

  /** The menu position of the kind an authored exercise is of. */
  function MenuIndex(e: Exercise): (k: nat)
    requires Authored(e)
    ensures k < QuitIndex && Creates(AllOptions()[k], e)
  {
    match e
    case Matching(_) => 0
    case YesNo(_) => 1
    case Recall(_) => 2
    case Mcq(_) => 3
    case RecognizeRoot(_) => 4
  }

  /** The answers of a Matching batch, in order: a pool that holds every answer. */
  function Answers(ms: seq<Matching>): (pool: seq<string>)
    ensures |pool| == |ms| && forall i :: 0 <= i < |ms| ==> ms[i].answer == pool[i]
  {
    seq(|ms|, i requires 0 <= i < |ms| => ms[i].answer)
  }

  /** The option count of an Mcq batch: that of its first question, or 0 for an empty batch. */
  function McqOptionCount(qs: seq<Mcq>): nat
  {
    if qs == [] then 0 else |qs[0].options|
  }

  /**
   * An exercise the menu can author: one of the five kinds, a Matching batch
   * within the option letters, an Mcq batch whose questions all have the same
   * number of options, within the letters, each answer among its own options.
   */
  predicate BatchAuthorable(e: Exercise)
  {
    && Authored(e)
    && (e.Matching? ==> |e.matching| <= MaxLabelIndex)
    && (e.Mcq? ==> McqAuthorable(e.mcq, McqOptionCount(e.mcq)))
  }

  /** The responses that author an exercise once its kind is picked; a Matching batch offers its own answers as the pool. */
  function BatchScriptOf(e: Exercise): Script
    requires BatchAuthorable(e)
  {
    match e
    case Matching(ms) => MatchingScriptOf(ms, Answers(ms))
    case YesNo(ys) => YesNoScriptOf(ys)
    case Recall(rs) => RecallScriptOf(rs)
    case Mcq(qs) => McqScriptOf(qs, McqOptionCount(qs))
    case RecognizeRoot(rs) => RootScriptOf(rs)
  }

  /** Every authorable exercise is read back, by the reader its menu position picks, from the script that authors it. */
  lemma {:induction false} BatchRoundTrip(e: Exercise, s: Script, at: nat)
    requires BatchAuthorable(e) && Embeds(s, at, BatchScriptOf(e))
    ensures var r := ReadKind(AllOptions()[MenuIndex(e)], s, at);
            r.Done? && r.value == e && r.next == at + |BatchScriptOf(e)|
  {
    match e
    case Matching(ms) =>
      var pool := Answers(ms);
      assert forall i :: 0 <= i < |ms| ==> ms[i].answer in pool;
      MatchingRoundTrip(ms, pool, s, at);
    case YesNo(ys) => YesNoRoundTrip(ys, s, at);
    case Recall(rs) => RecallRoundTrip(rs, s, at);
    case Mcq(qs) => McqRoundTrip(qs, McqOptionCount(qs), s, at);
    case RecognizeRoot(rs) => RootRoundTrip(rs, s, at);
  }

  /** The responses that author a session: for each exercise its menu pick and its batch, then SaveAndQuit. */
  function SessionScriptOf(es: seq<Exercise>): Script
    requires forall i :: 0 <= i < |es| ==> BatchAuthorable(es[i])
  {
    if es == [] then [Choice(QuitIndex)]
    else
      assert BatchAuthorable(es[0]);
      [Choice(MenuIndex(es[0]))] + BatchScriptOf(es[0]) + SessionScriptOf(es[1..])
  }

  /** What holds of every exercise of a sequence holds of every exercise of its tail. */
  lemma {:induction false} AuthorableTail(es: seq<Exercise>)
    requires es != [] && forall i :: 0 <= i < |es| ==> BatchAuthorable(es[i])
    ensures forall i :: 0 <= i < |es| - 1 ==> BatchAuthorable(es[1..][i])
  {
    forall i | 0 <= i < |es| - 1
      ensures BatchAuthorable(es[1..][i])
    {
      assert es[1..][i] == es[i + 1];
    }
  }

  /** The session script of a non-empty sequence is its first exercise's pick and batch, then the rest's session script. */
  lemma {:induction false} SessionScriptCons(es: seq<Exercise>)
    requires es != [] && forall i :: 0 <= i < |es| ==> BatchAuthorable(es[i])
    ensures forall i :: 0 <= i < |es| - 1 ==> BatchAuthorable(es[1..][i])
    ensures SessionScriptOf(es) == [Choice(MenuIndex(es[0]))] + BatchScriptOf(es[0]) + SessionScriptOf(es[1..])
  {
  }

  /** The session script of a non-empty sequence, wherever it sits, starts with the first exercise's menu pick. */
  lemma {:induction false} SessionScriptPick(es: seq<Exercise>, s: Script, at: nat)
    requires es != [] && forall i :: 0 <= i < |es| ==> BatchAuthorable(es[i])
    requires Embeds(s, at, SessionScriptOf(es))
    ensures at < |s| && s[at] == Choice(MenuIndex(es[0]))
  {
    SessionScriptCons(es);
    EmbedsAppend3(s, at, SessionScriptOf(es), [Choice(MenuIndex(es[0]))], BatchScriptOf(es[0]), SessionScriptOf(es[1..]),
                  at + 1, at + 1 + |BatchScriptOf(es[0])|);
    EmbedsHead(s, at, [Choice(MenuIndex(es[0]))]);
  }

  /** The session script of a non-empty sequence, wherever it sits, holds the first exercise's batch right after its pick. */
  lemma {:induction false} SessionScriptBatch(es: seq<Exercise>, s: Script, at: nat)
    requires es != [] && forall i :: 0 <= i < |es| ==> BatchAuthorable(es[i])
    requires Embeds(s, at, SessionScriptOf(es))
    ensures Embeds(s, at + 1, BatchScriptOf(es[0]))
  {
    SessionScriptCons(es);
    EmbedsAppend3(s, at, SessionScriptOf(es), [Choice(MenuIndex(es[0]))], BatchScriptOf(es[0]), SessionScriptOf(es[1..]),
                  at + 1, at + 1 + |BatchScriptOf(es[0])|);
  }

  /** The session script of a non-empty sequence, wherever it sits, holds the rest's session script right after the first batch. */
  lemma {:induction false} SessionScriptRest(es: seq<Exercise>, s: Script, at: nat, mid: nat)
    requires es != [] && forall i :: 0 <= i < |es| ==> BatchAuthorable(es[i])
    requires Embeds(s, at, SessionScriptOf(es)) && mid == at + 1 + |BatchScriptOf(es[0])|
    ensures Embeds(s, mid, SessionScriptOf(es[1..]))
  {
    SessionScriptCons(es);
    EmbedsAppend3(s, at, SessionScriptOf(es), [Choice(MenuIndex(es[0]))], BatchScriptOf(es[0]), SessionScriptOf(es[1..]),
                  at + 1, mid);
  }

  /** The first exercise of a session script is picked from the menu and read back from its batch. */
  lemma {:induction false} SessionScriptHead(es: seq<Exercise>, s: Script, at: nat)
    requires es != [] && forall i :: 0 <= i < |es| ==> BatchAuthorable(es[i])
    requires Embeds(s, at, SessionScriptOf(es))
    ensures at < |s| && s[at] == Choice(MenuIndex(es[0]))
    ensures var r := ReadKind(AllOptions()[MenuIndex(es[0])], s, at + 1);
            r.Done? && r.value == es[0] && r.next == at + 1 + |BatchScriptOf(es[0])|
  {
    SessionScriptPick(es, s, at);
    SessionScriptBatch(es, s, at);
    BatchRoundTrip(es[0], s, at + 1);
  }

  /** A non-empty session script is one pick longer than its first batch and the rest's session script together. */
  lemma {:induction false} SessionScriptLength(es: seq<Exercise>)
    requires es != [] && forall i :: 0 <= i < |es| ==> BatchAuthorable(es[i])
    ensures forall i :: 0 <= i < |es| - 1 ==> BatchAuthorable(es[1..][i])
    ensures |SessionScriptOf(es)| == 1 + |BatchScriptOf(es[0])| + |SessionScriptOf(es[1..])|
  {
    SessionScriptCons(es);
  }

  /**
   * A non-empty session script, wherever it sits, holds the rest's session
   * script at `mid`, and it is read back whole once that rest is: the first
   * batch, then the rest's.
   */
  lemma {:induction false} SessionRoundTripStep(es: seq<Exercise>, s: Script, at: nat) returns (mid: nat)
    requires es != [] && forall i :: 0 <= i < |es| ==> BatchAuthorable(es[i])
    requires Embeds(s, at, SessionScriptOf(es))
    ensures forall i :: 0 <= i < |es| - 1 ==> BatchAuthorable(es[1..][i])
    ensures Embeds(s, mid, SessionScriptOf(es[1..]))
    ensures ReadSession(s, mid).Done? && ReadSession(s, mid).value == es[1..]
            && ReadSession(s, mid).next == mid + |SessionScriptOf(es[1..])|
            ==> ReadSession(s, at).Done? && ReadSession(s, at).value == es
                && ReadSession(s, at).next == at + |SessionScriptOf(es)|
  {
    mid := at + 1 + |BatchScriptOf(es[0])|;
    AuthorableTail(es);
    SessionScriptRest(es, s, at, mid);
    if ReadSession(s, mid).Done? && ReadSession(s, mid).value == es[1..] {
      SessionScriptHead(es, s, at);
      SessionScriptLength(es);
      SessionExtend(s, at, MenuIndex(es[0]), mid);
      HeadTail(es);
    }
  }

  /** The session script of no exercises, wherever it sits, is read back as no exercises, ending after its SaveAndQuit pick. */
  lemma {:induction false} SessionRoundTripEmpty(es: seq<Exercise>, s: Script, at: nat)
    requires es == [] && Embeds(s, at, SessionScriptOf(es))
    ensures ReadSession(s, at).Done? && ReadSession(s, at).value == es
    ensures ReadSession(s, at).next == at + |SessionScriptOf(es)|
  {
    EmbedsHead(s, at, SessionScriptOf(es));
    SessionQuit(s, at);
  }

  /** Every sequence of authorable exercises is read back, in order, from the session script that authors it. */
  lemma {:induction false} SessionRoundTrip(es: seq<Exercise>, s: Script, at: nat)
    requires forall i :: 0 <= i < |es| ==> BatchAuthorable(es[i])
    requires Embeds(s, at, SessionScriptOf(es))
    ensures ReadSession(s, at).Done? && ReadSession(s, at).value == es
    ensures ReadSession(s, at).next == at + |SessionScriptOf(es)|
    decreases |es|
  {
    if es == [] {
      SessionRoundTripEmpty(es, s, at);
    } else {
      var mid := SessionRoundTripStep(es, s, at);
      SessionRoundTrip(es[1..], s, mid);
    }
  }

  /**
   * A session that authors `es` and finds the data file holding `existing`,
   * or no file, saves the existing collection followed by `es`, or `es` alone.
   */
  lemma {:induction false} SessionSavesAuthored(existing: seq<Exercise>, es: seq<Exercise>)
    requires forall i :: 0 <= i < |es| ==> BatchAuthorable(es[i])
    ensures Session(Holds(existing), SessionScriptOf(es), true, true) == Run(Saved, Holds(existing + es))
    ensures Session(Missing, SessionScriptOf(es), true, true) == Run(Saved, Holds(es))
  {
    var s := SessionScriptOf(es);
    EmbedsAt(s, 0, s);
    SessionRoundTrip(es, s, 0);
  }
}
