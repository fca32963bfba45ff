# Exercise authoring tool: a Dafny model

The tool authors language exercises interactively. Run with `--input`, it
shows a menu of exercise kinds. For each kind picked, it asks for a batch of
questions with their answers, and it keeps going until the user picks
SaveAndQuit. It then appends the new batches to the collection kept in the
data file and writes the file back. Run without `--input`, it prints a usage
line.

This project models that core in Dafny 4.11:

- `exercises.dfy` (module `Exercises`) holds the data model. It has the
  seven-variant `Exercise` union, the seven record kinds and their
  field-copying constructors.
- `prompts.dfy` (module `Prompts`) holds the prompts. Each interactive
  prompt becomes a step that consumes one response from a script. A
  response is a count, a text, a choice index, a yes/no or an abort. A
  prompt fails on a response of the wrong kind, a choice outside the list
  offered, an exhausted script or an abort. The source unwraps every prompt
  result, so a failed prompt ends the run as `Aborted`. Each reader returns
  the value it read, the position of the first response it did not read,
  and the prompts it showed (their numbering and option letters, not their
  rendered text).
- `entry.dfy` (module `Entry`) holds the readers:
  - the shared question and option readers;
  - the option letters `a`, `b`, … and the "(letter) value" option
    formatter;
  - one reader per exercise kind;
  - the menu and the session loop that runs until SaveAndQuit.
- `entry_properties.dfy` (module `EntryProperties`) says exactly which
  scripts each reader accepts, and where each recorded field comes from in
  the script.
- `program.dfy` (module `Program`) holds the `--input` dispatch and the
  session that merges and persists the batches.
  - The data file is a `DataStore` object whose one field records what the
    file holds: missing, unreadable, unparsable, or a collection.
  - `ExecuteData` is a method with early returns that appends the new batches
    to the existing collection. It is proved against the function `Session`.
  - Serialising and writing are abstract: whether each succeeds is given
    as a boolean input.
- `scripts.dfy` (module `AuthoringScripts`) goes the other way. For every
  batch the menu can author, and for every sequence of such batches, it
  builds the script that types it. It proves that the readers and the menu
  loop read that batch or sequence back exactly, so the readers lose
  nothing, and that such a session saves it after the existing collection.

## Model

| member | source | states |
|---|---|---|
| Exercises.VariantName | src/exercise.rs:3-13 | the tag of an exercise is its variant's own name, the name at the variant's position among the seven in declaration order |
| Exercises.VariantIndex | src/exercise.rs:5-13 | every exercise is one of exactly seven variants (position below 7) |
| Exercises.VariantNameIdentifies | src/exercise.rs:3-13 | two exercises carry the same tag if and only if they are of the same variant |
| Exercises.NewMatching | src/exercise.rs:22-24 | both string arguments are stored unchanged as question and answer |
| Exercises.NewYesNo | src/exercise.rs:34-36 | the question and the boolean answer are stored unchanged |
| Exercises.NewRecall | src/exercise.rs:46-48 | both string arguments are stored unchanged as question and answer |
| Exercises.NewMcq | src/exercise.rs:59-65 | the options are kept exactly as given (same order and length), alongside question and answer |
| Exercises.NewRecognizeRoot | src/exercise.rs:76-82 | the arguments come in the order (question, answer, example), and each is stored in its own field |
| Exercises.NewFillInTheBlank | src/exercise.rs:93-99 | question, answer and blank are stored unchanged |
| Exercises.NewSameOrOpposite | src/exercise.rs:110-116 | both words and the answer are stored unchanged |
| Exercises.ConstructorsAreExact | src/exercise.rs:21-116 | every record is what its constructor builds from the record's own fields, so the constructors lose and add nothing |
| Prompts.AskNumberSpec | src/entry.rs:30-33 | a count prompt succeeds if and only if the next response is a count; it then returns that count, consumes that one response and shows one count prompt. Every count of the readers (questions, and the Mcq options) is read by this prompt |
| Prompts.AskTextSpec | src/entry.rs:37 | a text prompt succeeds if and only if the next response is a text; it then returns that text, consumes that one response and shows one text prompt under its message. Questions, options, answers and examples are all read by this prompt |
| Prompts.AskConfirmSpec | src/entry.rs:107-109 | a confirmation succeeds if and only if the next response is a yes/no; it then returns that answer, consumes that one response and shows one confirmation prompt |
| Prompts.AskSelect | src/entry.rs:81-87 | a select list consumes one response when it succeeds |
| Prompts.AskSelectSpec | src/entry.rs:81-87 | a select list succeeds if and only if the next response is a choice of a position among the items offered; it then returns the item at that position and shows one select prompt; with nothing offered it always fails. The Matching picks and the Mcq picks are read by this prompt |
| Prompts.ReadTexts | src/entry.rs:36-38 | one text prompt per message: as many strings as messages, and the cursor advances by that many |
| Prompts.ReadTextsSpec | src/entry.rs:36-38 | reading texts succeeds if and only if the next responses are all texts; the result is those texts in the order typed, with one prompt per message in order |
| Entry.Label | src/entry.rs:53 | option letter i is 'a' + i below the surrogate block |
| Entry.LabelsConsecutive | src/entry.rs:52-57 | the letters start at 'a', run through 'z' one by one, and strictly increase, so they never repeat |
| Entry.OptionMessages | src/entry.rs:55 | the n option prompts are lettered by positions 0 to n - 1 in turn |
| Entry.ReadOptions | src/entry.rs:52-57 | a successful read of n options returns exactly n strings and consumes n responses; past the last character the letter range panics, so the read aborts |
| Entry.ReadOptionsSpec | src/entry.rs:52-57 | reading n options succeeds if and only if n is within the letter range and the next n responses are texts; the options are those texts in order |
| Entry.ReadOptionsAt | src/entry.rs:52-57 | option j is the j-th text typed |
| Entry.ReadOptionsPrompts | src/entry.rs:53-55 | the options are asked for under the letters of positions 0, 1, … in turn, one prompt each |
| Entry.FormatOption | src/entry.rs:63-64 | the formatted option is "(letter) value": the letter of its position in the second character, and the value intact after the prefix |
| Entry.FormatOptionInjective | src/entry.rs:63-64 | two options are formatted the same only if they have the same position and the same value |
| Entry.FormattedPool | src/entry.rs:63-64 | one echo line per pool position: the letter of that position in the second character, then the item intact after the four-character prefix |
| Entry.FormattedPoolDistinct | src/entry.rs:63-64 | no two pool positions are echoed alike, even when their items are equal |
| Entry.ReadQuestions | src/entry.rs:29-39 | a successful read follows a count n with exactly n questions |
| Entry.ReadQuestionsSpec | src/entry.rs:29-39 | reading questions succeeds if and only if the script has a count n followed by n texts; the questions are those texts in the order typed, asked under the numbers 1 to n |
| Entry.ReadQuestionsAt | src/entry.rs:29-39 | question i is the i-th text typed after the count |
| Entry.PickMatching | src/entry.rs:77-91 | one pick per question, so one entry per question |
| Entry.PickMatchingSpec | src/entry.rs:77-91 | picking succeeds if and only if the next responses are one in-range choice per question; entry i pairs question i with the pool item its choice names, asked as "i. question" over the formatted pool |
| Entry.PickMatchingAt | src/entry.rs:77-91 | entry i pairs question i with the pool item its in-range choice names |
| Entry.ReadPoolAndPick | src/entry.rs:75-91 | the pool holds as many options as there are questions, and there is one entry per question |
| Entry.ReadPoolAndPickSucceeds | src/entry.rs:75-91 | it succeeds if and only if n option texts follow, and then n choices among those n options |
| Entry.ReadPoolAndPickAt | src/entry.rs:75-91 | entry i keeps question i, and its answer is the option typed at the position its pick names |
| Entry.ReadMatching | src/entry.rs:73-92 | a Matching batch of n entries consumes a count n, n questions, n options and n picks |
| Entry.ConfirmEach | src/entry.rs:103-112 | one confirmation per question, so one entry per question |
| Entry.ConfirmEachSpec | src/entry.rs:103-112 | it succeeds if and only if the next responses are one confirmation per question; entry i pairs question i with the i-th confirmation |
| Entry.ConfirmEachPrompts | src/entry.rs:103-112 | question i is confirmed under its 1-based number i + 1 and its own text, one confirmation per question in order |
| Entry.ReadYesNo | src/entry.rs:100-113 | a YesNo batch of n entries consumes a count n, n questions and n confirmations |
| Entry.AnswerEach | src/entry.rs:124-133 | one free-text answer per question, so one entry per question |
| Entry.AnswerEachSpec | src/entry.rs:124-133 | it succeeds if and only if the next responses are one text per question; entry i pairs question i with the i-th answer typed |
| Entry.AnswerEachPrompts | src/entry.rs:124-133 | the answer to question i is typed under its 1-based number i + 1 and its own text, one prompt per question in order |
| Entry.ReadRecall | src/entry.rs:121-134 | a Recall batch of n entries consumes a count n, n questions and n answers |
| Entry.McqQuestion | src/entry.rs:157-172 | one Mcq question consumes its text, its m options and one pick |
| Entry.McqBlockFields | src/entry.rs:157-172 | the question a block stands for holds the typed question, exactly the m options typed after it in order, and the option its pick names as answer, so the answer is one of its own options |
| Entry.McqQuestionSucceeds | src/entry.rs:157-172 | one Mcq question succeeds if and only if the script has a text, m option texts, and a choice among those m options |
| Entry.McqQuestionValue | src/entry.rs:157-172 | a successful Mcq question reads the question its block stands for |
| Entry.McqBlocks | src/entry.rs:156-173 | c blocks in a row stand for c questions |
| Entry.McqItemsStep | src/entry.rs:156-173 | a run of c blocks is one block followed by a run of c - 1 blocks, starting right after it |
| Entry.McqBlocksStep | src/entry.rs:156-173 | the questions of a run are its first block's question followed by the rest of the run's, in order |
| Entry.McqItems | src/entry.rs:156-173 | reading the questions succeeds if and only if the script holds that many Mcq blocks in a row, and then yields the questions those blocks stand for, in order |
| Entry.McqWithoutOptionsAborts | src/entry.rs:165-170 | with zero options every question's pick fails, so any question aborts the batch |
| Entry.McqBlocksEntries | src/entry.rs:156-173 | question i of a run was read from the i-th block |
| Entry.McqQuestionPrompts | src/entry.rs:157-172 | question k is typed under its number k + 1, its options under the letters of positions 0 to m - 1, then it is picked from under the same number and its own text, over its own options |
| Entry.McqItemsPrompts | src/entry.rs:156-173 | a run of questions shows each question's prompts in turn, the option letters restarting at 'a' for each question |
| Entry.McqAskedAt | src/entry.rs:156-173 | question i's prompts start at position i(m + 2): its number i + 1, the letters of positions 0 to m - 1, then the pick under number i + 1 |
| Entry.McqItemsPromptsAt | src/entry.rs:156-173 | in a successful run, question i is typed under number i + 1, its options under letters from 'a' on, and picked under number i + 1 with the text read for it |
| Entry.ReadMcq | src/entry.rs:145-174 | a successful Mcq read follows a count n and an option count m with n Mcq blocks of m options, and returns the n questions they stand for |
| Entry.ReadMcqPrompts | src/entry.rs:145-174 | a successful Mcq read asks for the number of questions, then the number of options, then shows every question's prompts in turn |
| Entry.RootQuestion | src/entry.rs:189-201 | one RecognizeRoot question consumes three responses |
| Entry.RootQuestionSpec | src/entry.rs:189-201 | it succeeds if and only if the next three responses are texts: question, then example, then answer. The answer prompt echoes the question and the example |
| Entry.RootBlockValue | src/entry.rs:189-201 | the question a block stands for holds its three texts as question, example and answer |
| Entry.RootBlocks | src/entry.rs:188-202 | c blocks stand for c questions |
| Entry.RootItems | src/entry.rs:188-202 | reading the questions succeeds if and only if the script holds that many blocks of three texts in a row, and then yields the questions those blocks stand for |
| Entry.RootBlocksAt | src/entry.rs:188-202 | block i starts 3i responses in, and question i is the one it stands for |
| Entry.RootItemsScriptTexts | src/entry.rs:188-202 | c blocks in a row are exactly the next 3c responses, all of them texts |
| Entry.RootItemsPrompts | src/entry.rs:188-202 | a run of questions shows, per question, its number, the example prompt and the answer prompt echoing both under the same number |
| Entry.RootAskedAt | src/entry.rs:188-202 | question i's prompts start at position 3i: its number i + 1, the example, then the answer under number i + 1 with its question and example |
| Entry.RootItemsPromptsAt | src/entry.rs:188-202 | in a successful run, question i is typed under number i + 1, and its answer is asked under the same number, echoing the question and example read for it |
| Entry.ReadRecognizeRoot | src/entry.rs:183-203 | a RecognizeRoot batch of n entries consumes a count n and three texts per entry |
| Entry.ReadRecognizeRootPrompts | src/entry.rs:183-203 | a successful RecognizeRoot read asks for the number of questions, then shows every question's three prompts in turn |
| Entry.AllOptions | src/entry.rs:221-233 | the menu lists six distinct items, with SaveAndQuit last |
| Entry.QuitPicked | src/entry.rs:221-233 | SaveAndQuit sits at the last menu position and nowhere else |
| Entry.ReadKind | src/entry.rs:247-253 | the batch read for a menu pick is wrapped in the variant of that pick, which is one of the five authorable kinds |
| Entry.ReadSession | src/entry.rs:240-257 | a finished session reads at least the menu pick and stops within the script |
| EntryProperties.MenuOffersEveryOption | src/entry.rs:221-233 | every menu item appears in the menu exactly once |
| EntryProperties.ReadMatchingSucceeds | src/entry.rs:73-92 | reading a Matching batch succeeds if and only if the script has a count n, n questions, n option texts and n choices among the n options |
| EntryProperties.MatchingPool | src/entry.rs:75 | the option pool of a batch of n entries has exactly n items |
| EntryProperties.ReadMatchingEntry | src/entry.rs:73-92 | entry i holds the i-th question typed, and its answer is the option typed at the position its pick names |
| EntryProperties.ReadMatchingShape | src/entry.rs:74-91 | the pool size equals the number of questions; entry i carries the i-th question, and its answer is the pool item its pick names, so every answer is an element of the pool |
| EntryProperties.ReadYesNoSucceeds | src/entry.rs:100-113 | reading a YesNo batch succeeds if and only if the script has a count n, n texts and n confirmations |
| EntryProperties.ReadYesNoShape | src/entry.rs:100-113 | one entry per question; entry i carries the i-th question and the i-th confirmation |
| EntryProperties.ReadRecallSucceeds | src/entry.rs:121-134 | reading a Recall batch succeeds if and only if the script has a count n and then 2n texts |
| EntryProperties.ReadRecallShape | src/entry.rs:121-134 | one entry per question; entry i carries the i-th question and the i-th answer typed after all the questions |
| EntryProperties.ReadMcqSucceeds | src/entry.rs:145-174 | reading an Mcq batch succeeds if and only if the script has two counts n and m, then n Mcq blocks of m options |
| EntryProperties.ReadMcqShape | src/entry.rs:146-172 | n entries; entry i has exactly the m options typed in its own block, in order, and its answer is the one of its own options that its pick names |
| EntryProperties.McqNeedsOptions | src/entry.rs:151-170 | an option count of 0 with at least one question aborts the batch |
| EntryProperties.ReadRecognizeRootSucceeds | src/entry.rs:183-203 | reading a RecognizeRoot batch succeeds if and only if the script has a count n and then 3n texts |
| EntryProperties.ReadRecognizeRootShape | src/entry.rs:184-202 | entry i stores the typed question, the example, and the answer typed separately after them |
| EntryProperties.ZeroCountYieldsEmptyBatch | src/entry.rs:36 | a count of 0 yields an empty batch, not an error, for every kind, and reads nothing after the count(s) |
| EntryProperties.SessionQuit | src/entry.rs:253 | picking SaveAndQuit ends the session at once with no batch; nothing after the pick is read |
| EntryProperties.SessionStep | src/entry.rs:242-256 | any other pick reads one batch, in the variant the pick names, and puts it ahead of the batches the rest of the session reads |
| EntryProperties.SessionAuthored | src/entry.rs:242-256 | every batch of a finished session is of one of the five kinds the menu offers, never FillInTheBlank or SameOrOpposite |
| EntryProperties.SessionExtend | src/entry.rs:242-256 | conversely, a pick of a kind, a batch of that kind that reads, and a rest of the session that finishes make a finished session: that batch, then the rest's batches, ending where the rest ends |
| EntryProperties.SessionEmpty | src/entry.rs:244-253 | a finished session with no batch read exactly one response, a SaveAndQuit pick |
| EntryProperties.SessionEndsOnQuit | src/entry.rs:240-257 | the last response a finished session read is a SaveAndQuit pick |
| Program.RequestsInput | src/main.rs:14 | the authoring flow is requested if and only if the literal argument "--input" appears anywhere among the arguments |
| Program.UsageName | src/main.rs:17-20 | the usage line names the first argument, or "program" when there is none |
| Program.Merge | src/main.rs:28-38 | a missing file gives exactly the new batches; a readable, parsable file gives the existing M batches followed by the N new ones, as M + N separate elements with the first M unchanged; a read or parse failure gives nothing |
| Program.Session | src/main.rs:24-45 | the file changes only on success, and then holds the merged collection. An abort while authoring panics before the file is touched. Authoring comes first, so a parse failure discards the session's batches. The first failing step names the failure: reading, then parsing, then serialising, then writing. Success requires all four to succeed |
| Program.ExecuteData | src/main.rs:24-45 | the status returned and the file left behind are exactly those of `Session` on the file as it was |
| Program.Printed | src/main.rs:14-21 | without `--input` the usage line is printed; with it, a saved session prints nothing, a failed session prints its error line, and an abort while authoring panics |
| Program.RunProgram | src/main.rs:9-21 | without `--input` the usage line is printed and the file is left alone; with it, the session runs, its error is reported, and the program returns normally unless an abort while authoring panicked |
| AuthoringScripts.RecallRoundTrip | src/entry.rs:121-134 | every Recall batch is read back exactly from the script that types its count, then its questions, then its answers, wherever that script sits; the read ends right after it |
| AuthoringScripts.YesNoRoundTrip | src/entry.rs:100-113 | every YesNo batch is read back exactly from the script that types its count, then its questions, then one confirmation per answer; the read ends right after it |
| AuthoringScripts.RootRoundTrip | src/entry.rs:183-203 | every RecognizeRoot batch is read back exactly from the script that types its count and then, per entry, question, example and answer; the read ends right after it |
| AuthoringScripts.MatchingRoundTrip | src/entry.rs:73-92 | every Matching batch within the option letters is read back exactly from the script that types its count, its questions, a pool of as many options that holds every answer, then for each entry the position of its answer in the pool |
| AuthoringScripts.McqRoundTrip | src/entry.rs:145-174 | every Mcq batch whose questions have the same number of options, within the option letters, each answer among its own options, is read back exactly from the script that types both counts and then each question, its options and the position of its answer |
| AuthoringScripts.BatchRoundTrip | src/entry.rs:247-253 | every such batch of the five menu kinds is read back, wrapped in its own variant, by the reader its menu pick runs |
| AuthoringScripts.SessionRoundTrip | src/entry.rs:240-257 | every sequence of such batches is read back in order by the menu loop from the script that picks each kind and authors its batch, then picks SaveAndQuit; the loop stops right after that pick |
| AuthoringScripts.SessionSavesAuthored | src/main.rs:24-45 | when serialising and writing succeed, a session that authors a sequence of batches saves the existing collection followed by them, or them alone when there is no file, so every authorable sequence can be saved |

## Left out

- The `inquire` widgets are not modelled: rendering, keyboard handling, and the re-prompt loops on invalid input (a count that does not parse, a confirmation that is not yes or no). Each prompt consumes one scripted response. An invalid response, an abort or an exhausted script makes it fail.
- Prompt text is kept only as structure (numbering, option position, echoed question and example). The menu items are shown under their variant names; the rendered prompt strings are not produced.
- Entry.ReadOptions: when n is past the last option letter, the source asks for the first options and then panics. The model aborts without listing those prompts in the trace. The run aborts either way.
- JSON encoding and decoding (serde, the `type`/`data` tagging, pretty printing) are not modelled. Whether the file parses, and what it holds, is the `DataFile` input. Whether serialising and writing succeed are boolean inputs.
- Filesystem calls and argument collection are not modelled: `Path::exists`, reading, writing and `env::args` become inputs and the `DataStore` field.
- Program.Session: a failed write is modelled as leaving the file unchanged. A partial write of the file is not modelled.
- The text of the "Error: …" line and of the usage line is not modelled. `Output` records only which line is printed and for which failure.
- Prompts.AskNumberSpec: counts are unbounded naturals, where the source parses a `usize`; a count beyond the platform's word size, which the source re-prompts for, is not modelled. Choice positions are unbounded naturals in the same way.
- Exercises.VariantName models the serde tag as the variant's name; the JSON layout around it is not modelled.
