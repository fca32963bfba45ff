/**
 * The program's entry point: the `--input` switch, and the session that
 * authors a batch of exercises and appends it to the collection kept in the
 * data file. The file system is a `DataStore` whose one field is what the
 * data file holds; reading, parsing, serialising and writing are abstract,
 * their outcomes given as inputs.
 */
module Program {
  import opened Exercises
  import opened Prompts
  import opened Entry

  /** The switch that asks for the authoring flow. */
  const InputFlag: string := "--input"

  /** The name printed in the usage line when the argument list is empty. */
  const DefaultProgramName: string := "program"

  datatype Option<T> = None | Some(value: T)

  /** What the data file holds, as far as reading and parsing it can tell. */
  datatype DataFile =
    | Missing                              // no data file exists
    | Unreadable                           // it exists, but reading it fails
    | Unparsable                           // it is read, but its contents do not parse
    | Holds(exercises: seq<Exercise>)      // it holds this collection

  /** Why a session stopped short of writing the file. */
  datatype Failure = ReadFailed | ParseFailed | SerializeFailed | WriteFailed

  /**
   * How a session ended: the collection was written, one of its steps failed
   * and the error was returned, or a prompt was aborted, which panics.
   */
  datatype Status = Saved | Failed(failure: Failure) | Panicked

  /** What the program printed. */
  datatype Output =
    | Usage(program: string)     // "Usage: <program> --input"
    | ErrorLine(failure: Failure) // "Error: ..." on the error stream
    | Nothing
    | Panic

  /** The data file, the one piece of the file system the program touches. */
  class DataStore {
    var file: DataFile

    constructor (file: DataFile)
      ensures this.file == file
    {
      this.file := file;
    }
  }

  /** True when the argument list holds the literal `--input` switch, at any position. */
  function RequestsInput(args: seq<string>): (b: bool)
    ensures b <==> exists i :: 0 <= i < |args| && args[i] == InputFlag
  {
    InputFlag in args
  }

  /** The program name printed in the usage line: the first argument, or "program" when there is none. */
  function UsageName(args: seq<string>): (name: string)
    ensures |args| > 0 ==> name == args[0]
    ensures |args| == 0 ==> name == DefaultProgramName
  {
    if |args| > 0 then args[0] else DefaultProgramName
  }

  /**
   * The collection to write, given what the data file holds and the newly
   * authored batches: the added batches alone when there is no file, the
   * existing collection followed by them when the file parses, and nothing
   * when the file cannot be read or parsed.
   */
  function Merge(file: DataFile, added: seq<Exercise>): (r: Option<seq<Exercise>>)
    ensures r.None? <==> file.Unreadable? || file.Unparsable?
    ensures file.Missing? ==> r == Some(added)
    ensures file.Holds? ==>
              && r.Some?
              && |r.value| == |file.exercises| + |added|
              && r.value[..|file.exercises|] == file.exercises
              && r.value[|file.exercises|..] == added
  {
    match file
    case Missing => Some(added)
    case Unreadable => None
    case Unparsable => None
    case Holds(existing) => Some(existing + added)
  }

  /** How a session ends and what the data file holds afterwards. */
  datatype Run = Run(status: Status, file: DataFile)

  /**
   * A session over script `s`, with the data file holding `file` and the
   * serialisation and the write succeeding or not. The batches are authored
   * first; an abort panics before the file is looked at. Otherwise the file is
   * read and parsed, the collection serialised and written; the first step
   * that fails ends the session with its error. The file changes only when
   * the session is saved, and then holds the merged collection.
   */
  function Session(file: DataFile, s: Script, serializes: bool, writes: bool): (run: Run)
    ensures run.status != Saved ==> run.file == file
    ensures ReadSession(s, 0).Aborted? ==> run.status == Panicked
    ensures run.status == Saved <==>
              ReadSession(s, 0).Done? && Merge(file, ReadSession(s, 0).value).Some? && serializes && writes
    ensures run.status == Saved ==> run.file == Holds(Merge(file, ReadSession(s, 0).value).value)
    ensures ReadSession(s, 0).Done? && file.Unreadable? ==> run.status == Failed(ReadFailed)
    ensures ReadSession(s, 0).Done? && file.Unparsable? ==> run.status == Failed(ParseFailed)
    ensures ReadSession(s, 0).Done? && Merge(file, ReadSession(s, 0).value).Some? && !serializes ==>
              run.status == Failed(SerializeFailed)
    ensures ReadSession(s, 0).Done? && Merge(file, ReadSession(s, 0).value).Some? && serializes && !writes ==>
              run.status == Failed(WriteFailed)
  {
    match ReadSession(s, 0)
    case Aborted => Run(Panicked, file)
    case Done(added, _, _) =>
      match Merge(file, added)
      case None => Run(Failed(if file.Unreadable? then ReadFailed else ParseFailed), file)
      case Some(all) =>
        if !serializes then Run(Failed(SerializeFailed), file)
        else if !writes then Run(Failed(WriteFailed), file)
        else Run(Saved, Holds(all))
  }

  /**
   * The authoring flow: author the batches from the script, then merge them
   * into the data file's collection and write it back, returning early at the
   * first step that fails.
   */
  method ExecuteData(store: DataStore, s: Script, serializes: bool, writes: bool) returns (status: Status)
    modifies store
    ensures Run(status, store.file) == Session(old(store.file), s, serializes, writes)
  {
    var authored := ReadSession(s, 0);
    if authored.Aborted? {
      return Panicked;
    }
    var added := authored.value;
    var all: seq<Exercise>;
    if store.file.Missing? {
      all := added;
    } else {
      if store.file.Unreadable? {
        return Failed(ReadFailed);
      }
      if store.file.Unparsable? {
        return Failed(ParseFailed);
      }
      var existing := store.file.exercises;
      existing := existing + added;
      all := existing;
    }
    if !serializes {
      return Failed(SerializeFailed);
    }
    if !writes {
      return Failed(WriteFailed);
    }
    store.file := Holds(all);
    return Saved;
  }

  /** What a run of the program prints, given how its session (if any) ended. */
  function Printed(args: seq<string>, status: Status): (out: Output)
    ensures !RequestsInput(args) ==> out == Usage(UsageName(args))
    ensures RequestsInput(args) && status.Failed? ==> out == ErrorLine(status.failure)
    ensures RequestsInput(args) && status == Saved ==> out == Nothing
    ensures RequestsInput(args) && status == Panicked ==> out == Panic
  {
    if !RequestsInput(args) then Usage(UsageName(args))
    else match status
      case Saved => Nothing
      case Failed(failure) => ErrorLine(failure)
      case Panicked => Panic
  }

  /**
   * The program: with `--input` among the arguments it runs the authoring
   * flow and reports its error, if any, without failing itself; otherwise it
   * prints the usage line and leaves the data file alone.
   */
  method RunProgram(args: seq<string>, store: DataStore, s: Script, serializes: bool, writes: bool) returns (out: Output)
    modifies store
    ensures !RequestsInput(args) ==> out == Usage(UsageName(args)) && store.file == old(store.file)
    ensures RequestsInput(args) ==>
              var run := Session(old(store.file), s, serializes, writes);
              store.file == run.file && out == Printed(args, run.status)
  {
    if RequestsInput(args) {
      var status := ExecuteData(store, s, serializes, writes);
      out := Printed(args, status);
    } else {
      out := Usage(UsageName(args));
    }
  }
}
