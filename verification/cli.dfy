/** The argument handling of `main` (vigen.cc:133-178) as a decision from
    the argument vector to what the program does. */
module Cli {
  import opened Wrappers
  import opened Ascii
  import opened KeyNormalizer
  import opened Cipher
  import opened FileTransform

  /** What argument 3 selects. Anything but -e and -d selects nothing. */
  datatype Mode = EncryptMode | DecryptMode | NoTransform

  /** Where `setFilename` takes the input file name from. */
  datatype FileName = Prompted | Given(name: string)

  /** The branch `main` takes. */
  datatype Action =
    | Help                          // usage(), exit status 0
    | UsageError                    // error_message(), exit status 1
    | KeyFailure(error: KeyError)   // genKey gave up, exit status 1
    | Run(hint: bool, key: string, file: FileName, mode: Mode)
      // hint: error_message() was printed, but execution went on

  /** The status `main` returns from a branch that ends the program
      before any file is touched; a run's status is given by `MainOutcome`. */
  function DispatchStatus(a: Action): int
    requires !a.Run?
  {
    if a.Help? then 0 else 1
  }

  /** The transformation argument 3 selects (vigen.cc:171-175). */
  function ModeOf(flag: string): (m: Mode)
    ensures m == EncryptMode <==> flag == "-e"
    ensures m == DecryptMode <==> flag == "-d"
    ensures m == NoTransform <==> flag != "-e" && flag != "-d"
  {
    if flag == "-e" then EncryptMode else if flag == "-d" then DecryptMode else NoTransform
  }

  /** `main` as written, from `argv` (program name included) to its branch. */
  function Dispatch(args: seq<string>): (a: Action)
    ensures a.Run? ==> 4 <= |args| <= 5 && (a.key == [] <==> args[1] != "-k")
    ensures a.Run? && a.key != [] ==> AllAlpha(a.key)
  {
    if |args| == 2 && args[1] == "-h" then Help
    else if |args| < 4 || |args| > 5 then UsageError
    else
      var hint := args[1] != "-k" && (args[3] != "-e" || args[3] != "-d");
      var file := if |args| == 4 then Prompted else Given(args[4]);
      if args[1] == "-k" then
        match NormalizeKey(args[2])
        case Err(e) => KeyFailure(e)
        case Ok(key) => Run(hint, key, file, ModeOf(args[3]))
      else Run(hint, "", file, ModeOf(args[3]))
  }

  /** The branch follows the argument count first: help for exactly
      `-h`, a usage error for any count but 4 or 5. */
  lemma {:induction false} DispatchByCount(args: seq<string>)
    ensures Dispatch(args) == Help <==> |args| == 2 && args[1] == "-h"
    ensures Dispatch(args) == UsageError <==>
      !(|args| == 2 && args[1] == "-h") && (|args| < 4 || |args| > 5)
  {
  }

  /** With 4 or 5 arguments the program fails only on a rejected key, and
      the hint of vigen.cc:159 is printed exactly when argument 1 is not
      `-k`, without stopping: the run goes on with an empty key. */
  lemma {:induction false} DispatchWithCount(args: seq<string>)
    requires 4 <= |args| <= 5
    ensures Dispatch(args).KeyFailure? <==> args[1] == "-k" && NormalizeKey(args[2]).Err?
    ensures Dispatch(args).Run? ==> (Dispatch(args).hint <==> args[1] != "-k")
    ensures args[1] != "-k" ==> Dispatch(args).Run? && Dispatch(args).key == []
    ensures Dispatch(args).Run? && args[1] == "-k" ==>
      Dispatch(args).key == Letters(args[2]) && Dispatch(args).key != [] && AllAlpha(Dispatch(args).key)
    ensures Dispatch(args).Run? ==>
      (Dispatch(args).mode == NoTransform <==> args[3] != "-e" && args[3] != "-d")
    ensures Dispatch(args).Run? ==> (Dispatch(args).file == Prompted <==> |args| == 4)
  {
  }

  /** As written, the check at vigen.cc:159 can never reject a bad flag:
      a first flag other than -k only prints a hint and the file is then
      encrypted under an empty key (every line gives ""), and an unknown
      mode flag ends the run with status 0 having done nothing. */
  lemma MalformedFlagsAccepted()
    ensures Dispatch(["vigen", "-x", "secret", "-e", "notes.txt"])
      == Run(true, "", Given("notes.txt"), EncryptMode)
    ensures Dispatch(["vigen", "-k", "secret", "-x", "notes.txt"])
      == Run(false, "secret", Given("notes.txt"), NoTransform)
    ensures MainOutcome(["vigen", "-k", "secret", "-x", "notes.txt"], "", map[]) == Exit(0, None)
  {
    LettersFixedIff("secret");
  }

  /** `main` with the validation the hint at vigen.cc:159 evidently meant:
      argument 1 must be `-k` and argument 3 one of -e and -d. */
  function DispatchStrict(args: seq<string>): (a: Action)
    ensures a.Run? ==> 4 <= |args| <= 5 && args[1] == "-k" && a.mode != NoTransform
  {
    if |args| == 2 && args[1] == "-h" then Help
    else if |args| < 4 || |args| > 5 then UsageError
    else if args[1] != "-k" || (args[3] != "-e" && args[3] != "-d") then UsageError
    else Dispatch(args)
  }

  /** The strict dispatch agrees with `main` on well-formed arguments and
      only ever runs a transform with a valid key and a real mode. */
  lemma {:induction false} DispatchStrictSound(args: seq<string>)
    ensures 4 <= |args| <= 5 && args[1] == "-k" && (args[3] == "-e" || args[3] == "-d") ==>
      DispatchStrict(args) == Dispatch(args)
    ensures DispatchStrict(args).Run? ==>
      !DispatchStrict(args).hint && DispatchStrict(args).mode != NoTransform &&
      DispatchStrict(args).key != [] && AllAlpha(DispatchStrict(args).key)
    ensures DispatchStrict(["vigen", "-x", "secret", "-e", "notes.txt"]) == UsageError
    ensures DispatchStrict(["vigen", "-k", "secret", "-x", "notes.txt"]) == UsageError
  {
  }

  /** How a run ends: the exit status and the file written, if any;
      `Undefined` when `decrypt` would take `i % 0`. */
  datatype Outcome = Exit(code: int, written: Option<OutputFile>) | Undefined

  /** The input file name `setFilename` settles on. */
  function InputName(file: FileName, typed: string): string {
    if file.Prompted? then typed else file.name
  }

  /** `setFilename` on a run: with 5 arguments the name is argument 4, and
      with 4 it is the line typed after the prompt. */
  lemma {:induction false} InputNameOfArgs(args: seq<string>, typed: string)
    requires Dispatch(args).Run?
    ensures |args| == 5 ==> InputName(Dispatch(args).file, typed) == args[4]
    ensures |args| == 4 ==> InputName(Dispatch(args).file, typed) == typed
  {
  }

  /** The whole of `main`: `typed` is the line read after the "> " prompt,
      `files` the readable files by name. `decryptToFile` opens its input
      before it truncates `clear_text.txt`, so decrypting an input spelled
      `clear_text.txt` reads nothing and leaves it empty. Files are told
      apart by their spelled name only. */
  function MainOutcome(args: seq<string>, typed: string, files: map<string, string>): (o: Outcome)
    ensures o.Exit? ==> (o.code == 0 <==> Dispatch(args).Help? || (Dispatch(args).Run? && (Dispatch(args).mode == NoTransform || o.written.Some?)))
    ensures o.Exit? && o.written.Some? ==>
      Dispatch(args).Run? && InputName(Dispatch(args).file, typed) in files &&
      o.written.value.name ==
        match Dispatch(args).mode
        case EncryptMode => InputName(Dispatch(args).file, typed) + ".vig"
        case _ => ClearTextFile
  {
    match Dispatch(args)
    case Run(_, key, file, mode) =>
      var name := InputName(file, typed);
      if mode == NoTransform then Exit(0, None)
      else if name !in files then Exit(1, None)
      else if mode == EncryptMode then
        Exit(0, Some(OutputFile(name + ".vig", EncryptedLines(GetLines(files[name]), key))))
      else if name == ClearTextFile then Exit(0, Some(OutputFile(ClearTextFile, "")))
      else if !DecryptDefined(files[name], key) then Undefined
      else
        GetLinesDecryptable(files[name], key);
        Exit(0, Some(OutputFile(ClearTextFile, DecryptedLines(GetLines(files[name]), key))))
    case a => Exit(DispatchStatus(a), None)
  }

  /** The exit status of the program: 1 for a usage error, a rejected key,
      or an input file that cannot be opened (vigen.cc:96-98, 116-118);
      0 otherwise, whenever the behaviour is defined. */
  lemma {:induction false} MainExitStatus(args: seq<string>, typed: string, files: map<string, string>)
    ensures var o := MainOutcome(args, typed, files); var a := Dispatch(args);
      o.Exit? ==> (o.code == 1 <==>
        a.UsageError? || a.KeyFailure? ||
        (a.Run? && a.mode != NoTransform && InputName(a.file, typed) !in files))
    ensures var o := MainOutcome(args, typed, files);
      o.Exit? ==> o.code == 0 || o.code == 1
    ensures MainOutcome(args, typed, files).Undefined? ==>
      Dispatch(args).Run? && Dispatch(args).key == [] && Dispatch(args).mode == DecryptMode
  {
  }

  /** Decrypting an input spelled `clear_text.txt`: the output stream
      empties the input before the first line is read, so the file ends up
      empty. */
  lemma DecryptOverClearText(k: string, contents: string, typed: string)
    requires NormalizeKey(k).Ok?
    ensures MainOutcome(["vigen", "-k", k, "-d", ClearTextFile], typed, map[ClearTextFile := contents])
      == Exit(0, Some(OutputFile(ClearTextFile, "")))
  {
    assert Dispatch(["vigen", "-k", k, "-d", ClearTextFile]).mode == DecryptMode;
  }

  /** End to end: `vigen -k K -e f` and then `vigen -k K -d f.vig` write
      `clear_text.txt` holding the non-blank lines of f lower-cased, when
      the letters of K are all lower-case. */
  lemma {:induction false} MainRoundTrip(k: string, f: string, files: map<string, string>, typed: string)
    requires f in files
    requires NormalizeKey(k).Ok? && AllLower(Letters(k))
    ensures var first := MainOutcome(["vigen", "-k", k, "-e", f], typed, files);
      first.Exit? && first.code == 0 && first.written.Some? &&
      first.written.value.name == f + ".vig" &&
      var second := MainOutcome(["vigen", "-k", k, "-d", f + ".vig"], typed,
                                files[f + ".vig" := first.written.value.contents]);
      second == Exit(0, Some(OutputFile(ClearTextFile, ClearLines(GetLines(files[f])))))
  {
    var key := Letters(k);
    var encArgs := ["vigen", "-k", k, "-e", f];
    assert Dispatch(encArgs) == Run(false, key, Given(f), EncryptMode);
    var enc := EncryptedLines(GetLines(files[f]), key);
    assert MainOutcome(encArgs, typed, files) == Exit(0, Some(OutputFile(f + ".vig", enc)));
    var files' := files[f + ".vig" := enc];
    assert files'[f + ".vig"] == enc;
    var decArgs := ["vigen", "-k", k, "-d", f + ".vig"];
    assert Dispatch(decArgs) == Run(false, key, Given(f + ".vig"), DecryptMode);
    assert f + ".vig" != ClearTextFile by {
      assert (f + ".vig")[|f| + 3] == 'g' != ClearTextFile[|ClearTextFile| - 1];
    }
    FileRoundTrip(files[f], key);
  }
}
