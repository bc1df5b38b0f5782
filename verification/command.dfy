/**
 * `PandocCommand.run` up to the point where the converter is started: the
 * input format, the PDF exception, the output path and the command line.
 *
 * The editor's selector scoring, the located converter binary, the temporary
 * file name and the extension-less path of the view's file are parameters.
 */
module Command {
  import opened Options
  import opened Args
  import opened Config

  /** Aliases of the output-format option: `-t`/`-w`, `--to=`/`--write=`. */
  const ToShort: seq<string> := ["t", "w"]
  const ToLong: seq<string> := ["to", "write"]

  /** Aliases of the output-file option: `-o`, `--output=`. */
  const OutputShort: seq<string> := ["o"]
  const OutputLong: seq<string> := ["output"]

  /** Why the command stops before a converter is started. */
  datatype Failure =
    | BinaryNotFound   // the binary lookup reported an error and returned nothing
    | NoInputFormat    // no selector scores positive: the source's unbound `iformat`

  /** What is handed to the converter thread. */
  datatype Invocation = Invocation(
    command: seq<string>,          // the full command line, binary first
    outputFormat: Option<string>,  // the `-t`/`-w` value read from the arguments
    outputPath: Option<string>)    // the file the converter writes, for file formats

  /**
   * The scan of the input-format loop: the best score so far (starting at 0)
   * and the format that came with it. A selector replaces the choice only
   * with a strictly greater score.
   */
  function PickFormat(scope: seq<(string, string)>, score: string -> nat): (r: (nat, Option<string>))
    ensures forall j | 0 <= j < |scope| :: score(scope[j].0) <= r.0
    ensures r.1.None? <==> r.0 == 0
    ensures r.1.Some? ==> exists i :: FirstMaxAt(scope, score, i) && r.1.value == scope[i].1 && r.0 == score(scope[i].0)
  {
    if scope == [] then (0, None)
    else
      var n := |scope| - 1;
      var prev := PickFormat(scope[..n], score);
      assert forall j | 0 <= j < n :: scope[..n][j] == scope[j];
      if score(scope[n].0) <= prev.0 then
        assert prev.1.Some? ==> exists i :: FirstMaxAt(scope, score, i) && prev.1.value == scope[i].1 && prev.0 == score(scope[i].0) by {
          if prev.1.Some? {
            var i :| FirstMaxAt(scope[..n], score, i) && prev.1.value == scope[..n][i].1 && prev.0 == score(scope[..n][i].0);
            assert FirstMaxAt(scope, score, i);
          }
        }
        prev
      else
        assert FirstMaxAt(scope, score, n);
        (score(scope[n].0), Some(scope[n].1))
  }

  /**
   * Selector `i` has the greatest score, that score is positive, and every
   * selector before it scores strictly less.
   */
  ghost predicate FirstMaxAt(scope: seq<(string, string)>, score: string -> nat, i: int) {
    && 0 <= i < |scope|
    && score(scope[i].0) > 0
    && (forall j | 0 <= j < |scope| :: score(scope[j].0) <= score(scope[i].0))
    && (forall j | 0 <= j < i :: score(scope[j].0) < score(scope[i].0))
  }

  /** There is at most one earliest best selector. */
  lemma FirstMaxUnique(scope: seq<(string, string)>, score: string -> nat, i: int, i': int)
    requires FirstMaxAt(scope, score, i) && FirstMaxAt(scope, score, i')
    ensures i == i'
  {
  }

  /** The `-f` value: the format of the best-scoring selector, None when none scores. */
  function InputFormat(scope: seq<(string, string)>, score: string -> nat): Option<string> {
    PickFormat(scope, score).1
  }

  /**
   * The input format is that of the earliest selector with the greatest
   * positive score, and there is none exactly when no selector scores.
   */
  lemma InputFormatIsFirstMax(scope: seq<(string, string)>, score: string -> nat)
    ensures InputFormat(scope, score).None? <==> forall j | 0 <= j < |scope| :: score(scope[j].0) == 0
    ensures forall i | FirstMaxAt(scope, score, i) :: InputFormat(scope, score) == Some(scope[i].1)
  {
    var r := PickFormat(scope, score);
    if r.1.Some? {
      var i :| FirstMaxAt(scope, score, i) && r.1.value == scope[i].1 && r.0 == score(scope[i].0);
      forall i' | FirstMaxAt(scope, score, i') ensures i' == i {
        FirstMaxUnique(scope, score, i, i');
      }
    }
  }

  /** The configured arguments with the PDF exception applied: the converter
      is not told `pdf` by name, it infers it from the output file. */
  function TargetArguments(arguments: seq<string>): seq<string> {
    if Get(arguments, ToShort, ToLong) == Some("pdf") then Remove(arguments, ToShort, ToLong, Some(["pdf"]))
    else arguments
  }

  /**
   * The synthesized output file: next to the source file when `out-local` is
   * set and the view has a file, else the temporary name; the extension is
   * `out-ext` when given, else the output format's name.
   */
  function SynthesizedPath(t: Transformation, oformat: string, base: Option<string>, tempName: string): string {
    (if t.outLocal && base.Some? && base.value != "" then base.value else tempName)
      + "." + (if t.outExt.Some? then t.outExt.value else oformat)
  }

  /**
   * `PandocCommand.run` as far as the command line. `pandoc` is what the
   * binary lookup returned; `base` the view's file path without extension, if
   * any; `fileFormats` the `pandoc-format-file` setting.
   */
  function Assemble(pandoc: Option<string>, t: Transformation, score: string -> nat,
                    fileFormats: set<string>, base: Option<string>, tempName: string): (r: Result<Invocation, Failure>)
    ensures pandoc.None? ==> r == Err(BinaryNotFound)
    ensures r.Ok? ==> && |r.value.command| >= 3
                      && r.value.command[..2] == [pandoc.value, "-f"]
                      && Some(r.value.command[2]) == InputFormat(t.scope, score)
                      && r.value.outputFormat == Get(t.arguments, ToShort, ToLong)
    ensures r.Ok? && r.value.outputPath.Some? ==> r.value.outputFormat.Some? && r.value.outputFormat.value in fileFormats
  {
    if pandoc.None? then Err(BinaryNotFound)
    else match InputFormat(t.scope, score)
      case None => Err(NoInputFormat)
      case Some(iformat) =>
        var oformat := Get(t.arguments, ToShort, ToLong);
        var args := TargetArguments(t.arguments);
        var prefix := [pandoc.value, "-f", iformat];
        if oformat.Some? && oformat.value in fileFormats then
          match Get(args, OutputShort, OutputLong)
          case Some(p) => Ok(Invocation(prefix + args, oformat, Some(p)))
          case None =>
            var path := SynthesizedPath(t, oformat.value, base, tempName);
            Ok(Invocation(prefix + args + ["-o", path], oformat, Some(path)))
        else Ok(Invocation(prefix + args, oformat, None))
  }

  /** The command stops exactly when the binary is missing or no selector scores. */
  lemma AssembleFailures(pandoc: Option<string>, t: Transformation, score: string -> nat,
                         fileFormats: set<string>, base: Option<string>, tempName: string)
    ensures Assemble(pandoc, t, score, fileFormats, base, tempName) == Err(BinaryNotFound) <==> pandoc.None?
    ensures Assemble(pandoc, t, score, fileFormats, base, tempName) == Err(NoInputFormat)
        <==> pandoc.Some? && forall j | 0 <= j < |t.scope| :: score(t.scope[j].0) == 0
  {
    InputFormatIsFirstMax(t.scope, score);
  }

  /**
   * A successful command line is the binary, `-f` with the earliest best
   * input format, then the configured arguments with the PDF exception
   * applied, then possibly an appended `-o path`; and the converter reads back
   * the input format it was given.
   */
  lemma AssembleCommandLine(pandoc: Option<string>, t: Transformation, score: string -> nat,
                            fileFormats: set<string>, base: Option<string>, tempName: string, i: int)
    requires FirstMaxAt(t.scope, score, i)
    requires pandoc.Some?
    ensures Assemble(pandoc, t, score, fileFormats, base, tempName).Ok?
    ensures var inv := Assemble(pandoc, t, score, fileFormats, base, tempName).value;
      && |inv.command| >= 3
      && inv.command[..3] == [pandoc.value, "-f", t.scope[i].1]
      && Get(inv.command[1..], ["f"], ["from", "read"]) == Some(t.scope[i].1)
      && inv.outputFormat == Get(t.arguments, ToShort, ToLong)
  {
    InputFormatIsFirstMax(t.scope, score);
    var iformat := t.scope[i].1;
    assert InputFormat(t.scope, score) == Some(iformat);
    var inv := Assemble(pandoc, t, score, fileFormats, base, tempName).value;
    var prefix := [pandoc.value, "-f", iformat];
    var tail := inv.command[3..];
    assert inv.command == prefix + tail by {
      var oformat := Get(t.arguments, ToShort, ToLong);
      var args := TargetArguments(t.arguments);
      if oformat.Some? && oformat.value in fileFormats && Get(args, OutputShort, OutputLong).None? {
        var path := SynthesizedPath(t, oformat.value, base, tempName);
        assert inv.command == prefix + (args + ["-o", path]);
      } else {
        assert inv.command == prefix + args;
      }
    }
    assert inv.command[1..] == ["-f", iformat] + tail;
    assert IsShortFlag("-f", ["f"]) by {
      assert "-f" == "-" + ["f"][0];
    }
    GetAfterFlag("-f", iformat, tail, ["f"], ["from", "read"]);
  }

  /**
   * `-o path` is appended exactly when the output format is a file format and
   * the arguments (after the PDF exception) name no output file; the path is
   * then the synthesized one. Otherwise the arguments go through unchanged.
   */
  lemma AssembleOutputRule(pandoc: Option<string>, t: Transformation, score: string -> nat,
                           fileFormats: set<string>, base: Option<string>, tempName: string)
    requires Assemble(pandoc, t, score, fileFormats, base, tempName).Ok?
    ensures var inv := Assemble(pandoc, t, score, fileFormats, base, tempName).value;
      var args := TargetArguments(t.arguments);
      var oformat := Get(t.arguments, ToShort, ToLong);
      var fileBased := oformat.Some? && oformat.value in fileFormats;
      && (inv.outputPath.Some? <==> fileBased)
      && (fileBased && Get(args, OutputShort, OutputLong).None?
          ==> && inv.outputPath == Some(SynthesizedPath(t, oformat.value, base, tempName))
              && inv.command[3..] == args + ["-o", inv.outputPath.value])
      && (fileBased && Get(args, OutputShort, OutputLong).Some?
          ==> inv.outputPath == Get(args, OutputShort, OutputLong) && inv.command[3..] == args)
      && (!fileBased ==> inv.command[3..] == args)
  {
  }

  /**
   * When the output format is `pdf`, the output format stays `pdf`, so a
   * synthesized path ends in `.pdf` unless `out-ext` says otherwise; and the
   * arguments of a well-formed configuration lose every
   * `-t`/`-w`/`--to=`/`--write=` option.
   */
  lemma PdfException(pandoc: Option<string>, t: Transformation, score: string -> nat,
                     fileFormats: set<string>, base: Option<string>, tempName: string)
    requires Get(t.arguments, ToShort, ToLong) == Some("pdf")
    ensures WellFormed(t.arguments, ToShort, ToLong) ==> Get(TargetArguments(t.arguments), ToShort, ToLong) == None
    ensures WellFormed(t.arguments, ToShort, ToLong) ==>
      forall k | 0 <= k < |TargetArguments(t.arguments)| :: !Matches(TargetArguments(t.arguments)[k], ToShort, ToLong)
    ensures Assemble(pandoc, t, score, fileFormats, base, tempName).Ok? ==>
      var inv := Assemble(pandoc, t, score, fileFormats, base, tempName).value;
      && inv.outputFormat == Some("pdf")
      && ("pdf" in fileFormats && Get(TargetArguments(t.arguments), OutputShort, OutputLong).None? && t.outExt.None?
          ==> inv.outputPath == Some(SynthesizedPath(t, "pdf", base, tempName))
              && inv.outputPath.value[|inv.outputPath.value| - 4..] == ".pdf")
  {
    if WellFormed(t.arguments, ToShort, ToLong) {
      RemoveFilteredThenGetNone(t.arguments, ToShort, ToLong, Some(["pdf"]));
    }
    var p := SynthesizedPath(t, "pdf", base, tempName);
    var stem := if t.outLocal && base.Some? && base.value != "" then base.value else tempName;
    if t.outExt.None? {
      assert p == stem + ".pdf";
      assert p[|stem|..] == ".pdf";
    }
  }

  /**
   * The file the plugin opens afterwards is the file the converter is told to
   * write: `get` on the final arguments finds the recorded output path,
   * unless the arguments end in a dangling output flag.
   */
  lemma OutputPathReadBack(pandoc: Option<string>, t: Transformation, score: string -> nat,
                           fileFormats: set<string>, base: Option<string>, tempName: string)
    requires Assemble(pandoc, t, score, fileFormats, base, tempName).Ok?
    requires forall k | 0 <= k < |TargetArguments(t.arguments)| :: !Matches(TargetArguments(t.arguments)[k], OutputShort, OutputLong)
    ensures var inv := Assemble(pandoc, t, score, fileFormats, base, tempName).value;
      inv.outputPath.Some? ==> Get(inv.command[3..], OutputShort, OutputLong) == inv.outputPath
  {
    var inv := Assemble(pandoc, t, score, fileFormats, base, tempName).value;
    var args := TargetArguments(t.arguments);
    GetFirstMatch(args, OutputShort, OutputLong);
    if inv.outputPath.Some? {
      var p := inv.outputPath.value;
      assert inv.command[3..] == args + ["-o", p];
      GetSkipUnmatched(args, ["-o", p], OutputShort, OutputLong);
      assert "-o" == "-" + OutputShort[0];
      assert Get(["-o", p], OutputShort, OutputLong) == GetFrom([p], OutputShort, OutputLong, true);
    }
  }
}
