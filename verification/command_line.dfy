/**
 * The command line of the `floyd` tool: splitting a command string into
 * arguments, decoding the option flags into compiler settings, and turning
 * the parsed subcommand into a command.
 */
module CommandLine {
  import opened Wrappers

  //////////////////////////////////////////////////  string_to_args

  /** The state of the argument splitter: the finished arguments, the one being read, and whether a quote is open. */
  datatype SplitState = SplitState(result: seq<string>, acc: string, inQuote: bool)

  const StartState := SplitState([], "", false)

  /** The argument being read is finished: it is added when it is not empty. */
  function Flush(result: seq<string>, acc: string): seq<string> {
    if acc != "" then result + [acc] else result
  }

  /**
   * One character of the splitter: a quote closes (finishing the argument)
   * or opens quoting; a space inside quotes is kept and outside finishes
   * the argument; any other character is kept.
   */
  function Step(st: SplitState, ch: char): SplitState {
    if ch == '"' then
      if st.inQuote then SplitState(Flush(st.result, st.acc), "", false)
      else SplitState(st.result, st.acc, true)
    else if ch == ' ' then
      if st.inQuote then SplitState(st.result, st.acc + [ch], true)
      else SplitState(Flush(st.result, st.acc), "", false)
    else SplitState(st.result, st.acc + [ch], st.inQuote)
  }

  /** The arguments the splitter produces for the rest `s` of the input, from state `st`. */
  function SplitFrom(s: string, st: SplitState): seq<string>
    decreases |s|
  {
    if s == [] then Flush(st.result, st.acc)
    else SplitFrom(s[1..], Step(st, s[0]))
  }

  /** `string_to_args` as the splitter run over the whole input. */
  function Args(s: string): seq<string> {
    SplitFrom(s, StartState)
  }

  /** `string_to_args`: the input read one character at a time. */
  method StringToArgs(s: string) returns (result: seq<string>)
    ensures result == Args(s)
  {
    result := [];
    var acc := "";
    var inQuote := false;
    var pos := 0;
    while pos < |s|
      invariant 0 <= pos <= |s|
      invariant SplitFrom(s[pos..], SplitState(result, acc, inQuote)) == Args(s)
    {
      var ch := s[pos];
      assert s[pos..][1..] == s[pos + 1..];
      if ch == '"' {
        if inQuote {
          if acc != "" {
            result := result + [acc];
            acc := "";
          }
          inQuote := false;
        } else {
          inQuote := true;
        }
      } else if ch == ' ' {
        if inQuote {
          acc := acc + [ch];
        } else {
          if acc != "" {
            result := result + [acc];
            acc := "";
          }
        }
      } else {
        acc := acc + [ch];
      }
      pos := pos + 1;
    }
    if acc != "" {
      result := result + [acc];
    }
  }

  /** No quote character anywhere in `t`. */
  predicate QuoteFree(t: string) {
    forall i :: 0 <= i < |t| ==> t[i] != '"'
  }

  /** What the splitter keeps true: every finished argument is non-empty and quote-free, and so is the pending one. */
  predicate Clean(st: SplitState) {
    (forall k :: 0 <= k < |st.result| ==> st.result[k] != "" && QuoteFree(st.result[k])) &&
    QuoteFree(st.acc)
  }

  /** Without quotes in the input, no argument holds a space. */
  predicate SpaceFree(st: SplitState) {
    !st.inQuote &&
    (forall k :: 0 <= k < |st.result| ==> ' ' !in st.result[k]) && ' ' !in st.acc
  }

  lemma {:induction false} SplitFromClean(s: string, st: SplitState)
    requires Clean(st)
    ensures forall k :: 0 <= k < |SplitFrom(s, st)| ==> SplitFrom(s, st)[k] != "" && QuoteFree(SplitFrom(s, st)[k])
  {
    if s != [] {
      SplitFromClean(s[1..], Step(st, s[0]));
    }
  }

  lemma {:induction false} SplitFromSpaceFree(s: string, st: SplitState)
    requires SpaceFree(st) && '"' !in s
    ensures forall k :: 0 <= k < |SplitFrom(s, st)| ==> ' ' !in SplitFrom(s, st)[k]
  {
    if s != [] {
      assert s[0] != '"';
      assert forall i :: 1 <= i < |s| ==> s[i] == s[1..][i - 1];
      SplitFromSpaceFree(s[1..], Step(st, s[0]));
    }
  }

  /**
   * The arguments are never empty and never hold a quote character, and
   * without quotes in the input no argument holds a space.
   */
  lemma ArgsShape(s: string)
    ensures forall k :: 0 <= k < |Args(s)| ==> Args(s)[k] != "" && QuoteFree(Args(s)[k])
    ensures '"' !in s ==> forall k :: 0 <= k < |Args(s)| ==> ' ' !in Args(s)[k]
  {
    SplitFromClean(s, StartState);
    if '"' !in s {
      SplitFromSpaceFree(s, StartState);
    }
  }

  /** A run of ordinary characters (no quote, and no space unless quoted) is appended to the pending argument. */
  lemma {:induction false} SplitChunk(w: string, rest: string, st: SplitState)
    requires QuoteFree(w) && (st.inQuote || ' ' !in w)
    ensures SplitFrom(w + rest, st) == SplitFrom(rest, SplitState(st.result, st.acc + w, st.inQuote))
  {
    if w != [] {
      assert (w + rest)[0] == w[0] && (w + rest)[1..] == w[1..] + rest;
      assert w[0] != '"' && (st.inQuote || w[0] != ' ');
      assert st.acc + w == (st.acc + [w[0]]) + w[1..];
      SplitChunk(w[1..], rest, SplitState(st.result, st.acc + [w[0]], st.inQuote));
    } else {
      assert w + rest == rest && st.acc + w == st.acc;
    }
  }

  /** One step of the splitter on the first character. */
  lemma SplitOne(ch: char, rest: string, st: SplitState)
    ensures SplitFrom([ch] + rest, st) == SplitFrom(rest, Step(st, ch))
  {
    assert ([ch] + rest)[1..] == rest;
  }

  /** An ordinary word: not empty, with no quote and no space. */
  predicate PlainWord(w: string) {
    w != [] && QuoteFree(w) && ' ' !in w
  }

  /** A last word followed by a space, outside quotes, is the last argument. */
  lemma SplitLastWord(w: string, done: seq<string>)
    requires PlainWord(w)
    ensures SplitFrom(w + [' '], SplitState(done, "", false)) == done + [w]
  {
    SplitChunk(w, [' '], SplitState(done, "", false));
    assert [] + w == w;
    SplitOne(' ', [], SplitState(done, w, false));
    assert [' '] == [' '] + [];
  }

  /** Nothing but spaces (possibly none). */
  predicate Spaces(sp: string) {
    forall i :: 0 <= i < |sp| ==> sp[i] == ' '
  }

  /** Spaces outside quotes, with no argument pending, add nothing. */
  lemma {:induction false} SkipSpaces(sp: string, rest: string, done: seq<string>)
    requires Spaces(sp)
    ensures SplitFrom(sp + rest, SplitState(done, "", false)) == SplitFrom(rest, SplitState(done, "", false))
  {
    if sp != [] {
      assert (sp + rest)[0] == ' ' && (sp + rest)[1..] == sp[1..] + rest;
      SkipSpaces(sp[1..], rest, done);
    } else {
      assert sp + rest == rest;
    }
  }

  /** A plain word, then spaces (possibly none) to the end, finishes as one last argument. */
  lemma LastWord(w: string, sp: string, done: seq<string>)
    requires PlainWord(w) && Spaces(sp)
    ensures SplitFrom(w + sp, SplitState(done, "", false)) == done + [w]
  {
    SplitChunk(w, sp, SplitState(done, "", false));
    assert "" + w == w;
    if sp != [] {
      assert sp == [' '] + sp[1..];
      SplitOne(' ', sp[1..], SplitState(done, w, false));
      SkipSpaces(sp[1..], [], SplitState(done + [w], "", false).result);
      assert sp[1..] + [] == sp[1..];
    }
  }

  /** A single word with any spaces around it is one argument. */
  lemma ArgsOneWord(s0: string, w: string, s1: string)
    requires Spaces(s0) && PlainWord(w) && Spaces(s1)
    ensures Args(s0 + (w + s1)) == [w]
  {
    SkipSpaces(s0, w + s1, []);
    LastWord(w, s1, []);
  }

  /**
   * Two words with any spaces before, between (at least one) and after
   * them are split into those two words.
   */
  lemma ArgsTwoWords(s0: string, w1: string, s1: string, w2: string, s2: string)
    requires Spaces(s0) && PlainWord(w1) && Spaces(s1) && s1 != [] && PlainWord(w2) && Spaces(s2)
    ensures Args(s0 + (w1 + (s1 + (w2 + s2)))) == [w1, w2]
  {
    var rest := s1 + (w2 + s2);
    SkipSpaces(s0, w1 + rest, []);
    SplitChunk(w1, rest, StartState);
    assert [] + w1 == w1;
    SpaceThenWord(w1, s1, w2 + s2);
    LastWord(w2, s2, [w1]);
  }

  /** The spaces ending the first word close it and are then skipped. */
  lemma SpaceThenWord(w1: string, s1: string, rest: string)
    requires w1 != [] && Spaces(s1) && s1 != []
    ensures SplitFrom(s1 + rest, SplitState([], w1, false)) == SplitFrom(rest, SplitState([w1], "", false))
  {
    assert s1 + rest == [' '] + (s1[1..] + rest);
    SplitOne(' ', s1[1..] + rest, SplitState([], w1, false));
    assert [] + [w1] == [w1];
    SkipSpaces(s1[1..], rest, [w1]);
  }

  /**
   * A quoted argument keeps its spaces and loses its quotes: a word, a
   * quoted text and a word, each followed by a space, are three arguments.
   */
  lemma ArgsQuotedMiddle(w1: string, q: string, w3: string)
    requires PlainWord(w1) && PlainWord(w3) && q != [] && QuoteFree(q)
    ensures Args(w1 + ([' ', '"'] + (q + (['"', ' '] + (w3 + [' ']))))) == [w1, q, w3]
  {
    var rest := q + (['"', ' '] + (w3 + [' ']));
    SplitChunk(w1, [' ', '"'] + rest, StartState);
    assert [] + w1 == w1;
    assert [' ', '"'] + rest == [' '] + ([ '"'] + rest);
    SplitOne(' ', ['"'] + rest, SplitState([], w1, false));
    assert [] + [w1] == [w1];
    SplitOne('"', rest, SplitState([w1], "", false));
    SplitChunk(q, ['"', ' '] + (w3 + [' ']), SplitState([w1], "", true));
    assert [] + q == q;
    assert ['"', ' '] + (w3 + [' ']) == ['"'] + ([' '] + (w3 + [' ']));
    SplitOne('"', [' '] + (w3 + [' ']), SplitState([w1], q, true));
    assert [w1] + [q] == [w1, q];
    SplitOne(' ', w3 + [' '], SplitState([w1, q], "", false));
    SplitLastWord(w3, [w1, q]);
    assert [w1, q] + [w3] == [w1, q, w3];
  }

  /** The documented examples with one word, none, or a quoted argument. */
  lemma ArgsExamples()
    ensures Args("") == []
    ensures Args("one") == ["one"]
    ensures Args("one \"two 2\" three ") == ["one", "two 2", "three"]
  {
    assert PlainWord("one") && PlainWord("three");
    assert QuoteFree("two 2");
    ArgsOneWord("", "one", "");
    assert "one" == "" + ("one" + "");
    ArgsQuotedMiddle("one", "two 2", "three");
    assert "one \"two 2\" three " == "one" + ([' ', '"'] + ("two 2" + (['"', ' '] + ("three" + [' ']))));
  }

  /** The documented examples of two words with different spacing. */
  lemma ArgsSpacingExamples()
    ensures Args("one two") == ["one", "two"]
    ensures Args(" one two") == ["one", "two"]
    ensures Args("one  two") == ["one", "two"]
    ensures Args("one two ") == ["one", "two"]
  {
    assert PlainWord("one") && PlainWord("two");
    assert Spaces("") && Spaces(" ") && Spaces("  ");
    ArgsTwoWords("", "one", " ", "two", "");
    assert "one two" == "" + ("one" + (" " + ("two" + "")));
    ArgsTwoWords(" ", "one", " ", "two", "");
    assert " one two" == " " + ("one" + (" " + ("two" + "")));
    ArgsTwoWords("", "one", "  ", "two", "");
    assert "one  two" == "" + ("one" + ("  " + ("two" + "")));
    ArgsTwoWords("", "one", " ", "two", " ");
    assert "one two " == "" + ("one" + (" " + ("two" + " ")));
  }

  //////////////////////////////////////////////////  Flags and settings

  /** `flag_info_t`: a flag on its own, or a flag with its parameter (`-O3`, `-vcarray`). */
  datatype FlagKind = SimpleFlag | FlagWithParameter
  datatype FlagInfo = FlagInfo(kind: FlagKind, parameter: string)

  type Flags = map<string, FlagInfo>

  datatype OutputType = ParseTree | Ast | Ir | ObjectFile
  datatype OptimizationLevel = NoOptimizationsDebug | O1 | O2 | O3
  datatype VectorBackend = VectorHamt | VectorCarray
  datatype DictBackend = DictHamt | DictCppmap
  datatype Backend = Llvm | Bytecode

  /** `get_output_type`: `-p` before `-a` before `-i`, and an object file without any of them. */
  function GetOutputType(flags: Flags): (r: OutputType)
    ensures r == ParseTree <==> "p" in flags
    ensures r == Ast <==> "p" !in flags && "a" in flags
    ensures r == Ir <==> "p" !in flags && "a" !in flags && "i" in flags
    ensures r == ObjectFile <==> "p" !in flags && "a" !in flags && "i" !in flags
  {
    if "p" in flags then ParseTree
    else if "a" in flags then Ast
    else if "i" in flags then Ir
    else ObjectFile
  }

  /** `get_optimization_level`: `-g` wins; otherwise `-O1`..`-O3`, any other `-O` parameter throws, and O2 by default. */
  function GetOptimizationLevel(flags: Flags): (r: Result<OptimizationLevel>)
    ensures "g" in flags ==> r == Success(NoOptimizationsDebug)
    ensures "g" !in flags && "O" !in flags ==> r == Success(O2)
    ensures "g" !in flags && "O" in flags ==>
              (r.Success? <==> flags["O"] in {FlagInfo(FlagWithParameter, "1"), FlagInfo(FlagWithParameter, "2"), FlagInfo(FlagWithParameter, "3")})
    ensures "g" !in flags && "O" in flags && flags["O"] == FlagInfo(FlagWithParameter, "1") ==> r == Success(O1)
    ensures "g" !in flags && "O" in flags && flags["O"] == FlagInfo(FlagWithParameter, "2") ==> r == Success(O2)
    ensures "g" !in flags && "O" in flags && flags["O"] == FlagInfo(FlagWithParameter, "3") ==> r == Success(O3)
    ensures r.Success? && r.value == O3 ==> "g" !in flags && flags["O"] == FlagInfo(FlagWithParameter, "3")
  {
    if "g" in flags then Success(NoOptimizationsDebug)
    else if "O" in flags then
      var f := flags["O"];
      if f == FlagInfo(FlagWithParameter, "1") then Success(O1)
      else if f == FlagInfo(FlagWithParameter, "2") then Success(O2)
      else if f == FlagInfo(FlagWithParameter, "3") then Success(O3)
      else Failure("unknown optimization level")
    else Success(O2)
  }

  /** `get_vector_backend`: `-vhamt` or `-vcarray`, any other parameter throws, HAMT by default. */
  function GetVectorBackend(flags: Flags): (r: Result<VectorBackend>)
    ensures "v" !in flags ==> r == Success(VectorHamt)
    ensures r == Success(VectorCarray) <==> "v" in flags && flags["v"] == FlagInfo(FlagWithParameter, "carray")
    ensures r.Failure? <==> "v" in flags && flags["v"] !in {FlagInfo(FlagWithParameter, "hamt"), FlagInfo(FlagWithParameter, "carray")}
  {
    if "v" in flags then
      var f := flags["v"];
      if f == FlagInfo(FlagWithParameter, "hamt") then Success(VectorHamt)
      else if f == FlagInfo(FlagWithParameter, "carray") then Success(VectorCarray)
      else Failure("unknown vector backend")
    else Success(VectorHamt)
  }

  /** `get_dict_backend`: `-dhamt` or `-dcppmap`, any other parameter throws, HAMT by default. */
  function GetDictBackend(flags: Flags): (r: Result<DictBackend>)
    ensures "d" !in flags ==> r == Success(DictHamt)
    ensures r == Success(DictCppmap) <==> "d" in flags && flags["d"] == FlagInfo(FlagWithParameter, "cppmap")
    ensures r.Failure? <==> "d" in flags && flags["d"] !in {FlagInfo(FlagWithParameter, "hamt"), FlagInfo(FlagWithParameter, "cppmap")}
  {
    if "d" in flags then
      var f := flags["d"];
      if f == FlagInfo(FlagWithParameter, "hamt") then Success(DictHamt)
      else if f == FlagInfo(FlagWithParameter, "cppmap") then Success(DictCppmap)
      else Failure("unknown dict backend")
    else Success(DictHamt)
  }

  datatype CompilerSettings = CompilerSettings(vector: VectorBackend, dict: DictBackend, optimization: OptimizationLevel)

  /** `get_compiler_settings`: the three settings, failing when any of them fails. */
  function GetCompilerSettings(flags: Flags): (r: Result<CompilerSettings>)
    ensures r.Success? <==> GetOptimizationLevel(flags).Success? && GetVectorBackend(flags).Success? && GetDictBackend(flags).Success?
    ensures r.Success? ==> r.value == CompilerSettings(GetVectorBackend(flags).value, GetDictBackend(flags).value, GetOptimizationLevel(flags).value)
  {
    var level :- GetOptimizationLevel(flags);
    var vector :- GetVectorBackend(flags);
    var dict :- GetDictBackend(flags);
    Success(CompilerSettings(vector, dict, level))
  }

  /** Without any flags the settings are HAMT vectors, HAMT dicts and default optimisation. */
  lemma DefaultSettings()
    ensures GetCompilerSettings(map[]) == Success(CompilerSettings(VectorHamt, DictHamt, O2))
    ensures GetOutputType(map[]) == ObjectFile
  {
  }

  //////////////////////////////////////////////////  compile arguments

  /** `substr(0, 1) == "-"`: the argument is a flag. */
  predicate IsFlag(a: string) {
    |a| >= 1 && a[0] == '-'
  }

  /** `substr(0, 2) == "-o"`: the argument names the output. */
  predicate IsOutputFlag(a: string) {
    |a| >= 2 && a[..2] == "-o"
  }

  /** The number of leading arguments that are not flags: the source paths. */
  function LeadingSources(args: seq<string>): (n: nat)
    ensures n <= |args|
    ensures forall i :: 0 <= i < n ==> !IsFlag(args[i])
    ensures n < |args| ==> IsFlag(args[n])
  {
    if args == [] || IsFlag(args[0]) then 0 else 1 + LeadingSources(args[1..])
  }

  datatype CompileMore = CompileMore(sourcePaths: seq<string>, outputPath: string, settings: CompilerSettings)

  /** The parsed command line handed to the dispatch: program, subcommand, flags and the remaining arguments. */
  datatype CommandLineArgs = CommandLineArgs(command: string, subcommand: string, flags: Flags, extraArguments: seq<string>)

  /**
   * The arguments of `floyd compile`: source paths, then optionally `-o`
   * and an output path, and nothing else.
   */
  function CompileSpec(args: CommandLineArgs): Result<CompileMore> {
    var a := args.extraArguments;
    if |a| == 0 then Failure("Command requires source file name.")
    else
      var settings :- GetCompilerSettings(args.flags);
      var n := LeadingSources(a);
      if n < |a| && !IsOutputFlag(a[n]) then Failure("Unexpected parameters: \"" + a[n] + "\".")
      else
        var index := if n < |a| then n + 1 else n;
        if index < |a| && IsFlag(a[index]) then Failure("Unexpected flag \"" + a[index] + "\" after source files.")
        else
          var output := if index < |a| then a[index] else "";
          var index2 := if index < |a| then index + 1 else index;
          if index2 < |a| then Failure("Unexpected parameters at end of command line: \"" + a[index2] + "\".")
          else if n == 0 then Failure("No source file provided.")
          else Success(CompileMore(a[..n], output, settings))
  }

  /**
   * A successful compile command line is its sources, none of them a flag,
   * followed by nothing, by `-o`, or by `-o` and the output path.
   */
  lemma CompileSpecShape(args: CommandLineArgs)
    requires CompileSpec(args).Success?
    ensures var r := CompileSpec(args).value;
            var a := args.extraArguments;
            var n := |r.sourcePaths|;
            n > 0 && a[..n] == r.sourcePaths &&
            (forall i :: 0 <= i < n ==> !IsFlag(r.sourcePaths[i])) &&
            ((a == r.sourcePaths && r.outputPath == "") ||
             (|a| == n + 1 && IsOutputFlag(a[n]) && r.outputPath == "") ||
             (|a| == n + 2 && IsOutputFlag(a[n]) && a[n + 1] == r.outputPath && !IsFlag(r.outputPath)))
    ensures CompileSpec(args).value.settings == GetCompilerSettings(args.flags).value
  {
  }

  /** Every list of non-flag sources, with or without `-o path`, is accepted when the flags are. */
  lemma CompileSpecAccepts(args: CommandLineArgs, sources: seq<string>, output: string)
    requires |sources| > 0 && forall i :: 0 <= i < |sources| ==> !IsFlag(sources[i])
    requires GetCompilerSettings(args.flags).Success?
    requires !IsFlag(output)
    ensures args.extraArguments == sources ==>
              CompileSpec(args) == Success(CompileMore(sources, "", GetCompilerSettings(args.flags).value))
    ensures args.extraArguments == sources + ["-o", output] ==>
              CompileSpec(args) == Success(CompileMore(sources, output, GetCompilerSettings(args.flags).value))
  {
    LeadingSourcesOf(sources, []);
    assert sources + [] == sources;
    LeadingSourcesOf(sources, ["-o", output]);
    assert (sources + ["-o", output])[..|sources|] == sources;
  }

  /** Non-flag arguments in front of a list that starts with a flag (or is empty) are counted exactly. */
  lemma {:induction false} LeadingSourcesOf(sources: seq<string>, rest: seq<string>)
    requires forall i :: 0 <= i < |sources| ==> !IsFlag(sources[i])
    requires rest == [] || IsFlag(rest[0])
    ensures LeadingSources(sources + rest) == |sources|
  {
    if sources != [] {
      assert (sources + rest)[1..] == sources[1..] + rest;
      LeadingSourcesOf(sources[1..], rest);
    } else {
      assert sources + rest == rest;
    }
  }

  /** `parse_floyd_compile_command_more`: walks the arguments with an index. */
  method ParseCompileCommandMore(args: CommandLineArgs) returns (r: Result<CompileMore>)
    ensures r == CompileSpec(args)
  {
    var a := args.extraArguments;
    if |a| == 0 {
      return Failure("Command requires source file name.");
    }
    var settings := GetCompilerSettings(args.flags);
    if settings.Failure? {
      return Failure(settings.error);
    }
    var sourcePaths: seq<string> := [];
    var index := 0;
    while index < |a| && !IsFlag(a[index])
      invariant 0 <= index <= LeadingSources(a)
      invariant sourcePaths == a[..index]
      decreases |a| - index
    {
      sourcePaths := sourcePaths + [a[index]];
      index := index + 1;
    }
    assert index == LeadingSources(a);
    if index < |a| {
      if !IsOutputFlag(a[index]) {
        return Failure("Unexpected parameters: \"" + a[index] + "\".");
      }
      index := index + 1;
    }
    var outputPath := "";
    if index < |a| {
      var s := a[index];
      if IsFlag(s) {
        return Failure("Unexpected flag \"" + s + "\" after source files.");
      }
      outputPath := s;
      index := index + 1;
    }
    if index < |a| {
      return Failure("Unexpected parameters at end of command line: \"" + a[index] + "\".");
    }
    if |sourcePaths| == 0 {
      return Failure("No source file provided.");
    }
    return Success(CompileMore(sourcePaths, outputPath, settings.value));
  }

  //////////////////////////////////////////////////  Subcommand dispatch

  datatype BenchMode = ListMode | RunAll | RunSpecified

  /** `command_t`: what the tool was asked to do. */
  datatype Command =
    | Help
    | CompileAndRun(sourcePath: string, floydMainArgs: seq<string>, backend: Backend, settings: CompilerSettings, trace: bool)
    | Compile(sourcePaths: seq<string>, destPath: string, outputType: OutputType, backend: Backend, settings: CompilerSettings, trace: bool)
    | UserBenchmarks(mode: BenchMode, sourcePath: string, benchmarkKeys: seq<string>, backend: Backend, settings: CompilerSettings, trace: bool)
    | Hwcaps(trace: bool)
    | RuntestsInternals(trace: bool)

  /**
   * `parse_floyd_command_line` after the generic argument parser: the
   * subcommand picks the command; `-t` turns on tracing and `-b` selects
   * the bytecode back end. Only `run`, `compile` and `bench` can fail.
   */
  function ParseFloydCommandLine(args: CommandLineArgs): (r: Result<Command>)
    ensures r.Failure? ==> args.subcommand in {"run", "compile", "bench"}
  {
    var trace := "t" in args.flags;
    var backend := if "b" in args.flags then Bytecode else Llvm;
    var outputType := GetOutputType(args.flags);
    var a := args.extraArguments;
    if args.subcommand == "help" then Success(Help)
    else if args.subcommand == "run" then
      if |a| == 0 then Failure("Command requires source file name.")
      else
        var settings :- GetCompilerSettings(args.flags);
        Success(CompileAndRun(a[0], a[1..], backend, settings, trace))
    else if args.subcommand == "compile" then
      var m :- CompileSpec(args);
      Success(Compile(m.sourcePaths, m.outputPath, outputType, backend, m.settings, trace))
    else if args.subcommand == "bench" then
      if |a| == 0 then Failure("Command requires source file name.")
      else
        var settings :- GetCompilerSettings(args.flags);
        if "l" in args.flags then Success(UserBenchmarks(ListMode, a[0], a[1..], backend, settings, trace))
        else if |a| == 1 then Success(UserBenchmarks(RunAll, a[0], [], backend, settings, trace))
        else Success(UserBenchmarks(RunSpecified, a[0], a[1..], backend, settings, trace))
    else if args.subcommand == "hwcaps" then Success(Hwcaps(trace))
    else if args.subcommand == "runtests" then Success(RuntestsInternals(trace))
    else Success(Help)
  }

  /**
   * `run` and `bench` take the first extra argument as the source and the
   * rest as its arguments; the back end is bytecode exactly when `-b` is
   * given and tracing is on exactly when `-t` is.
   */
  lemma RunAndBenchArguments(args: CommandLineArgs)
    requires args.subcommand in {"run", "bench"}
    requires |args.extraArguments| > 0 && GetCompilerSettings(args.flags).Success?
    ensures var r := ParseFloydCommandLine(args);
            r.Success? && (r.value.CompileAndRun? || r.value.UserBenchmarks?) &&
            r.value.sourcePath == args.extraArguments[0] &&
            (r.value.backend == Bytecode <==> "b" in args.flags) &&
            (r.value.trace <==> "t" in args.flags) &&
            (r.value.CompileAndRun? ==> r.value.floydMainArgs == args.extraArguments[1..])
  {
  }

  /** `bench` lists with `-l`, runs everything without keys, and otherwise runs the keys given. */
  lemma BenchModes(args: CommandLineArgs)
    requires args.subcommand == "bench"
    requires |args.extraArguments| > 0 && GetCompilerSettings(args.flags).Success?
    ensures var c := ParseFloydCommandLine(args).value;
            c.UserBenchmarks? &&
            (c.mode == ListMode <==> "l" in args.flags) &&
            (c.mode == RunAll <==> "l" !in args.flags && |args.extraArguments| == 1) &&
            (c.mode == RunSpecified ==> c.benchmarkKeys == args.extraArguments[1..] && c.benchmarkKeys != [])
  {
  }

  /** A subcommand the tool does not know gives the help command. */
  lemma UnknownSubcommandIsHelp(args: CommandLineArgs)
    requires args.subcommand !in {"run", "compile", "bench", "hwcaps", "runtests"}
    ensures ParseFloydCommandLine(args) == Success(Help)
  {
  }
}
