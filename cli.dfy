/**
 * `parse_cli`: the command line scan of src/cli.c and its validation rules.
 * `args` is `argv` (element 0 is the program name); strings are compared
 * whole, as `strcmp(...) == 0` does.
 */
module Cli {
  import opened Wrappers

  /** include/cli.h:9-18. */
  datatype Mode = Compress | Decompress | Encrypt | Decrypt | Search | Sort | Help | Invalid

  /**
   * The `Options` record. `debug` is the `debug_mode` field that src/cli.c
   * sets although include/cli.h does not declare it.
   */
  datatype Options = Options(
    mode: Mode,
    inputFile: Option<string>,
    outputFile: Option<string>,
    key: Option<string>,
    searchTerm: Option<string>,
    debug: bool)

  /** Why `parse_cli` returns NULL: no arguments, or one of the four validation messages. */
  datatype CliError = NoArguments | InputRequired | OutputRequired | KeyRequired | SearchTermRequired

  /** Lines 20-25: the fields before any argument is read. */
  const Defaults := Options(Invalid, None, None, None, None, false)

  /** The mode a mode flag selects, if the argument is one. */
  function ModeFlag(a: string): Option<Mode> {
    if a == "--compress" then Some(Compress)
    else if a == "--decompress" then Some(Decompress)
    else if a == "--encrypt" then Some(Encrypt)
    else if a == "--decrypt" then Some(Decrypt)
    else if a == "--search" then Some(Search)
    else if a == "--sort" then Some(Sort)
    else if a == "--help" then Some(Help)
    else None
  }

  /** The four options that take the next argument as their value. */
  predicate IsValueFlag(a: string) {
    a == "-i" || a == "-o" || a == "-k" || a == "-s"
  }

  /** The field a value flag sets. */
  function Value(o: Options, flag: string): Option<string>
    requires IsValueFlag(flag)
  {
    if flag == "-i" then o.inputFile
    else if flag == "-o" then o.outputFile
    else if flag == "-k" then o.key
    else o.searchTerm
  }

  /** `o` with the field of a value flag set to `v`. */
  function SetValue(o: Options, flag: string, v: string): (r: Options)
    requires IsValueFlag(flag)
    ensures Value(r, flag) == Some(v)
    ensures forall f :: IsValueFlag(f) && f != flag ==> Value(r, f) == Value(o, f)
    ensures r.mode == o.mode && r.debug == o.debug
  {
    if flag == "-i" then o.(inputFile := Some(v))
    else if flag == "-o" then o.(outputFile := Some(v))
    else if flag == "-k" then o.(key := Some(v))
    else o.(searchTerm := Some(v))
  }

  /**
   * Lines 28-54: the options after scanning `args` from `o`. A value flag
   * takes the next argument only when there is one; a dangling value flag
   * and any unknown argument are skipped.
   */
  function Scan(args: seq<string>, o: Options): Options
    decreases |args|
  {
    if args == [] then o
    else if ModeFlag(args[0]).Some? then Scan(args[1..], o.(mode := ModeFlag(args[0]).value))
    else if args[0] == "--debug" then Scan(args[1..], o.(debug := true))
    else if IsValueFlag(args[0]) && |args| > 1 then Scan(args[2..], SetValue(o, args[0], args[1]))
    else Scan(args[1..], o)
  }

  /** Lines 57-80: the checks in the order the code makes them. */
  function Validate(o: Options): Result<Options, CliError> {
    if o.mode != Help && o.inputFile.None? then Err(InputRequired)
    else if (o.mode == Compress || o.mode == Encrypt || o.mode == Decrypt || o.mode == Sort) && o.outputFile.None?
    then Err(OutputRequired)
    else if (o.mode == Encrypt || o.mode == Decrypt) && o.key.None? then Err(KeyRequired)
    else if o.mode == Search && o.searchTerm.None? then Err(SearchTermRequired)
    else Ok(o)
  }

  /** What `parse_cli` returns: an error (NULL) or the options. */
  function ParseSpec(args: seq<string>): Result<Options, CliError> {
    if |args| < 2 then Err(NoArguments) else Validate(Scan(args[1..], Defaults))
  }

  /** `parse_cli`: the loop updates the option record in place, then the checks run. */
  method ParseCli(args: seq<string>) returns (r: Result<Options, CliError>)
    ensures r == ParseSpec(args)
  {
    if |args| < 2 {
      return Err(NoArguments);
    }
    var opts := Defaults;
    var i := 1;
    while i < |args|
      invariant 1 <= i <= |args|
      invariant Scan(args[1..], Defaults) == Scan(args[i..], opts)
      decreases |args| - i
    {
      assert args[i..][0] == args[i] && args[i..][1..] == args[i + 1..];
      if args[i] == "--compress" {
        opts := opts.(mode := Compress);
      } else if args[i] == "--decompress" {
        opts := opts.(mode := Decompress);
      } else if args[i] == "--encrypt" {
        opts := opts.(mode := Encrypt);
      } else if args[i] == "--decrypt" {
        opts := opts.(mode := Decrypt);
      } else if args[i] == "--search" {
        opts := opts.(mode := Search);
      } else if args[i] == "--sort" {
        opts := opts.(mode := Sort);
      } else if args[i] == "--help" {
        opts := opts.(mode := Help);
      } else if args[i] == "--debug" {
        opts := opts.(debug := true);
      } else if args[i] == "-i" && i + 1 < |args| {
        assert args[i..][1] == args[i + 1] && args[i..][2..] == args[i + 2..];
        i := i + 1;
        opts := opts.(inputFile := Some(args[i]));
      } else if args[i] == "-o" && i + 1 < |args| {
        assert args[i..][1] == args[i + 1] && args[i..][2..] == args[i + 2..];
        i := i + 1;
        opts := opts.(outputFile := Some(args[i]));
      } else if args[i] == "-k" && i + 1 < |args| {
        assert args[i..][1] == args[i + 1] && args[i..][2..] == args[i + 2..];
        i := i + 1;
        opts := opts.(key := Some(args[i]));
      } else if args[i] == "-s" && i + 1 < |args| {
        assert args[i..][1] == args[i + 1] && args[i..][2..] == args[i + 2..];
        i := i + 1;
        opts := opts.(searchTerm := Some(args[i]));
      }
      i := i + 1;
    }
    assert args[i..] == [];
    if opts.mode != Help && opts.inputFile.None? {
      return Err(InputRequired);
    }
    if (opts.mode == Compress || opts.mode == Encrypt || opts.mode == Decrypt || opts.mode == Sort) && opts.outputFile.None? {
      return Err(OutputRequired);
    }
    if (opts.mode == Encrypt || opts.mode == Decrypt) && opts.key.None? {
      return Err(KeyRequired);
    }
    if opts.mode == Search && opts.searchTerm.None? {
      return Err(SearchTermRequired);
    }
    return Ok(opts);
  }

  /** `args` scans to its end without a value flag waiting for its value. */
  predicate Closed(args: seq<string>)
    decreases |args|
  {
    if args == [] then true
    else if IsValueFlag(args[0]) then |args| > 1 && Closed(args[2..])
    else Closed(args[1..])
  }

  /** Scanning two pieces in turn is scanning their concatenation, when the first is closed. */
  lemma {:induction false} ScanConcat(a: seq<string>, b: seq<string>, o: Options)
    requires Closed(a)
    ensures Scan(a + b, o) == Scan(b, Scan(a, o))
    decreases |a|
  {
    if a == [] {
      assert a + b == b;
    } else {
      var ab := a + b;
      assert ab[0] == a[0] && ab[1..] == a[1..] + b;
      if ModeFlag(a[0]).Some? {
        ScanConcat(a[1..], b, o.(mode := ModeFlag(a[0]).value));
      } else if a[0] == "--debug" {
        ScanConcat(a[1..], b, o.(debug := true));
      } else if IsValueFlag(a[0]) {
        assert ab[1] == a[1] && ab[2..] == a[2..] + b;
        ScanConcat(a[2..], b, SetValue(o, a[0], a[1]));
      } else {
        ScanConcat(a[1..], b, o);
      }
    }
  }

  /** Without a mode flag anywhere in `b`, scanning `b` keeps the mode. */
  lemma {:induction false} ScanKeepsMode(b: seq<string>, o: Options)
    requires forall k :: 0 <= k < |b| ==> ModeFlag(b[k]).None?
    ensures Scan(b, o).mode == o.mode
    decreases |b|
  {
    if b != [] {
      assert forall k :: 0 <= k < |b[1..]| ==> b[1..][k] == b[k + 1];
      if IsValueFlag(b[0]) && |b| > 1 {
        assert forall k :: 0 <= k < |b[2..]| ==> b[2..][k] == b[k + 2];
        ScanKeepsMode(b[2..], SetValue(o, b[0], b[1]));
      } else if b[0] == "--debug" {
        ScanKeepsMode(b[1..], o.(debug := true));
      } else {
        ScanKeepsMode(b[1..], o);
      }
    }
  }

  /** Without `flag` anywhere in `b`, scanning `b` keeps that flag's field. */
  lemma {:induction false} ScanKeepsValue(b: seq<string>, flag: string, o: Options)
    requires IsValueFlag(flag) && flag !in b
    ensures Value(Scan(b, o), flag) == Value(o, flag)
    decreases |b|
  {
    if b != [] {
      assert b == [b[0]] + b[1..];
      if ModeFlag(b[0]).Some? {
        ScanKeepsValue(b[1..], flag, o.(mode := ModeFlag(b[0]).value));
      } else if b[0] == "--debug" {
        ScanKeepsValue(b[1..], flag, o.(debug := true));
      } else if IsValueFlag(b[0]) && |b| > 1 {
        assert b[1..] == [b[1]] + b[2..];
        ScanKeepsValue(b[2..], flag, SetValue(o, b[0], b[1]));
      } else {
        ScanKeepsValue(b[1..], flag, o);
      }
    }
  }

  /** A later mode flag overrides every earlier one. */
  lemma LastModeWins(a: seq<string>, f: string, b: seq<string>, o: Options)
    requires Closed(a) && ModeFlag(f).Some?
    requires forall k :: 0 <= k < |b| ==> ModeFlag(b[k]).None?
    ensures Scan(a + [f] + b, o).mode == ModeFlag(f).value
  {
    assert a + [f] + b == a + ([f] + b);
    ScanConcat(a, [f] + b, o);
    var o' := Scan(a, o);
    assert ([f] + b)[0] == f && ([f] + b)[1..] == b;
    ScanKeepsMode(b, o'.(mode := ModeFlag(f).value));
  }

  /** A repeated value flag keeps its last value. */
  lemma LastValueWins(a: seq<string>, flag: string, v: string, b: seq<string>, o: Options)
    requires Closed(a) && IsValueFlag(flag) && flag !in b
    ensures Value(Scan(a + [flag, v] + b, o), flag) == Some(v)
  {
    assert a + [flag, v] + b == a + ([flag, v] + b);
    ScanConcat(a, [flag, v] + b, o);
    var o' := Scan(a, o);
    assert ([flag, v] + b)[0] == flag && ([flag, v] + b)[1] == v && ([flag, v] + b)[2..] == b;
    ScanKeepsValue(b, flag, SetValue(o', flag, v));
  }

  /** An argument that is no flag is skipped. */
  lemma UnknownIgnored(a: seq<string>, u: string, b: seq<string>, o: Options)
    requires Closed(a) && ModeFlag(u).None? && u != "--debug" && !IsValueFlag(u)
    ensures Scan(a + [u] + b, o) == Scan(a + b, o)
  {
    assert a + [u] + b == a + ([u] + b);
    ScanConcat(a, [u] + b, o);
    ScanConcat(a, b, o);
    assert ([u] + b)[0] == u && ([u] + b)[1..] == b;
  }

  /** A value flag in last position, with no value after it, is skipped. */
  lemma DanglingFlagIgnored(a: seq<string>, flag: string, o: Options)
    requires Closed(a) && IsValueFlag(flag)
    ensures Scan(a + [flag], o) == Scan(a, o)
  {
    ScanConcat(a, [flag], o);
    assert [flag][1..] == [];
  }

  /** The modes that need an output file (lines 63-64). */
  predicate WritesOutput(m: Mode) {
    m in {Compress, Encrypt, Decrypt, Sort}
  }

  /** The conditions under which the checks of lines 57-80 all pass. */
  predicate Acceptable(o: Options) {
    && (o.mode == Help || o.inputFile.Some?)
    && (WritesOutput(o.mode) ==> o.outputFile.Some?)
    && (o.mode in {Encrypt, Decrypt} ==> o.key.Some?)
    && (o.mode == Search ==> o.searchTerm.Some?)
  }

  /** Validation passes exactly on acceptable options, which it returns unchanged. */
  lemma ValidateAccepts(o: Options)
    ensures Validate(o).Ok? <==> Acceptable(o)
    ensures Validate(o).Ok? ==> Validate(o).value == o
  {
  }

  /** A failure reports the first check that fails, in the order of the code. */
  lemma ValidateReportsFirstFailure(o: Options)
    ensures Validate(o) == Err(InputRequired) <==> o.mode != Help && o.inputFile.None?
    ensures Validate(o) == Err(OutputRequired) <==>
      (o.mode == Help || o.inputFile.Some?) && WritesOutput(o.mode) && o.outputFile.None?
    ensures Validate(o) == Err(KeyRequired) ==> o.mode in {Encrypt, Decrypt} && o.key.None?
    ensures Validate(o) == Err(SearchTermRequired) ==> o.mode == Search && o.searchTerm.None?
    ensures Validate(o) != Err(NoArguments)
  {
  }

  /** Per mode, which options are needed: help needs none; decompress and no mode only an input file. */
  lemma ModeRequirements(o: Options)
    ensures o.mode == Help ==> Validate(o).Ok?
    ensures o.mode in {Decompress, Invalid} ==> (Validate(o).Ok? <==> o.inputFile.Some?)
    ensures o.mode == Search ==> (Validate(o).Ok? <==> o.inputFile.Some? && o.searchTerm.Some?)
    ensures o.mode in {Compress, Sort} ==> (Validate(o).Ok? <==> o.inputFile.Some? && o.outputFile.Some?)
    ensures o.mode in {Encrypt, Decrypt} ==>
      (Validate(o).Ok? <==> o.inputFile.Some? && o.outputFile.Some? && o.key.Some?)
  {
  }

  /** With no mode flag on the line, the result is MODE_INVALID and it passes whenever `-i` was given. */
  lemma NoModeFlagAccepted(args: seq<string>)
    requires |args| >= 2
    requires forall k :: 1 <= k < |args| ==> ModeFlag(args[k]).None?
    ensures ParseSpec(args).Ok? <==> Scan(args[1..], Defaults).inputFile.Some?
    ensures ParseSpec(args).Ok? ==> ParseSpec(args).value.mode == Invalid
  {
    assert forall k :: 0 <= k < |args[1..]| ==> args[1..][k] == args[k + 1];
    ScanKeepsMode(args[1..], Defaults);
  }

  /** Fewer than two arguments (only the program name) is an error, whatever it is. */
  lemma NoArgumentsRejected(args: seq<string>)
    ensures ParseSpec(args) == Err(NoArguments) <==> |args| < 2
  {
    if |args| >= 2 {
      ValidateReportsFirstFailure(Scan(args[1..], Defaults));
    }
  }
}
