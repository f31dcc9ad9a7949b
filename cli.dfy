/** The command-line driver `main` (pycdas.cpp, lines 62-159): a
    left-to-right scan of the arguments, then the checks on what the scan
    found, the load (from a `.pyc` file, or of a raw code object with an
    explicit version), the banner and the rendering. */
module Cli {
  import opened Text
  import opened Pyc
  import opened Banner
  import Version
  import Embed

  /** Where the output goes: `std::cout`, or the file `-o` opened. */
  datatype Sink = Stdout | OutFile(name: string)

  /** The locals the scan updates: `infile`, `marshalled`, `version`,
      `disasm_flags` and `pyc_output`. */
  datatype ScanState = ScanState(infile: Option<string>, marshalled: bool, version: Option<string>, flags: Flags, sink: Sink)

  const Initial := ScanState(None, false, None, 0, Stdout)

  /** Why the scan returned early from `main`. */
  datatype ScanExit =
    | HelpShown
    | Unrecognized(arg: string)
    | MissingOperand(option: string)
    | OpenFailed(file: string)

  datatype ScanOutcome = Exit(code: int, why: ScanExit) | Done(st: ScanState)

  /** The result of handling the argument at one position. */
  datatype Step = Next(st: ScanState, next: nat) | Stop(code: int, why: ScanExit)

  /** Words the scanner checks for by name; they all start with `-`. */
  const KnownOptions: set<string> := {"-o", "-c", "-v", "--pycode-extra", "--show-caches", "--help", "-h"}

  /** A word taken as the input file: it does not start with `-` (the empty
      word counts, its first character being the terminating NUL). */
  predicate IsPositional(a: string) { a == [] || a[0] != '-' }

  /** Which branch of the loop's `strcmp` chain a word takes, tested in the
      loop's order. */
  datatype ArgKind = OutputOpt | CompiledOpt | VersionOpt | PycodeExtraOpt | ShowCachesOpt | HelpOpt | UnknownOpt | PositionalArg

  function Classify(a: string): (k: ArgKind)
    ensures k == PositionalArg <==> IsPositional(a)
    ensures k == UnknownOpt <==> !IsPositional(a) && a !in KnownOptions
  {
    if a == "-o" then OutputOpt
    else if a == "-c" then CompiledOpt
    else if a == "-v" then VersionOpt
    else if a == "--pycode-extra" then PycodeExtraOpt
    else if a == "--show-caches" then ShowCachesOpt
    else if a == "--help" || a == "-h" then HelpOpt
    else if |a| > 0 && a[0] == '-' then UnknownOpt
    else PositionalArg
  }

  /** One turn of the loop at `argv[arg]`. `openable` holds the names that
      `std::ofstream::open` can open for writing; since every `-o` reuses the
      one `out_file`, opening fails as well when an earlier `-o` already
      opened it. */
  function StepAt(argv: seq<string>, arg: nat, st: ScanState, openable: set<string>): (r: Step)
    requires arg < |argv|
    ensures r.Next? ==> arg < r.next <= arg + 2
  {
    var a := argv[arg];
    match Classify(a)
    case OutputOpt =>
      if arg + 1 < |argv| then
        var filename := argv[arg + 1];
        if st.sink.OutFile? || filename !in openable then Stop(1, OpenFailed(filename))
        else Next(st.(sink := OutFile(filename)), arg + 2)
      else Stop(1, MissingOperand("-o"))
    case CompiledOpt => Next(st.(marshalled := true), arg + 1)
    case VersionOpt =>
      if arg + 1 < |argv| then Next(st.(version := Some(argv[arg + 1])), arg + 2)
      else Stop(1, MissingOperand("-v"))
    case PycodeExtraOpt => Next(st.(flags := WithFlag(st.flags, DisasmPycodeVerbose)), arg + 1)
    case ShowCachesOpt => Next(st.(flags := WithFlag(st.flags, DisasmShowCaches)), arg + 1)
    case HelpOpt => Stop(0, HelpShown)
    case UnknownOpt => Stop(1, Unrecognized(a))
    case PositionalArg => Next(st.(infile := Some(a)), arg + 1)
  }

  /** The loop from position `arg` on. A scan that runs to the end writes
      to the sink it started with or to a file `-o` could open, and keeps an
      input file once one was named. */
  function Run(argv: seq<string>, arg: nat, st: ScanState, openable: set<string>): (r: ScanOutcome)
    ensures r.Done? && r.st.sink != st.sink ==> r.st.sink.OutFile? && r.st.sink.name in openable
    ensures r.Done? && st.infile.Some? ==> r.st.infile.Some?
    ensures r.Done? && st.marshalled ==> r.st.marshalled
    decreases |argv| - arg
  {
    if arg >= |argv| then Done(st)
    else match StepAt(argv, arg, st, openable)
      case Stop(code, why) => Exit(code, why)
      case Next(st', next) => Run(argv, next, st', openable)
  }

  /** The whole scan: `argv[0]` is the program name, the loop starts at 1. */
  function ScanArgs(argv: seq<string>, openable: set<string>): ScanOutcome
  {
    Run(argv, 1, Initial, openable)
  }

  /** One turn of the argument loop at `argv[arg]`: the branch of the
      `strcmp` chain the word takes, with its update of the locals or its
      early return. */
  method Turn(argv: seq<string>, arg: nat, st: ScanState, openable: set<string>) returns (step: Step)
    requires arg < |argv|
    ensures step == StepAt(argv, arg, st, openable)
  {
    var infile, marshalled, version, disasmFlags, sink := st.infile, st.marshalled, st.version, st.flags, st.sink;
    var a := argv[arg];
    match Classify(a) {
      case OutputOpt =>
        if arg + 1 < |argv| {
          var filename := argv[arg + 1];
          if sink.OutFile? || filename !in openable {
            step := Stop(1, OpenFailed(filename));
          } else {
            sink := OutFile(filename);
            step := Next(ScanState(infile, marshalled, version, disasmFlags, sink), arg + 2);
          }
        } else {
          step := Stop(1, MissingOperand("-o"));
        }
      case CompiledOpt =>
        marshalled := true;
        step := Next(ScanState(infile, marshalled, version, disasmFlags, sink), arg + 1);
      case VersionOpt =>
        if arg + 1 < |argv| {
          version := Some(argv[arg + 1]);
          step := Next(ScanState(infile, marshalled, version, disasmFlags, sink), arg + 2);
        } else {
          step := Stop(1, MissingOperand("-v"));
        }
      case PycodeExtraOpt =>
        disasmFlags := WithFlag(disasmFlags, DisasmPycodeVerbose);
        step := Next(ScanState(infile, marshalled, version, disasmFlags, sink), arg + 1);
      case ShowCachesOpt =>
        disasmFlags := WithFlag(disasmFlags, DisasmShowCaches);
        step := Next(ScanState(infile, marshalled, version, disasmFlags, sink), arg + 1);
      case HelpOpt =>
        step := Stop(0, HelpShown);
      case UnknownOpt =>
        step := Stop(1, Unrecognized(a));
      case PositionalArg =>
        infile := Some(a);
        step := Next(ScanState(infile, marshalled, version, disasmFlags, sink), arg + 1);
    }
  }

  /** The argument loop of `main`, with its early returns. */
  method Scan(argv: seq<string>, openable: set<string>) returns (r: ScanOutcome)
    ensures r == ScanArgs(argv, openable)
  {
    var infile: Option<string> := None;
    var marshalled := false;
    var version: Option<string> := None;
    var disasmFlags: Flags := 0;
    var sink := Stdout;
    var arg := 1;
    while arg < |argv|
      invariant arg >= 1
      invariant ScanArgs(argv, openable) == Run(argv, arg, ScanState(infile, marshalled, version, disasmFlags, sink), openable)
      decreases |argv| - arg
    {
      var step := Turn(argv, arg, ScanState(infile, marshalled, version, disasmFlags, sink), openable);
      match step {
        case Stop(code, why) =>
          return Exit(code, why);
        case Next(st, next) =>
          infile, marshalled, version, disasmFlags, sink := st.infile, st.marshalled, st.version, st.flags, st.sink;
          arg := next;
      }
    }
    r := Done(ScanState(infile, marshalled, version, disasmFlags, sink));
  }

  // ---------------------------------------------------------------------
  // What the scan reads, independently of the state it keeps

  /** How the scan groups the arguments: a word read on its own, an option
      together with the argument after it, or an option with nothing after it. */
  datatype Word = Single(text: string) | WithOperand(option: string, operand: string) | Dangling(option: string)

  /** The words the scan reads from position `arg` on, had it not stopped. */
  function Words(argv: seq<string>, arg: nat): (ws: seq<Word>)
    ensures ws == [] <==> arg >= |argv|
    decreases |argv| - arg
  {
    if arg >= |argv| then []
    else if argv[arg] == "-o" || argv[arg] == "-v" then
      if arg + 1 < |argv| then [WithOperand(argv[arg], argv[arg + 1])] + Words(argv, arg + 2)
      else [Dangling(argv[arg])]
    else [Single(argv[arg])] + Words(argv, arg + 1)
  }

  /** What a word contributes to one of the state's strings. */
  datatype Pick = PositionalWord | OperandOf(option: string)

  function Picked(w: Word, p: Pick): Option<string>
  {
    match p
    case PositionalWord => if w.Single? && IsPositional(w.text) then Some(w.text) else None
    case OperandOf(opt) => if w.WithOperand? && w.option == opt then Some(w.operand) else None
  }

  /** The contribution of the last word that makes one. */
  function LastPicked(ws: seq<Word>, p: Pick): Option<string>
  {
    if ws == [] then None
    else if Picked(ws[|ws| - 1], p).Some? then Picked(ws[|ws| - 1], p)
    else LastPicked(ws[..|ws| - 1], p)
  }

  function Latest(newer: Option<string>, older: Option<string>): Option<string>
  {
    if newer.Some? then newer else older
  }

  /** The flag set holding the verbose bit when `verbose` and the caches bit when `caches`. */
  function FlagBits(verbose: bool, caches: bool): Flags
  {
    WithFlag(if verbose then DisasmPycodeVerbose else 0, if caches then DisasmShowCaches else 0)
  }

  /** The bitwise OR of the option bits of the flag words in `ws`. */
  function FlagsOf(ws: seq<Word>): Flags
  {
    FlagBits(Single("--pycode-extra") in ws, Single("--show-caches") in ws)
  }

  /** A word a scan that goes past it must have read: a flag word, a
      positional word, or an option with its operand. Not every such word is
      gone past: an `-o` whose file cannot be opened still stops the scan. */
  predicate Accepted(w: Word)
  {
    w.WithOperand? || (w.Single? && (w.text in {"-c", "--pycode-extra", "--show-caches"} || IsPositional(w.text)))
  }

  lemma {:induction false} LastPickedCons(w: Word, rest: seq<Word>, p: Pick)
    ensures LastPicked([w] + rest, p) == Latest(LastPicked(rest, p), Picked(w, p))
    decreases |rest|
  {
    var ws := [w] + rest;
    if rest == [] {
      assert ws[..|ws| - 1] == [];
    } else {
      assert ws[|ws| - 1] == rest[|rest| - 1];
      assert ws[..|ws| - 1] == [w] + rest[..|rest| - 1];
      LastPickedCons(w, rest[..|rest| - 1], p);
    }
  }

  /** Adding flags is associative, and adding none changes nothing. */
  lemma WithFlagLaws(a: Flags, b: Flags, c: Flags)
    ensures WithFlag(WithFlag(a, b), c) == WithFlag(a, WithFlag(b, c))
    ensures WithFlag(a, 0) == a
    ensures WithFlag(WithFlag(a, b), b) == WithFlag(a, b)
  {
  }

  /** Two flag sets together hold each bit either holds; each bit on its own is one option's. */
  lemma FlagBitsLaws(v1: bool, c1: bool, v2: bool, c2: bool)
    ensures WithFlag(FlagBits(v1, c1), FlagBits(v2, c2)) == FlagBits(v1 || v2, c1 || c2)
    ensures FlagBits(true, false) == DisasmPycodeVerbose
    ensures FlagBits(false, true) == DisasmShowCaches
    ensures FlagBits(false, false) == 0
  {
  }

  /** The flags of a sequence of words are those of its first word and those of the rest. */
  lemma FlagsOfCons(w: Word, rest: seq<Word>)
    ensures FlagsOf([w] + rest) == WithFlag(FlagsOf([w]), FlagsOf(rest))
  {
    var ws := [w] + rest;
    var v, c := Single("--pycode-extra"), Single("--show-caches");
    assert v in ws <==> v in [w] || v in rest;
    assert c in ws <==> c in [w] || c in rest;
    FlagBitsLaws(v in [w], c in [w], v in rest, c in rest);
  }

  /** The flag bit one word sets. */
  lemma FlagsOfSingleton(w: Word)
    ensures FlagsOf([w]) == if w == Single("--pycode-extra") then DisasmPycodeVerbose
                            else if w == Single("--show-caches") then DisasmShowCaches
                            else 0
  {
    var v, c := Single("--pycode-extra"), Single("--show-caches");
    assert v in [w] <==> w == v;
    assert c in [w] <==> w == c;
    assert v != c;
    FlagBitsLaws(false, false, false, false);
  }

  /** One turn that goes on reads one word, which it goes past, and
      changes the state only as that word says. */
  lemma StepWord(argv: seq<string>, arg: nat, st: ScanState, openable: set<string>)
    requires arg < |argv| && StepAt(argv, arg, st, openable).Next?
    ensures Words(argv, arg) == [Words(argv, arg)[0]] + Words(argv, StepAt(argv, arg, st, openable).next)
    ensures Accepted(Words(argv, arg)[0])
    ensures StepAt(argv, arg, st, openable).st.marshalled == (st.marshalled || Words(argv, arg)[0] == Single("-c"))
    ensures StepAt(argv, arg, st, openable).st.infile == Latest(Picked(Words(argv, arg)[0], PositionalWord), st.infile)
    ensures StepAt(argv, arg, st, openable).st.version == Latest(Picked(Words(argv, arg)[0], OperandOf("-v")), st.version)
    ensures var o := Picked(Words(argv, arg)[0], OperandOf("-o"));
      StepAt(argv, arg, st, openable).st.sink == if o.Some? then OutFile(o.value) else st.sink
  {
    var a := argv[arg];
    if a == "-o" || a == "-v" {
      assert Words(argv, arg)[0] == WithOperand(a, argv[arg + 1]);
    } else {
      assert Words(argv, arg)[0] == Single(a);
    }
  }

  /** One turn that goes on adds the flag bit of the word it reads. */
  lemma StepFlags(argv: seq<string>, arg: nat, st: ScanState, openable: set<string>)
    requires arg < |argv| && StepAt(argv, arg, st, openable).Next?
    ensures StepAt(argv, arg, st, openable).st.flags == WithFlag(st.flags, FlagsOf([Words(argv, arg)[0]]))
  {
    var a := argv[arg];
    var w := Words(argv, arg)[0];
    var s2 := StepAt(argv, arg, st, openable).st;
    if a == "-o" || a == "-v" {
      assert w == WithOperand(a, argv[arg + 1]);
    } else {
      assert w == Single(a);
    }
    FlagsOfSingleton(w);
    WithFlagLaws(st.flags, 0, 0);
  }

  /** A scan that runs to the end sets raw mode exactly when it read `-c`. */
  lemma {:induction false} RunDoneRawMode(argv: seq<string>, arg: nat, st: ScanState, openable: set<string>, st': ScanState)
    requires Run(argv, arg, st, openable) == Done(st')
    ensures st'.marshalled == (st.marshalled || Single("-c") in Words(argv, arg))
    decreases |argv| - arg
  {
    if arg < |argv| {
      var step := StepAt(argv, arg, st, openable);
      StepWord(argv, arg, st, openable);
      var ws, rest := Words(argv, arg), Words(argv, step.next);
      RunDoneRawMode(argv, step.next, step.st, openable, st');
      assert Single("-c") in ws <==> ws[0] == Single("-c") || Single("-c") in rest;
    }
  }

  /** A scan that runs to the end adds the bits of exactly the flag words it
      read, so a repeated flag word changes nothing. */
  lemma {:induction false} RunDoneFlags(argv: seq<string>, arg: nat, st: ScanState, openable: set<string>, st': ScanState)
    requires Run(argv, arg, st, openable) == Done(st')
    ensures st'.flags == WithFlag(st.flags, FlagsOf(Words(argv, arg)))
    decreases |argv| - arg
  {
    if arg < |argv| {
      var step := StepAt(argv, arg, st, openable);
      StepWord(argv, arg, st, openable);
      StepFlags(argv, arg, st, openable);
      var ws, rest := Words(argv, arg), Words(argv, step.next);
      RunDoneFlags(argv, step.next, step.st, openable, st');
      FlagsOfCons(ws[0], rest);
      WithFlagLaws(st.flags, FlagsOf([ws[0]]), FlagsOf(rest));
    } else {
      assert Words(argv, arg) == [];
      assert FlagsOf([]) == FlagBits(false, false);
      FlagBitsLaws(false, false, false, false);
      WithFlagLaws(st.flags, 0, 0);
    }
  }

  /** A scan that runs to the end leaves as input file the last positional
      word, as version the operand of the last `-v`, and as sink the file
      of the last `-o`. */
  lemma {:induction false} RunDonePicks(argv: seq<string>, arg: nat, st: ScanState, openable: set<string>, st': ScanState)
    requires Run(argv, arg, st, openable) == Done(st')
    ensures var ws := Words(argv, arg);
      && st'.infile == Latest(LastPicked(ws, PositionalWord), st.infile)
      && st'.version == Latest(LastPicked(ws, OperandOf("-v")), st.version)
      && (LastPicked(ws, OperandOf("-o")).Some? ==> st'.sink == OutFile(LastPicked(ws, OperandOf("-o")).value))
      && (LastPicked(ws, OperandOf("-o")).None? ==> st'.sink == st.sink)
    decreases |argv| - arg
  {
    if arg < |argv| {
      var step := StepAt(argv, arg, st, openable);
      StepWord(argv, arg, st, openable);
      var ws, rest := Words(argv, arg), Words(argv, step.next);
      RunDonePicks(argv, step.next, step.st, openable, st');
      LastPickedCons(ws[0], rest, PositionalWord);
      LastPickedCons(ws[0], rest, OperandOf("-v"));
      LastPickedCons(ws[0], rest, OperandOf("-o"));
    } else {
      assert Words(argv, arg) == [];
    }
  }

  /** Every word a scan that runs to the end reads is one it goes past. */
  lemma {:induction false} RunDoneAccepted(argv: seq<string>, arg: nat, st: ScanState, openable: set<string>, st': ScanState)
    requires Run(argv, arg, st, openable) == Done(st')
    ensures forall i | 0 <= i < |Words(argv, arg)| :: Accepted(Words(argv, arg)[i])
    decreases |argv| - arg
  {
    if arg < |argv| {
      var step := StepAt(argv, arg, st, openable);
      StepWord(argv, arg, st, openable);
      var ws, rest := Words(argv, arg), Words(argv, step.next);
      RunDoneAccepted(argv, step.next, step.st, openable, st');
      forall i | 0 <= i < |ws| ensures Accepted(ws[i]) {
        if i > 0 { assert ws[i] == rest[i - 1]; }
      }
    }
  }

  /** A whole scan that runs to the end leaves exactly this state: `-c`
      seen means raw mode; the flags are the OR of the flag words' bits;
      the input file is the last positional word; the version is the
      operand of the last `-v`; the sink is the file of the last `-o`, or
      standard output. And every word it read was one it goes past. */
  lemma ScanDoneState(argv: seq<string>, openable: set<string>, st: ScanState)
    requires ScanArgs(argv, openable) == Done(st)
    ensures var ws := Words(argv, 1);
      && st.marshalled == (Single("-c") in ws)
      && st.flags == FlagsOf(ws)
      && st.infile == LastPicked(ws, PositionalWord)
      && st.version == LastPicked(ws, OperandOf("-v"))
      && st.sink == (if LastPicked(ws, OperandOf("-o")).Some? then OutFile(LastPicked(ws, OperandOf("-o")).value) else Stdout)
      && forall i | 0 <= i < |ws| :: Accepted(ws[i])
  {
    var ws := Words(argv, 1);
    RunDoneRawMode(argv, 1, Initial, openable, st);
    RunDoneFlags(argv, 1, Initial, openable, st);
    assert WithFlag(0, FlagsOf(ws)) == FlagsOf(ws) by {
      FlagBitsLaws(false, false, Single("--pycode-extra") in ws, Single("--show-caches") in ws);
    }
    RunDonePicks(argv, 1, Initial, openable, st);
    RunDoneAccepted(argv, 1, Initial, openable, st);
  }

  /** Handling one position does not look past the operand it needs. */
  lemma StepAppend(argv: seq<string>, more: seq<string>, arg: nat, st: ScanState, openable: set<string>)
    requires arg < |argv|
    requires !StepAt(argv, arg, st, openable).Stop? || !StepAt(argv, arg, st, openable).why.MissingOperand?
    ensures StepAt(argv + more, arg, st, openable) == StepAt(argv, arg, st, openable)
  {
    assert (argv + more)[arg] == argv[arg];
    if arg + 1 < |argv| { assert (argv + more)[arg + 1] == argv[arg + 1]; }
  }

  /** A scan of `argv` that runs to the end, followed by more arguments:
      the scan of the whole goes on from the state the first part left. */
  lemma {:induction false} RunAppend(argv: seq<string>, more: seq<string>, arg: nat, st: ScanState, openable: set<string>, st': ScanState)
    requires arg <= |argv|
    requires Run(argv, arg, st, openable) == Done(st')
    ensures Run(argv + more, arg, st, openable) == Run(argv + more, |argv|, st', openable)
    decreases |argv| - arg
  {
    if arg < |argv| {
      StepAppend(argv, more, arg, st, openable);
      var step := StepAt(argv, arg, st, openable);
      RunAppend(argv, more, step.next, step.st, openable, st');
    }
  }

  /** The scan never looks at the arguments after the one it stops on
      (unless it stopped because an option lacked its operand). */
  lemma {:induction false} RunStopsEarly(argv: seq<string>, more: seq<string>, arg: nat, st: ScanState, openable: set<string>)
    requires Run(argv, arg, st, openable).Exit?
    requires !Run(argv, arg, st, openable).why.MissingOperand?
    ensures Run(argv + more, arg, st, openable) == Run(argv, arg, st, openable)
    decreases |argv| - arg
  {
    StepAppend(argv, more, arg, st, openable);
    var step := StepAt(argv, arg, st, openable);
    if step.Next? {
      RunStopsEarly(argv, more, step.next, step.st, openable);
    }
  }

  /** Handling one position looks only at the arguments from there on;
      dropping `k` arguments in front moves the next position back by `k`. */
  lemma StepShift(argv: seq<string>, k: nat, arg: nat, st: ScanState, openable: set<string>)
    requires k <= arg < |argv|
    ensures var here, there := StepAt(argv, arg, st, openable), StepAt(argv[k..], arg - k, st, openable);
      if here.Stop? then there == here else there == Next(here.st, here.next - k)
  {
    var tail, i := argv[k..], arg - k;
    assert |tail| == |argv| - k && tail[i] == argv[arg];
    if arg + 1 < |argv| {
      assert tail[i + 1] == argv[arg + 1];
    }
  }

  /** Only the arguments from the current position on matter. */
  lemma {:induction false} RunShift(argv: seq<string>, k: nat, arg: nat, st: ScanState, openable: set<string>)
    requires k <= arg <= |argv|
    ensures Run(argv, arg, st, openable) == Run(argv[k..], arg - k, st, openable)
    decreases |argv| - arg
  {
    if arg < |argv| {
      StepShift(argv, k, arg, st, openable);
      var step := StepAt(argv, arg, st, openable);
      if step.Next? {
        RunShift(argv, k, step.next, step.st, openable);
      }
    }
  }

  // ---------------------------------------------------------------------
  // The scan's behaviour for each kind of argument, after a prefix of
  // arguments that it went through without stopping

  /** `pre` (the program name and the arguments before) scans to the end in state `st`. */
  predicate ScansTo(pre: seq<string>, openable: set<string>, st: ScanState)
  {
    |pre| >= 1 && Run(pre, 1, Initial, openable) == Done(st)
  }

  /** After a clean prefix, the scan continues at the next argument from the prefix's state. */
  lemma ResumeAfter(pre: seq<string>, rest: seq<string>, openable: set<string>, st: ScanState)
    requires ScansTo(pre, openable, st)
    ensures ScanArgs(pre + rest, openable) == Run(pre + rest, |pre|, st, openable)
  {
    RunAppend(pre, rest, 1, Initial, openable, st);
  }

  /** `-h` or `--help` ends the scan with status 0, whatever follows. */
  lemma HelpExits(pre: seq<string>, h: string, more: seq<string>, openable: set<string>, st: ScanState)
    requires ScansTo(pre, openable, st)
    requires h == "-h" || h == "--help"
    ensures ScanArgs(pre + [h] + more, openable) == Exit(0, HelpShown)
  {
    ResumeAfter(pre, [h] + more, openable, st);
    assert pre + [h] + more == pre + ([h] + more);
    assert (pre + [h] + more)[|pre|] == h;
  }

  /** Any other word starting with `-` ends the scan with status 1, whatever follows. */
  lemma UnrecognizedExits(pre: seq<string>, a: string, more: seq<string>, openable: set<string>, st: ScanState)
    requires ScansTo(pre, openable, st)
    requires |a| > 0 && a[0] == '-' && a !in KnownOptions
    ensures ScanArgs(pre + [a] + more, openable) == Exit(1, Unrecognized(a))
  {
    ResumeAfter(pre, [a] + more, openable, st);
    assert pre + [a] + more == pre + ([a] + more);
    assert (pre + [a] + more)[|pre|] == a;
  }

  /** `-o` or `-v` as the last argument ends the scan with status 1. */
  lemma MissingOperandExits(pre: seq<string>, opt: string, openable: set<string>, st: ScanState)
    requires ScansTo(pre, openable, st)
    requires opt == "-o" || opt == "-v"
    ensures ScanArgs(pre + [opt], openable) == Exit(1, MissingOperand(opt))
  {
    ResumeAfter(pre, [opt], openable, st);
    assert (pre + [opt])[|pre|] == opt;
  }

  /** An `-o` file that cannot be opened, or any `-o` after one that was
      opened, ends the scan with status 1, whatever follows. */
  lemma OpenFailureExits(pre: seq<string>, f: string, more: seq<string>, openable: set<string>, st: ScanState)
    requires ScansTo(pre, openable, st)
    requires f !in openable || st.sink.OutFile?
    ensures ScanArgs(pre + ["-o", f] + more, openable) == Exit(1, OpenFailed(f))
  {
    var argv := pre + ["-o", f] + more;
    ResumeAfter(pre, ["-o", f] + more, openable, st);
    assert argv == pre + (["-o", f] + more);
    assert argv[|pre|] == "-o" && argv[|pre| + 1] == f;
  }

  /** `-o` and `-v` take the next argument as their operand, whatever it is
      (even a word such as `-h`): it is never read as an option. */
  lemma OperandConsumed(pre: seq<string>, opt: string, x: string, more: seq<string>, openable: set<string>, st: ScanState)
    requires ScansTo(pre, openable, st)
    requires opt == "-v" || (opt == "-o" && x in openable && st.sink == Stdout)
    ensures var argv := pre + [opt, x] + more;
      ScanArgs(argv, openable)
        == Run(argv, |pre| + 2, if opt == "-v" then st.(version := Some(x)) else st.(sink := OutFile(x)), openable)
  {
    var argv := pre + [opt, x] + more;
    ResumeAfter(pre, [opt, x] + more, openable, st);
    assert argv == pre + ([opt, x] + more);
    assert argv[|pre|] == opt && argv[|pre| + 1] == x;
  }

  /** A word not starting with `-` becomes the input file, replacing any earlier one. */
  lemma PositionalSetsInput(pre: seq<string>, a: string, more: seq<string>, openable: set<string>, st: ScanState)
    requires ScansTo(pre, openable, st)
    requires IsPositional(a)
    ensures var argv := pre + [a] + more;
      ScanArgs(argv, openable) == Run(argv, |pre| + 1, st.(infile := Some(a)), openable)
  {
    var argv := pre + [a] + more;
    ResumeAfter(pre, [a] + more, openable, st);
    assert argv == pre + ([a] + more);
    assert argv[|pre|] == a;
    assert a !in KnownOptions;
  }

  /** `-c` sets raw mode and nothing else. */
  lemma CompiledSetsRawMode(pre: seq<string>, more: seq<string>, openable: set<string>, st: ScanState)
    requires ScansTo(pre, openable, st)
    ensures var argv := pre + ["-c"] + more;
      ScanArgs(argv, openable) == Run(argv, |pre| + 1, st.(marshalled := true), openable)
  {
    var argv := pre + ["-c"] + more;
    ResumeAfter(pre, ["-c"] + more, openable, st);
    assert argv == pre + (["-c"] + more);
    assert argv[|pre|] == "-c";
  }

  /** A flag word goes on to the next position, and the state it leaves
      does not depend on where the word stands; read again, it changes
      nothing more. */
  lemma FlagWordAgain(a1: seq<string>, i: nat, a2: seq<string>, j: nat, st: ScanState, openable: set<string>)
    requires i < |a1| && j < |a2| && a1[i] == a2[j]
    requires a1[i] == "-c" || a1[i] == "--pycode-extra" || a1[i] == "--show-caches"
    ensures StepAt(a1, i, st, openable) == Next(StepAt(a1, i, st, openable).st, i + 1)
    ensures StepAt(a2, j, st, openable) == Next(StepAt(a1, i, st, openable).st, j + 1)
    ensures StepAt(a2, j, StepAt(a1, i, st, openable).st, openable) == Next(StepAt(a1, i, st, openable).st, j + 1)
  {
    var f := a1[i];
    if f == "--pycode-extra" {
      WithFlagLaws(st.flags, DisasmPycodeVerbose, 0);
    } else if f == "--show-caches" {
      WithFlagLaws(st.flags, DisasmShowCaches, 0);
    }
  }

  /** At a flag word followed by the same word, the scan goes on as if
      the first were not there. */
  lemma RunFlagTwice(argv: seq<string>, k: nat, st: ScanState, openable: set<string>)
    requires k + 1 < |argv| && argv[k] == argv[k + 1]
    requires argv[k] == "-c" || argv[k] == "--pycode-extra" || argv[k] == "--show-caches"
    ensures Run(argv, k, st, openable) == Run(argv, k + 1, st, openable)
  {
    var s1 := StepAt(argv, k, st, openable).st;
    FlagWordAgain(argv, k, argv, k + 1, st, openable);
    assert Run(argv, k, st, openable) == Run(argv, k + 1, s1, openable);
    assert Run(argv, k + 1, s1, openable) == Run(argv, k + 2, s1, openable);
  }

  /** A flag word given twice in a row scans as if given once. */
  lemma RepeatedFlagIsIdempotent(pre: seq<string>, f: string, more: seq<string>, openable: set<string>, st: ScanState)
    requires ScansTo(pre, openable, st)
    requires f == "-c" || f == "--pycode-extra" || f == "--show-caches"
    ensures ScanArgs(pre + [f, f] + more, openable) == ScanArgs(pre + [f] + more, openable)
  {
    var twice, once := pre + [f, f] + more, pre + [f] + more;
    var k := |pre|;
    ResumeAfter(pre, [f, f] + more, openable, st);
    ResumeAfter(pre, [f] + more, openable, st);
    assert twice == pre + ([f, f] + more) && once == pre + ([f] + more);
    assert twice[k] == f && twice[k + 1] == f;
    RunFlagTwice(twice, k, st, openable);
    RunShift(twice, k + 1, k + 1, st, openable);
    RunShift(once, k, k, st, openable);
    assert twice[k + 1..] == [f] + more by {
      assert twice == (pre + [f]) + ([f] + more) && |pre + [f]| == k + 1;
    }
    assert once[k..] == [f] + more;
  }

  // ---------------------------------------------------------------------
  // The rest of main

  /** Exceptions `main` does not catch: `stoi` on the version string, and
      `loadFromMarshalledFile`. */
  datatype Crash = StoiUncaught(side: Version.Side, error: StoiError) | RawLoadUncaught(message: string)

  /** Why `main` returned. */
  datatype Reason =
    | Completed
    | ScanStopped(why: ScanExit)
    | NoInputFile
    | VersionRequired
    | VersionUnparsable
    | LoadFailed(message: string)
    | RenderFailed(message: string)

  /** How `main` ends: with an exit status and the text written to the
      sink, or by an uncaught exception before anything was written. */
  datatype MainResult = Exited(code: int, reason: Reason, written: string) | Crashed(cause: Crash)

  /** The banner, then the rendering; a render that throws keeps what it
      wrote and reports the error on standard error with status 1. */
  function Present(infile: string, sep: char, m: ModuleInfo, flags: Flags, render: Flags -> RenderOutcome): (r: MainResult)
    ensures r.Exited? && Header(DisplayName(infile, sep), m) <= r.written
    ensures r.code == 0 <==> render(flags).Rendered?
    ensures r.code == 0 || r.code == 1
    ensures render(flags).Rendered? ==>
      r.written == Header(DisplayName(infile, sep), m) + render(flags).text && r.reason == Completed
    ensures render(flags).RenderThrew? ==>
      r.written == Header(DisplayName(infile, sep), m) + render(flags).partial && r.reason == RenderFailed(render(flags).message)
  {
    var header := Header(DisplayName(infile, sep), m);
    match render(flags)
    case Rendered(text) => Exited(0, Completed, header + text)
    case RenderThrew(partial, msg) => Exited(1, RenderFailed(msg), header + partial)
  }

  /** What `main` holds after its checks and the load: a module to
      present, or the way it already ended. */
  datatype Loading = Ready(infile: string, info: ModuleInfo) | Ended(result: MainResult)

  /** The checks after the scan and the load. `fileLoad` is what
      `loadFromFile(infile)` does, `rawLoad(major, minor)` what
      `loadFromMarshalledFile(infile, major, minor)` does. */
  function Load(st: ScanState, fileLoad: LoadOutcome, rawLoad: (int, int) -> LoadOutcome): (r: Loading)
    ensures st.infile.None? ==> r == Ended(Exited(1, NoInputFile, ""))
    ensures r.Ready? ==> st.infile == Some(r.infile)
    ensures r.Ended? ==> r.result.Crashed? || (r.result.code == 1 && r.result.written == [])
    ensures r.Ended? && r.result.Crashed? ==> st.marshalled
  {
    match st.infile
    case None => Ended(Exited(1, NoInputFile, ""))
    case Some(infile) =>
      if !st.marshalled then
        match fileLoad
        case LoadThrew(msg) => Ended(Exited(1, LoadFailed(msg), ""))
        case Loaded(m) => Ready(infile, m)
      else
        match st.version
        case None => Ended(Exited(1, VersionRequired, ""))
        case Some(v) =>
          match Version.ParseVersion(v)
          case BadFormat => Ended(Exited(1, VersionUnparsable, ""))
          case StoiThrew(side, e) => Ended(Crashed(StoiUncaught(side, e)))
          case Pair(major, minor) =>
            match rawLoad(major, minor)
            case LoadThrew(msg) => Ended(Crashed(RawLoadUncaught(msg)))
            case Loaded(m) => Ready(infile, m)
  }

  /** The module `main` goes on with is the one a loader returned: the file
      loader's without `-c`, the raw loader's for the parsed version with it. */
  lemma LoadReadyModule(st: ScanState, fileLoad: LoadOutcome, rawLoad: (int, int) -> LoadOutcome)
    requires Load(st, fileLoad, rawLoad).Ready?
    ensures !st.marshalled ==> fileLoad == Loaded(Load(st, fileLoad, rawLoad).info)
    ensures st.marshalled ==>
      st.version.Some? && Version.ParseVersion(st.version.value).Pair? &&
      rawLoad(Version.ParseVersion(st.version.value).major, Version.ParseVersion(st.version.value).minor)
        == Loaded(Load(st, fileLoad, rawLoad).info)
  {
  }

  /** `main` after a scan that ran to the end: the checks and the load,
      then the banner and the rendering, `render(flags)` being what
      `output_object` does with the loaded module. */
  function Finish(st: ScanState, sep: char, fileLoad: LoadOutcome, rawLoad: (int, int) -> LoadOutcome,
                  render: Flags -> RenderOutcome): (r: MainResult)
    ensures r.Exited? ==> (r.code == 0 <==> r.reason == Completed)
    ensures r.Exited? && r.code == 0 ==> st.infile.Some? && render(st.flags).Rendered?
    ensures r.Exited? && r.written != [] ==>
      st.infile.Some? && DisplayName(st.infile.value, sep) <= r.written && (r.code == 0 || r.reason.RenderFailed?)
  {
    match Load(st, fileLoad, rawLoad)
    case Ended(r) => r
    case Ready(infile, m) =>
      var r := Present(infile, sep, m, st.flags, render);
      PrefixTransitive(DisplayName(infile, sep), Header(DisplayName(infile, sep), m), r.written);
      r
  }

  /** `main` succeeds after a full scan exactly when the load produced a
      module and the renderer did not throw. */
  lemma FinishSucceedsIff(st: ScanState, sep: char, fileLoad: LoadOutcome, rawLoad: (int, int) -> LoadOutcome,
                          render: Flags -> RenderOutcome)
    ensures var r := Finish(st, sep, fileLoad, rawLoad, render);
      (r.Exited? && r.code == 0) <==> Load(st, fileLoad, rawLoad).Ready? && render(st.flags).Rendered?
  {
  }

  /** All of `main`. */
  function MainSpec(argv: seq<string>, openable: set<string>, sep: char, fileLoad: LoadOutcome,
                    rawLoad: (int, int) -> LoadOutcome, render: Flags -> RenderOutcome): (r: MainResult)
    ensures r.Exited? ==> r.code == 0 || r.code == 1
    ensures r.Exited? && r.code == 0 ==> r.reason == Completed || r.reason == ScanStopped(HelpShown)
    ensures r.Exited? && r.written != [] ==> r.code == 0 || r.reason.RenderFailed?
    ensures r.Exited? && r.reason == Completed ==>
      ScanArgs(argv, openable).Done? && render(ScanArgs(argv, openable).st.flags).Rendered?
  {
    match ScanArgs(argv, openable)
    case Exit(code, why) =>
      ScanExitCode(argv, 1, Initial, openable);
      Exited(code, ScanStopped(why), "")
    case Done(st) => Finish(st, sep, fileLoad, rawLoad, render)
  }

  /** `main`: the scan, then the rest. */
  method RunMain(argv: seq<string>, openable: set<string>, sep: char, fileLoad: LoadOutcome,
                 rawLoad: (int, int) -> LoadOutcome, render: Flags -> RenderOutcome) returns (r: MainResult)
    ensures r == MainSpec(argv, openable, sep, fileLoad, rawLoad, render)
  {
    var scanned := Scan(argv, openable);
    match scanned {
      case Exit(code, why) => r := Exited(code, ScanStopped(why), "");
      case Done(st) => r := Finish(st, sep, fileLoad, rawLoad, render);
    }
  }

  /** A missing input file is reported first, before raw mode's need for a version. */
  lemma NoInputComesFirst(st: ScanState, sep: char, fileLoad: LoadOutcome, rawLoad: (int, int) -> LoadOutcome, render: Flags -> RenderOutcome)
    requires st.infile.None?
    ensures Finish(st, sep, fileLoad, rawLoad, render) == Exited(1, NoInputFile, "")
  {
  }

  /** With no word that picks, nothing is picked. */
  lemma {:induction false} LastPickedNone(ws: seq<Word>, p: Pick)
    requires forall i | 0 <= i < |ws| :: Picked(ws[i], p).None?
    ensures LastPicked(ws, p).None?
  {
    if ws != [] {
      var init := ws[..|ws| - 1];
      assert forall i | 0 <= i < |init| :: init[i] == ws[i];
      LastPickedNone(init, p);
    }
  }

  /** A command line whose scan runs to the end without a positional word
      ends with status 1 for want of an input file, before anything else is
      checked or loaded. */
  lemma NoPositionalExits(argv: seq<string>, openable: set<string>, sep: char, fileLoad: LoadOutcome,
                          rawLoad: (int, int) -> LoadOutcome, render: Flags -> RenderOutcome)
    requires ScanArgs(argv, openable).Done?
    requires forall i | 0 <= i < |Words(argv, 1)| :: !(Words(argv, 1)[i].Single? && IsPositional(Words(argv, 1)[i].text))
    ensures MainSpec(argv, openable, sep, fileLoad, rawLoad, render) == Exited(1, NoInputFile, "")
  {
    var st := ScanArgs(argv, openable).st;
    ScanDoneState(argv, openable, st);
    LastPickedNone(Words(argv, 1), PositionalWord);
  }

  /** Raw mode without `-v` ends with status 1 and loads nothing. */
  lemma RawModeNeedsVersion(st: ScanState, sep: char, fileLoad: LoadOutcome, rawLoad: (int, int) -> LoadOutcome, render: Flags -> RenderOutcome)
    requires st.infile.Some? && st.marshalled && st.version.None?
    ensures Finish(st, sep, fileLoad, rawLoad, render) == Exited(1, VersionRequired, "")
  {
  }

  /** In raw mode the file loader is never used, and the raw loader is
      asked only for the version the `-v` string parses to. */
  lemma RawModeUsesParsedVersion(st: ScanState, sep: char, fileLoad1: LoadOutcome, fileLoad2: LoadOutcome,
                                 rawLoad1: (int, int) -> LoadOutcome, rawLoad2: (int, int) -> LoadOutcome,
                                 render: Flags -> RenderOutcome)
    requires st.marshalled && st.version.Some?
    requires var p := Version.ParseVersion(st.version.value);
      p.Pair? ==> rawLoad1(p.major, p.minor) == rawLoad2(p.major, p.minor)
    ensures Finish(st, sep, fileLoad1, rawLoad1, render) == Finish(st, sep, fileLoad2, rawLoad2, render)
  {
    assert Load(st, fileLoad1, rawLoad1) == Load(st, fileLoad2, rawLoad2);
  }

  /** Without `-c` the version string is ignored and the raw loader never used. */
  lemma FileModeIgnoresVersion(st: ScanState, sep: char, fileLoad: LoadOutcome, rawLoad1: (int, int) -> LoadOutcome,
                               rawLoad2: (int, int) -> LoadOutcome, render: Flags -> RenderOutcome, v: Option<string>)
    requires !st.marshalled
    ensures Finish(st, sep, fileLoad, rawLoad1, render) == Finish(st.(version := v), sep, fileLoad, rawLoad2, render)
  {
  }

  /** The renderer is asked only for the flags the scan collected. */
  lemma RenderUsesScannedFlags(st: ScanState, sep: char, fileLoad: LoadOutcome, rawLoad: (int, int) -> LoadOutcome,
                               render1: Flags -> RenderOutcome, render2: Flags -> RenderOutcome)
    requires render1(st.flags) == render2(st.flags)
    ensures Finish(st, sep, fileLoad, rawLoad, render1) == Finish(st, sep, fileLoad, rawLoad, render2)
  {
  }

  /** Help and every other early exit of the scan write nothing to the sink;
      help is the only one with status 0. */
  lemma ScanExitWritesNothing(argv: seq<string>, openable: set<string>, sep: char, fileLoad: LoadOutcome,
                              rawLoad: (int, int) -> LoadOutcome, render: Flags -> RenderOutcome)
    requires ScanArgs(argv, openable).Exit?
    ensures var r := MainSpec(argv, openable, sep, fileLoad, rawLoad, render);
      r.Exited? && r.written == [] && (r.code == 0 <==> r.reason == ScanStopped(HelpShown))
  {
    var e := ScanArgs(argv, openable);
    assert e.code == 0 <==> e.why == HelpShown by { ScanExitCode(argv, 1, Initial, openable); }
  }

  /** The scan stops with status 0 exactly on help. */
  lemma {:induction false} ScanExitCode(argv: seq<string>, arg: nat, st: ScanState, openable: set<string>)
    requires Run(argv, arg, st, openable).Exit?
    ensures Run(argv, arg, st, openable).code == 0 <==> Run(argv, arg, st, openable).why == HelpShown
    ensures Run(argv, arg, st, openable).code == 0 || Run(argv, arg, st, openable).code == 1
    decreases |argv| - arg
  {
    var step := StepAt(argv, arg, st, openable);
    if step.Next? {
      ScanExitCode(argv, step.next, step.st, openable);
    }
  }

  /** A scan that runs to the end hands its state to the checks, the load
      and the rendering. */
  lemma MainAfterScan(argv: seq<string>, openable: set<string>, sep: char, fileLoad: LoadOutcome,
                      rawLoad: (int, int) -> LoadOutcome, render: Flags -> RenderOutcome)
    requires ScanArgs(argv, openable).Done?
    ensures MainSpec(argv, openable, sep, fileLoad, rawLoad, render)
         == Finish(ScanArgs(argv, openable).st, sep, fileLoad, rawLoad, render)
  {
  }

  /** A file load that throws ends with status 1 and writes nothing. */
  lemma FileLoadFailsExits(st: ScanState, sep: char, msg: string, rawLoad: (int, int) -> LoadOutcome,
                           render: Flags -> RenderOutcome)
    requires st.infile.Some? && !st.marshalled
    ensures Finish(st, sep, LoadThrew(msg), rawLoad, render) == Exited(1, LoadFailed(msg), "")
  {
  }

  /** Without `-c`, the module the file loader returns is presented with the
      scanned flags. */
  lemma FileModeRenders(st: ScanState, sep: char, m: ModuleInfo, rawLoad: (int, int) -> LoadOutcome,
                        render: Flags -> RenderOutcome)
    requires st.infile.Some? && !st.marshalled
    ensures Finish(st, sep, Loaded(m), rawLoad, render) == Present(st.infile.value, sep, m, st.flags, render)
  {
    assert Load(st, Loaded(m), rawLoad) == Ready(st.infile.value, m);
  }

  /** In raw mode, the module the raw loader returns for the parsed pair is
      presented with the scanned flags. */
  lemma RawModeRenders(st: ScanState, sep: char, fileLoad: LoadOutcome, rawLoad: (int, int) -> LoadOutcome,
                       render: Flags -> RenderOutcome, major: int, minor: int, m: ModuleInfo)
    requires st.infile.Some? && st.marshalled && st.version.Some?
    requires Version.ParseVersion(st.version.value) == Version.Pair(major, minor)
    requires rawLoad(major, minor) == Loaded(m)
    ensures Finish(st, sep, fileLoad, rawLoad, render) == Present(st.infile.value, sep, m, st.flags, render)
  {
  }

  /** A version string that fails the format check ends with status 1 and
      writes nothing. */
  lemma VersionFormatExits(st: ScanState, sep: char, fileLoad: LoadOutcome, rawLoad: (int, int) -> LoadOutcome,
                           render: Flags -> RenderOutcome)
    requires st.infile.Some? && st.marshalled && st.version.Some?
    requires Version.ParseVersion(st.version.value) == Version.BadFormat
    ensures Finish(st, sep, fileLoad, rawLoad, render) == Exited(1, VersionUnparsable, "")
  {
  }

  /** A side of the version string that `stoi` cannot read is an uncaught
      exception. */
  lemma VersionStoiCrashes(st: ScanState, sep: char, fileLoad: LoadOutcome, rawLoad: (int, int) -> LoadOutcome,
                           render: Flags -> RenderOutcome, side: Version.Side, e: StoiError)
    requires st.infile.Some? && st.marshalled && st.version.Some?
    requires Version.ParseVersion(st.version.value) == Version.StoiThrew(side, e)
    ensures Finish(st, sep, fileLoad, rawLoad, render) == Crashed(StoiUncaught(side, e))
  {
  }

  /** A raw load that throws is an uncaught exception. */
  lemma RawLoadCrashes(st: ScanState, sep: char, fileLoad: LoadOutcome, rawLoad: (int, int) -> LoadOutcome,
                       render: Flags -> RenderOutcome, major: int, minor: int, msg: string)
    requires st.infile.Some? && st.marshalled && st.version.Some?
    requires Version.ParseVersion(st.version.value) == Version.Pair(major, minor)
    requires rawLoad(major, minor) == LoadThrew(msg)
    ensures Finish(st, sep, fileLoad, rawLoad, render) == Crashed(RawLoadUncaught(msg))
  {
  }

  /** With no options the command line and the embedding entry point
      agree: for a module that loads, what `main` writes to its sink is what
      `decompile` returns, less `decompile`'s own render-error line (which
      `main` writes to standard error instead). */
  lemma MainAgreesWithDecompile(st: ScanState, sep: char, m: ModuleInfo, rawLoad: (int, int) -> LoadOutcome,
                                render: Flags -> RenderOutcome)
    requires st.infile.Some? && !st.marshalled && st.flags == 0
    ensures var r := Finish(st, sep, Loaded(m), rawLoad, render);
      var d := Embed.Decompile(st.infile.value, sep, Embed.BufferLoaded(m), render);
      r.Exited? && (r.code == 0 <==> render(0).Rendered?) &&
      (render(0).Rendered? ==> d == r.written) &&
      (render(0).RenderThrew? ==> d == r.written + Embed.RenderErrorLine(st.infile.value, render(0).message))
  {
  }
}
