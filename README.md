# pycdas driver — a Dafny model

`pycdas` disassembles a compiled Python module. `pycdas.cpp` is the thin
driver around it. The loader (`PycModule`) and the renderer
(`output_object`) it calls are not part of this model, so they appear
only through the results they hand back. The model covers the driver's
own logic:

- **The argument scanner of `main`** (module `Cli`): a loop over `argv`
  that updates `infile`, `marshalled`, `version`, `disasm_flags` and the
  output sink. It returns early on `-h`/`--help`, on an unknown option, on
  `-o`/`-v` without an operand, and when the `-o` file cannot be opened.
  `Cli.Scan` is that loop, proved against the function `Cli.Run`. Each
  turn of it is the method `Cli.Turn`, proved against the function
  `Cli.StepAt`. A second, independent
  reference (`Cli.Words`, `Cli.LastPicked`, `Cli.FlagsOf`) describes the
  final state directly in terms of the words read.
- **The rest of `main`** (`Cli.Load`, `Cli.Finish`, `Cli.MainSpec`,
  `Cli.RunMain`): the missing-input check, the file load or the raw load
  with its version string, the banner and the rendering, and the exit
  status.
- **The version string of raw mode** (module `Version`): the split at the
  first `'.'` and `std::stoi` on each side. The C library behaviour it
  relies on (`std::stoi`, `strrchr`, `std::string::find`, printf's `%d`)
  is in module `Text`.
- **The display name and the banner line** (module `Banner`). A parser for
  the banner, `Banner.ParseHeader`, is proved to invert it.
- **The embedding entry point `decompile`** (module `Embed`): a pure
  function from the load outcome and the render outcome to the returned
  text.

The environment is passed in as parameters:

- the path separator. Every lemma holds for any separator character; `Banner.PathSep` only records the two values the build chooses from (`'/'`, or `'\\'` on Windows);
- the set of file names that `std::ofstream::open` can open;
- the loader outcomes;
- the renderer as a function from the flag set to the text it writes,
  possibly followed by an exception.

The model keeps these behaviours of the code as written:

- The version string is not rejected when a side has text after its
  digits. `std::stoi` reads the leading digits and ignores the rest, so
  `"3.1.2"` is 3.1 and `"3.11abc"` is 3.11.
- Text that `stoi` cannot read at all (`".5"`, `"3.x"`) does not produce a
  format error. It throws an exception that nothing catches, and the model
  reports a crash.
- The error lines of `decompile` name the full file name, not the display
  name.
- `main` never calls `isValid()`, so its file load has no "not valid"
  outcome.
- `main` writes the banner and then the rendering into the sink. When the
  renderer throws, what it had already written stays in the sink.

## Model

| member | source | states |
|---|---|---|
| Text.Stoi | pycdas.cpp:141-142 | A value `stoi` returns always fits in a 32-bit `int` |
| Text.StoiOfDigits | pycdas.cpp:141-142 | A run of digits followed by anything that does not start with a digit parses to the value of the digits, or throws `out_of_range` when that value exceeds `INT_MAX` |
| Text.StoiOfDecimal | pycdas.cpp:141-142 | `stoi` reads back the `%d` text of every `int` |
| Text.StoiSkipsSpace | pycdas.cpp:141-142 | Leading white space does not change the result |
| Text.StoiRejectsNonNumber | pycdas.cpp:141-142 | Text that starts with no space, sign or digit, and a sign with no digit after it, throw `invalid_argument` |
| Text.StoiOfSigned | pycdas.cpp:141-142 | A `'-'` or `'+'` followed by digits and then anything that does not start with a digit parses to the signed value of the digits, or throws `out_of_range` when that value falls outside `int` |
| Text.StoiAfterSign | pycdas.cpp:141-142 | After a sign, no digit means `invalid_argument`; otherwise the digits give the value, negated after `'-'`, or `out_of_range` when it does not fit in an `int` |
| Text.StoiOfNegative | pycdas.cpp:141-142 | `'-'` and a run of digits give minus their value, or `out_of_range` below `INT_MIN` |
| Text.StoiOfPlus | pycdas.cpp:141-142 | `'+'` and a run of digits give their value, or `out_of_range` above `INT_MAX` |
| Text.SignExamples | pycdas.cpp:141-142 | `"-"` and `"-.5"` throw `invalid_argument` |
| Text.SignedAfterSpaceExample | pycdas.cpp:141-142 | `" -12x"` gives -12 |
| Text.IntToDecimal | pycdas.cpp:45-47 | `%d` writes a minus sign exactly for negative values, then digits only |
| Text.NatToDecimal | pycdas.cpp:45-47 | The digits written denote the number, with no leading zero |
| Text.FirstIndexOf | pycdas.cpp:136 | `find` gives no position exactly when the character is absent; otherwise it gives a position holding the character with none before it |
| Text.FirstIndexUnique | pycdas.cpp:136 | That position is the only one with this property |
| Text.LastIndexOf | pycdas.cpp:43 | `strrchr` gives no position exactly when the character is absent; otherwise it gives a position holding the character with none after it |
| Text.LastIndexUnique | pycdas.cpp:43 | That position is the only one with this property |
| Version.ParseVersion | pycdas.cpp:135-142 | The format check rejects exactly the strings with no `'.'` and those whose first `'.'` is the last character. Otherwise the result is `stoi` of the text before the first `'.'` and `stoi` of the text after it, with the major side's exception first |
| Version.ParseOfFormatted | pycdas.cpp:135-142 | The `"%d.%d"` text of two `int`s parses back to the same pair |
| Version.ParseOfDigits | pycdas.cpp:135-142 | For digit strings x and y, `x + "." + y` followed by anything that does not start with a digit gives (x, y) |
| Version.SecondDotExample | pycdas.cpp:135-142 | `"3.1.2"` gives (3, 1) |
| Version.TrailingLettersExample | pycdas.cpp:135-142 | `"3.11abc"` gives (3, 11) |
| Version.BadFormatExamples | pycdas.cpp:136-140 | `"3"` and `"3."` fail the format check |
| Version.EmptyMajorExample | pycdas.cpp:137-141 | `".5"` passes the format check, then the major `stoi` throws `invalid_argument` |
| Version.NonNumericMinorExample | pycdas.cpp:141-142 | `"3.x"` makes the minor `stoi` throw `invalid_argument` |
| Banner.PathSep | pycdas.cpp:16-20 | The separator is `'\\'` or `'/'` |
| Banner.DisplayName | pycdas.cpp:43-44 | The display name is a suffix of the name and contains no separator. It is the whole name, or the character before it is a separator |
| Banner.DisplayNameUnique | pycdas.cpp:43-44 | Exactly one string has those three properties |
| Banner.DisplayNameOfPath | pycdas.cpp:145-146 | `dir + sep + base` displays as `base` when `base` has no separator |
| Banner.DisplayNameIdempotent | pycdas.cpp:43-44 | Taking the display name of a display name changes nothing |
| Banner.Header | pycdas.cpp:45-47 | The banner starts with the display name and ends with `'\n'`, with no other `'\n'` after the display name |
| Banner.HeaderRoundTrip | pycdas.cpp:45-47 | Reading the banner back gives the display name, the major and minor version, and the ` -U` marker exactly when major < 3 and the module uses Unicode |
| Banner.HeaderMarkIff | pycdas.cpp:47 | The banner ends in `" -U)\n"` if and only if major < 3 and the module uses Unicode |
| Embed.Decompile | pycdas.cpp:24-59 | The returned text is never empty; when the module loads it starts with the banner |
| Embed.DecompileLoadThrew | pycdas.cpp:29-35 | A load that throws gives exactly `"Error loading file " + filename + ": " + msg + "\n"` |
| Embed.DecompileInvalid | pycdas.cpp:37-41 | A module that is not valid gives exactly `"Could not load file " + filename + "\n"` |
| Embed.DecompileRenderThrew | pycdas.cpp:43-55 | A render that throws gives the banner, the text written before the exception and `"Error decompyling " + filename + ": " + msg + "\n"` |
| Embed.DecompileRendered | pycdas.cpp:43-58 | A successful render gives the banner followed by the rendered text |
| Embed.DecompileUsesNoFlags | pycdas.cpp:50 | Only the renderer's result for flags 0 matters |
| Embed.DecompileKeepsPartialOutput | pycdas.cpp:49-55 | A render that fails part-way keeps its partial text: the result is the text of a render that produced only that text, plus one error line |
| Embed.DecompileStartsWithBanner | pycdas.cpp:43-47 | When the module loads, some prefix of the text reads back as the display name and the version |
| Cli.Classify | pycdas.cpp:72-113 | A word takes the input-file branch exactly when it does not start with `-`. It takes the unknown-option branch exactly when it starts with `-` and is none of the options |
| Cli.StepAt | pycdas.cpp:71-115 | A turn that goes on moves forward by one or two positions |
| Cli.Run | pycdas.cpp:71-115 | A scan that runs to the end leaves the sink it started with or a file that could be opened; once an input file or raw mode is set it stays set |
| Cli.Turn | pycdas.cpp:72-114 | One turn of the loop computes the step that `StepAt` specifies |
| Cli.Scan | pycdas.cpp:64-115 | The loop returns the scan outcome that `Run` specifies from position 1 and the initial locals |
| Cli.StepWord | pycdas.cpp:72-114 | A turn that goes on reads one word and goes past it. It changes `marshalled`, `infile`, `version` and the sink only as that word says |
| Cli.StepFlags | pycdas.cpp:95-98 | A turn that goes on ORs the flag bit of its word into `disasm_flags` |
| Cli.RunDoneRawMode | pycdas.cpp:86-87 | At the end of a scan, raw mode is set exactly when `-c` was read |
| Cli.RunDoneFlags | pycdas.cpp:95-98 | At the end of a scan, the flags are the OR of the bits of the flag words read |
| Cli.RunDonePicks | pycdas.cpp:72-113 | At the end of a scan, the input file is the last positional word, the version is the last `-v` operand and the sink is the last `-o` file |
| Cli.RunDoneAccepted | pycdas.cpp:71-115 | A scan that runs to the end read only words it goes past |
| Cli.ScanDoneState | pycdas.cpp:64-115 | The whole final state of a complete scan, from the initial values (`disasm_flags` = 0, standard output), in terms of the words read |
| Cli.RunStopsEarly | pycdas.cpp:71-115 | A scan that returns early never reads the later arguments, unless it stopped for want of an operand |
| Cli.RunAppend | pycdas.cpp:71-115 | After a prefix that scans to the end, the scan goes on from the state that prefix left |
| Cli.RunShift | pycdas.cpp:71-115 | Only the arguments from the current position on matter |
| Cli.HelpExits | pycdas.cpp:99-108 | `-h` or `--help` ends the scan with status 0, whatever follows |
| Cli.UnrecognizedExits | pycdas.cpp:109-111 | Any other word starting with `-` ends the scan with status 1, whatever follows |
| Cli.MissingOperandExits | pycdas.cpp:73-93 | `-o` or `-v` as the last argument ends the scan with status 1 |
| Cli.OpenFailureExits | pycdas.cpp:74-80 | An `-o` file that cannot be opened, or any `-o` after one that was opened, ends the scan with status 1 |
| Cli.OperandConsumed | pycdas.cpp:72-94 | `-o` and `-v` take the next argument as their operand even when it starts with `-` |
| Cli.PositionalSetsInput | pycdas.cpp:112-113 | A positional word becomes the input file, replacing any earlier one |
| Cli.CompiledSetsRawMode | pycdas.cpp:86-87 | `-c` sets raw mode and changes nothing else |
| Cli.RepeatedFlagIsIdempotent | pycdas.cpp:86-98 | A flag word given twice in a row scans as if given once |
| Cli.ScanExitCode | pycdas.cpp:71-115 | A scan that returns early exits with 0 or 1, and with 0 exactly on help |
| Cli.Load | pycdas.cpp:117-144 | With no input file the result is status 1 with nothing written. A module is ready only for the scanned input file. Every other end writes nothing and has status 1, or is an uncaught exception, which only raw mode can raise |
| Cli.Present | pycdas.cpp:145-156 | The text written is the banner followed by the rendered text, with status 0 and reason `Completed`; when the renderer throws it is the banner followed by the partial text, with status 1 and the render error as reason |
| Cli.Finish | pycdas.cpp:117-156 | After a full scan, status 0 comes with reason `Completed`, and only when an input file was named and the renderer did not throw. Text is written only for a named input file, starts with its display name, and comes with status 0 or a render error |
| Cli.FinishSucceedsIff | pycdas.cpp:117-159 | After a full scan, status 0 holds exactly when the checks and the load produced a module and the renderer did not throw |
| Cli.LoadReadyModule | pycdas.cpp:122-143 | The module `main` goes on with is the one the file loader returned without `-c`, and with `-c` the one the raw loader returned for the parsed version |
| Cli.FileLoadFailsExits | pycdas.cpp:123-129 | A file load that throws ends with status 1 and writes nothing |
| Cli.FileModeRenders | pycdas.cpp:123-156 | Without `-c`, the module the file loader returns is presented with the scanned flags |
| Cli.RawModeRenders | pycdas.cpp:130-156 | With `-c`, the module the raw loader returns for the parsed version is presented with the scanned flags |
| Cli.VersionFormatExits | pycdas.cpp:136-140 | A version string with no `'.'`, or ending in its first `'.'`, ends with status 1 and writes nothing |
| Cli.VersionStoiCrashes | pycdas.cpp:141-142 | A side of the version string that `stoi` cannot read is an uncaught exception |
| Cli.RawLoadCrashes | pycdas.cpp:143 | A raw load that throws is an uncaught exception |
| Cli.MainSpec | pycdas.cpp:62-159 | `main` exits with status 0 or 1. Status 0 means help or a completed rendering, and a completed rendering means the scan ran to the end and the renderer did not throw for the scanned flags. Text is written only on status 0 or a render error |
| Cli.MainAfterScan | pycdas.cpp:62-159 | A scan that runs to the end hands its final state to the checks, the load and the rendering |
| Cli.RunMain | pycdas.cpp:62-159 | `main` returns what `MainSpec` specifies |
| Cli.NoInputComesFirst | pycdas.cpp:117-120 | With no input file, the result is status 1 before any other check |
| Cli.NoPositionalExits | pycdas.cpp:112-120 | A command line that scans to the end without a positional word ends with status 1 and writes nothing |
| Cli.RawModeNeedsVersion | pycdas.cpp:130-134 | Raw mode without `-v` ends with status 1 and writes nothing |
| Cli.RawModeUsesParsedVersion | pycdas.cpp:122-143 | In raw mode the file loader is never used, and the raw loader is asked only for the parsed version |
| Cli.FileModeIgnoresVersion | pycdas.cpp:123-129 | Without `-c`, neither the version string nor the raw loader changes anything |
| Cli.RenderUsesScannedFlags | pycdas.cpp:150-152 | The renderer is asked only for the flags the scan collected |
| Cli.ScanExitWritesNothing | pycdas.cpp:71-115 | An early return of the scan writes nothing to the sink, and only help exits with 0 |
| Cli.MainAgreesWithDecompile | pycdas.cpp:24-156 | With no options and a module that loads, `main` writes what `decompile` returns, minus `decompile`'s render-error line |

## Left out

- The loader (`loadFromFile`, `loadFromBuffer`, `loadFromMarshalledFile`, `isValid`, `majorVer`, `minorVer`, `isUnicode`, `code()`) and the renderer `output_object`. Their code is not part of this model, so they are parameters that give abstract outcomes.
- The values of `Pyc::DISASM_PYCODE_VERBOSE` and `Pyc::DISASM_SHOW_CACHES`. The model uses two distinct single bits, 0x1 and 0x2.
- The texts written to standard error. The model keeps the reason for each exit instead.
- I/O. `formatted_print` and the stream writes become string concatenation. Opening the `-o` file is membership in the set of openable names, and the file it creates or truncates is not modelled.
- `strdup` and the ownership of the returned `char*`, and the `EMSCRIPTEN_KEEPALIVE` export attribute.
- Text bytes are Dafny characters, and the `argv` words are strings without NUL characters.
- Cli.RunMain: an exception from `output_object` in `main` is modelled as status 1 with the partially written sink. The text of its message on standard error is not.
- Cli.MainSpec: the result records the text written but not the stream it went to. Which sink the scan chose is stated by `Cli.ScanDoneState` and `Cli.RunDonePicks`.
- Text.Stoi: bases other than 10 are not modelled, because `main` calls `stoi` with the default base only.
