/** The embedding entry point `decompile(filename, ptr, length)`
    (pycdas.cpp, lines 24-59): it loads a module from a buffer, renders it
    with no options into a string, and returns that string whatever
    happens; each failure is reported as one line of that text. */
module Embed {
  import opened Text
  import opened Pyc
  import opened Banner

  /** What `loadFromBuffer` followed by `isValid()` gives: the load threw,
      it returned a module that is not valid, or a valid module. */
  datatype BufferLoad = BufferThrew(message: string) | BufferInvalid | BufferLoaded(info: ModuleInfo)

  function LoadErrorLine(filename: string, message: string): string
  {
    "Error loading file " + filename + ": " + message + "\n"
  }

  function InvalidLine(filename: string): string
  {
    "Could not load file " + filename + "\n"
  }

  function RenderErrorLine(filename: string, message: string): string
  {
    "Error decompyling " + filename + ": " + message + "\n"
  }

  /** The text `decompile` returns. `render(flags)` is what `output_object`
      does with the loaded module's code object when called with those
      flags; `sep` is `PATHSEP`. */
  function Decompile(filename: string, sep: char, load: BufferLoad, render: Flags -> RenderOutcome): (r: string)
    ensures |r| > 0
    ensures load.BufferLoaded? ==> Header(DisplayName(filename, sep), load.info) <= r
  {
    match load
    case BufferThrew(msg) => LoadErrorLine(filename, msg)
    case BufferInvalid => InvalidLine(filename)
    case BufferLoaded(m) =>
      var header := Header(DisplayName(filename, sep), m);
      match render(0)
      case Rendered(text) => header + text
      case RenderThrew(partial, msg) => header + partial + RenderErrorLine(filename, msg)
  }

  /** A load that throws gives only the load-error line, naming the full file name. */
  lemma DecompileLoadThrew(filename: string, sep: char, msg: string, render: Flags -> RenderOutcome)
    ensures Decompile(filename, sep, BufferThrew(msg), render) == "Error loading file " + filename + ": " + msg + "\n"
  {
  }

  /** A module that loads but is not valid gives only the could-not-load line. */
  lemma DecompileInvalid(filename: string, sep: char, render: Flags -> RenderOutcome)
    ensures Decompile(filename, sep, BufferInvalid, render) == "Could not load file " + filename + "\n"
  {
  }

  /** A failed render gives the banner (with the display name), the text
      written before the failure, and the render-error line (with the full
      file name). */
  lemma DecompileRenderThrew(filename: string, sep: char, m: ModuleInfo, render: Flags -> RenderOutcome)
    requires render(0).RenderThrew?
    ensures Decompile(filename, sep, BufferLoaded(m), render)
         == Header(DisplayName(filename, sep), m) + render(0).partial
            + "Error decompyling " + filename + ": " + render(0).message + "\n"
  {
    var header := Header(DisplayName(filename, sep), m);
    var partial, msg := render(0).partial, render(0).message;
    assert header + partial + RenderErrorLine(filename, msg)
        == header + partial + "Error decompyling " + filename + ": " + msg + "\n";
  }

  /** A successful render gives the banner followed by the rendered text. */
  lemma DecompileRendered(filename: string, sep: char, m: ModuleInfo, render: Flags -> RenderOutcome)
    requires render(0).Rendered?
    ensures Decompile(filename, sep, BufferLoaded(m), render) == Header(DisplayName(filename, sep), m) + render(0).text
  {
  }

  /** The renderer is only ever asked for the default rendering: two renderers
      that agree on flags 0 give the same text. */
  lemma DecompileUsesNoFlags(filename: string, sep: char, load: BufferLoad, render1: Flags -> RenderOutcome, render2: Flags -> RenderOutcome)
    requires render1(0) == render2(0)
    ensures Decompile(filename, sep, load, render1) == Decompile(filename, sep, load, render2)
  {
  }

  /** A render that fails part-way returns exactly what a render that
      produced only the partial text would, followed by one error line. */
  lemma DecompileKeepsPartialOutput(filename: string, sep: char, m: ModuleInfo, render: Flags -> RenderOutcome)
    requires render(0).RenderThrew?
    ensures var whole := Decompile(filename, sep, BufferLoaded(m), render);
      var upTo := Decompile(filename, sep, BufferLoaded(m), _ => Rendered(render(0).partial));
      whole == upTo + RenderErrorLine(filename, render(0).message)
  {
  }

  /** When the module loads, the returned text starts with the banner, and
      reading that banner back gives the display name and the version. */
  lemma DecompileStartsWithBanner(filename: string, sep: char, m: ModuleInfo, render: Flags -> RenderOutcome)
    requires InIntRange(m.major) && InIntRange(m.minor)
    ensures var r := Decompile(filename, sep, BufferLoaded(m), render);
      exists n: nat :: n <= |r| && ParseHeader(r[..n])
        == Some(HeaderFields(DisplayName(filename, sep), m.major, m.minor, m.major < 3 && m.unicode))
  {
    var h := Header(DisplayName(filename, sep), m);
    var r := Decompile(filename, sep, BufferLoaded(m), render);
    assert r[..|h|] == h;
    HeaderRoundTrip(DisplayName(filename, sep), m);
  }
}
