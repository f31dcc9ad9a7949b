/** The first line of every rendering: the display name of the input and
    the version the module reports (pycdas.cpp, lines 43-47 and 145-149). */
module Banner {
  import opened Text
  import opened Pyc
  import Version

  /** `PATHSEP`: `'\\'` on Windows builds, `'/'` elsewhere. */
  function PathSep(windows: bool): (c: char)
    ensures c == '\\' || c == '/'
  {
    if windows then '\\' else '/'
  }

  /** `strrchr(name, PATHSEP)`, then the text after it, or the whole name
      when it holds no separator. */
  function DisplayName(name: string, sep: char): (r: string)
    ensures |r| <= |name| && r == name[|name| - |r|..]
    ensures sep !in r
    ensures r == name || name[|name| - |r| - 1] == sep
  {
    match LastIndexOf(name, sep)
    case None => name
    case Some(k) => name[k + 1..]
  }

  /** The three properties above single out the display name: it is the
      longest suffix without a separator. */
  lemma DisplayNameUnique(name: string, sep: char, r: string)
    requires |r| <= |name| && r == name[|name| - |r|..]
    requires sep !in r
    requires r == name || name[|name| - |r| - 1] == sep
    ensures r == DisplayName(name, sep)
  {
  }

  /** A path ending in a separator and a base name displays as that base name. */
  lemma DisplayNameOfPath(dir: string, sep: char, base: string)
    requires sep !in base
    ensures DisplayName(dir + [sep] + base, sep) == base
  {
    var name := dir + [sep] + base;
    assert name[|name| - |base|..] == base;
    assert name[|name| - |base| - 1] == sep;
    DisplayNameUnique(name, sep, base);
  }

  /** Taking the display name twice changes nothing. */
  lemma DisplayNameIdempotent(name: string, sep: char)
    ensures DisplayName(DisplayName(name, sep), sep) == DisplayName(name, sep)
  {
    var d := DisplayName(name, sep);
    assert d[|d| - |d|..] == d;
    DisplayNameUnique(d, sep, d);
  }

  /** The ` -U` marker: a Python 2 module that uses Unicode strings. */
  function UnicodeMark(m: ModuleInfo): string
  {
    if m.major < 3 && m.unicode then " -U" else ""
  }

  /** `%d.%d` of the major and minor version. */
  function VersionText(m: ModuleInfo): string
  {
    IntToDecimal(m.major) + "." + IntToDecimal(m.minor)
  }

  /** The banner `"%s (Python %d.%d%s)\n"`: one line that starts with the display name. */
  function Header(dispname: string, m: ModuleInfo): (r: string)
    ensures |r| > |dispname| && dispname <= r
    ensures r[|r| - 1] == '\n' && '\n' !in r[|dispname|..|r| - 1]
  {
    var tail := PythonOpen + VersionText(m) + UnicodeMark(m) + ")";
    DecimalHasNoSpaceDotOrNewline(m.major);
    DecimalHasNoSpaceDotOrNewline(m.minor);
    assert '\n' !in tail;
    var r := dispname + tail + "\n";
    assert r[..|dispname|] == dispname;
    assert r[|dispname|..|r| - 1] == tail;
    r
  }

  /** What a reader of the banner line learns from it. */
  datatype HeaderFields = HeaderFields(name: string, major: int, minor: int, unicodeMark: bool)

  const PythonOpen := " (Python "

  /** Removes a trailing `" -U"`, saying whether there was one. */
  function StripMark(body: string): (string, bool)
  {
    if |body| >= 3 && body[|body| - 3..] == " -U" then (body[..|body| - 3], true) else (body, false)
  }

  /** Splits `"<name> (Python <version>"` at its last space. */
  function SplitName(core: string): Option<(string, string)>
  {
    match LastIndexOf(core, ' ')
    case None => None
    case Some(k) =>
      if k < 8 || core[k - 8..k + 1] != PythonOpen then None
      else Some((core[..k - 8], core[k + 1..]))
  }

  /** Reads a banner back: a closing `")\n"`, an optional `" -U"` before it,
      the name before the last space that ends `" (Python "`, and a version
      that the version parser accepts after it. */
  function ParseHeader(h: string): Option<HeaderFields>
  {
    if |h| < 2 || h[|h| - 2..] != ")\n" then None
    else
      var (core, marked) := StripMark(h[..|h| - 2]);
      match SplitName(core)
      case None => None
      case Some((name, ver)) =>
        match Version.ParseVersion(ver)
        case Pair(major, minor) => Some(HeaderFields(name, major, minor, marked))
        case _ => None
  }

  /** `%d` writes a sign and digits only: no space, no `'.'`, no line feed. */
  lemma DecimalHasNoSpaceDotOrNewline(n: int)
    ensures ' ' !in IntToDecimal(n) && '.' !in IntToDecimal(n) && '\n' !in IntToDecimal(n)
  {
    var s := IntToDecimal(n);
    forall i | 0 <= i < |s| ensures s[i] != ' ' && s[i] != '.' && s[i] != '\n' {
      if n < 0 && i > 0 { assert s[1..][i - 1] == s[i]; }
    }
  }

  /** The last character `%d` writes is a digit. */
  lemma DecimalEndsInDigit(n: int)
    ensures var s := IntToDecimal(n); IsDigit(s[|s| - 1])
  {
    var s := IntToDecimal(n);
    if n < 0 { assert s[1..][|s| - 2] == s[|s| - 1]; }
  }

  /** Splitting the banner's text before the version at its last space
      gives back the name and the version text. */
  lemma SplitNameOf(name: string, ver: string)
    requires ' ' !in ver
    ensures SplitName(name + PythonOpen + ver) == Some((name, ver))
  {
    var core := name + PythonOpen + ver;
    var k := |name| + 8;
    assert core[k] == ' ';
    assert core[k + 1..] == ver;
    LastIndexUnique(core, ' ', k);
    assert core[k - 8..k + 1] == PythonOpen;
    assert core[..k - 8] == name;
  }

  /** The banner is the name, `" (Python "`, the version text, the marker
      and `")\n"`, in that order. */
  lemma HeaderSplits(dispname: string, m: ModuleInfo)
    ensures Header(dispname, m) == (dispname + PythonOpen + VersionText(m)) + UnicodeMark(m) + ")\n"
  {
  }

  /** The banner is unambiguous: reading it back gives the display name,
      the version, and the ` -U` marker exactly when the major version is
      below 3 and the module uses Unicode strings. */
  lemma HeaderRoundTrip(dispname: string, m: ModuleInfo)
    requires InIntRange(m.major) && InIntRange(m.minor)
    ensures ParseHeader(Header(dispname, m))
         == Some(HeaderFields(dispname, m.major, m.minor, m.major < 3 && m.unicode))
  {
    var ver := VersionText(m);
    var u := UnicodeMark(m);
    var core := dispname + PythonOpen + ver;
    var h := Header(dispname, m);
    HeaderSplits(dispname, m);
    assert h[|h| - 2..] == ")\n";
    var body := h[..|h| - 2];
    assert body == core + u;
    assert StripMark(body) == (core, m.major < 3 && m.unicode) by {
      if u == "" {
        DecimalEndsInDigit(m.minor);
        assert body == core && body[|body| - 1] == ver[|ver| - 1];
        if |body| >= 3 {
          assert body[|body| - 3..][2] == body[|body| - 1];
        }
      } else {
        assert body[|body| - 3..] == u;
        assert body[..|body| - 3] == core;
      }
    }
    DecimalHasNoSpaceDotOrNewline(m.major);
    DecimalHasNoSpaceDotOrNewline(m.minor);
    SplitNameOf(dispname, ver);
    Version.ParseOfFormatted(m.major, m.minor);
    assert ver == IntToDecimal(m.major) + "." + IntToDecimal(m.minor);
    assert Version.ParseVersion(ver) == Version.Pair(m.major, m.minor);
  }

  /** The banner ends in `" -U)\n"` exactly when the major version is below 3
      and the module uses Unicode strings. */
  lemma HeaderMarkIff(dispname: string, m: ModuleInfo)
    ensures var h := Header(dispname, m);
      |h| >= 5 && (h[|h| - 5..] == " -U)\n" <==> m.major < 3 && m.unicode)
  {
    var ver := VersionText(m);
    var h := Header(dispname, m);
    HeaderSplits(dispname, m);
    if !(m.major < 3 && m.unicode) {
      assert h[|h| - 3] == ver[|ver| - 1];
      DecimalEndsInDigit(m.minor);
    }
  }
}
