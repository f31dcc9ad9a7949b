/** The `-v x.y` version string of raw mode (pycdas.cpp, lines 135-142):
    split at the first `'.'`, then `std::stoi` on each side. */
module Version {
  import opened Text

  datatype Side = MajorPart | MinorPart

  /** The three ways the parse can end in `main`: the format check rejects
      the string (exit status 1), `stoi` throws on one side (an exception
      nothing catches), or both sides give numbers. */
  datatype VersionParse =
    | BadFormat
    | StoiThrew(side: Side, error: StoiError)
    | Pair(major: int, minor: int)

  /** Both `stoi` calls, major side first. */
  function BothSides(major: StoiResult, minor: StoiResult): VersionParse
  {
    match major
    case Threw(e) => StoiThrew(MajorPart, e)
    case Parsed(x) =>
      match minor
      case Threw(e) => StoiThrew(MinorPart, e)
      case Parsed(y) => Pair(x, y)
  }

  /** The string is rejected exactly when it has no `'.'` or its first `'.'`
      is its last character; otherwise major and minor are `stoi` of the text
      before and after the first `'.'`. */
  function ParseVersion(s: string): (r: VersionParse)
    ensures r == BadFormat <==> '.' !in s || (s[|s| - 1] == '.' && '.' !in s[..|s| - 1])
    ensures forall dot | 0 <= dot < |s| - 1 && s[dot] == '.' && '.' !in s[..dot] ::
      r == BothSides(Stoi(s[..dot]), Stoi(s[dot + 1..]))
  {
    match FirstIndexOf(s, '.')
    case None => BadFormat
    case Some(dot) =>
      if dot == |s| - 1 then BadFormat
      else
        assert s[..|s| - 1][dot] == '.';
        forall d | 0 <= d < |s| - 1 && s[d] == '.' && '.' !in s[..d] ensures d == dot {
          FirstIndexUnique(s, '.', d);
        }
        BothSides(Stoi(s[..dot]), Stoi(s[dot + 1..]))
  }

  /** The version `%d.%d` prints is parsed back to the same pair. */
  lemma ParseOfFormatted(major: int, minor: int)
    requires InIntRange(major) && InIntRange(minor)
    ensures ParseVersion(IntToDecimal(major) + "." + IntToDecimal(minor)) == Pair(major, minor)
  {
    var a, b := IntToDecimal(major), IntToDecimal(minor);
    var s := a + "." + b;
    assert '.' !in a by {
      if major < 0 { assert a == [a[0]] + a[1..]; }
    }
    assert s[..|a|] == a && s[|a|] == '.' && s[|a| + 1..] == b;
    assert ParseVersion(s) == BothSides(Stoi(a), Stoi(b));
    StoiOfDecimal(major);
    StoiOfDecimal(minor);
  }

  /** Decimal digit strings `x` and `y` give `(x, y)`, and anything after
      the digits of `y` that does not start with a digit is ignored:
      `"3.11abc"` and `"3.1.2"` are accepted. */
  lemma ParseOfDigits(s: string, x: string, y: string, rest: string)
    requires s == x + "." + y + rest
    requires x != [] && AllDigits(x) && DigitsValue(x) <= IntMax
    requires y != [] && AllDigits(y) && DigitsValue(y) <= IntMax
    requires rest == [] || !IsDigit(rest[0])
    ensures ParseVersion(s) == Pair(DigitsValue(x), DigitsValue(y))
  {
    assert '.' !in x by {
      forall i | 0 <= i < |x| ensures x[i] != '.' { assert IsDigit(x[i]); }
    }
    assert s[..|x|] == x && s[|x|] == '.' && s[|x| + 1..] == y + rest;
    StoiOfDigits(x, []);
    assert x + [] == x;
    StoiOfDigits(y, rest);
  }

  /** A second dot and what follows it are ignored: `"3.1.2"` is version 3.1. */
  lemma SecondDotExample()
    ensures ParseVersion("3.1.2") == Pair(3, 1)
  {
    var s, x, y, dotTwo := "3.1.2", "3", "1", ".2";
    assert s == x + "." + y + dotTwo;
    assert x[..0] == [] && y[..0] == [];
    assert DigitsValue(x) == 3 && DigitsValue(y) == 1;
    ParseOfDigits(s, x, y, dotTwo);
  }

  /** Letters after the minor number are ignored: `"3.11abc"` is version 3.11. */
  lemma TrailingLettersExample()
    ensures ParseVersion("3.11abc") == Pair(3, 11)
  {
    var s, x, y, abc := "3.11abc", "3", "11", "abc";
    assert s == x + "." + y + abc;
    assert x[..0] == [] && y[..1] == "1" && y[..1][..0] == [];
    assert DigitsValue(x) == 3 && DigitsValue(y) == 11;
    ParseOfDigits(s, x, y, abc);
  }

  /** Strings the format check rejects: no dot, or a dot only at the end. */
  lemma BadFormatExamples()
    ensures ParseVersion("3") == BadFormat
    ensures ParseVersion("3.") == BadFormat
  {
    var s := "3.";
    assert s[1] == '.' && s[..1] == "3";
  }

  /** A dot first makes `stoi` throw on the empty major side. */
  lemma EmptyMajorExample()
    ensures ParseVersion(".5") == StoiThrew(MajorPart, InvalidArgument)
  {
    var s, five := ".5", "5";
    assert s[0] == '.' && s[..0] == [] && s[1..] == five;
    StoiRejectsNonNumber([]);
  }

  /** A minor side with no digit makes the second `stoi` throw. */
  lemma NonNumericMinorExample()
    ensures ParseVersion("3.x") == StoiThrew(MinorPart, InvalidArgument)
  {
    var s, three, x := "3.x", "3", "x";
    assert s[1] == '.' && s[..1] == three && s[2..] == x;
    assert three[..0] == [];
    StoiOfDigits(three, []);
    assert three + [] == three;
    StoiRejectsNonNumber(x);
  }
}
