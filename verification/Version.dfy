/** Firmware versions (app/domain/version.py): `major.minor.patch`, compared as
    integers and never as strings. */
module Version {
  import opened Wrappers
  import opened Text

  const MAX_VERSION_LENGTH := 15

  /** The numeric sort key of a version. */
  datatype Triple = Triple(major: nat, minor: nat, patch: nat) {
    predicate Less(other: Triple) {
      || major < other.major
      || (major == other.major && minor < other.minor)
      || (major == other.major && minor == other.minor && patch < other.patch)
    }

    predicate AtMost(other: Triple) {
      this == other || Less(other)
    }

    function Print(): string {
      Dotted(Render(major), Render(minor), Render(patch))
    }
  }

  function Dotted(a: string, b: string, c: string): string {
    a + "." + b + "." + c
  }

  /** The version pattern, as a language: three numerals joined by dots, with at
      most one newline after them because Python's `$` allows it. */
  ghost predicate MatchesPattern(v: string) {
    exists a, b, c ::
      IsNumeral(a) && IsNumeral(b) && IsNumeral(c) && Chomp(v) == Dotted(a, b, c)
  }

  predicate IsValidVersion(v: string) {
    var parts := Split(v, '.');
    && |parts| == 3
    && IsNumeral(parts[0]) && IsNumeral(parts[1]) && IsNumeral(Chomp(parts[2]))
    && |v| <= MAX_VERSION_LENGTH
  }

  /** `None` stands for the ValueError of the source. `int` skips the newline. */
  function ParseVersion(v: string): Option<Triple> {
    if IsValidVersion(v) then
      var parts := Split(v, '.');
      Some(Triple(ToNat(parts[0]), ToNat(parts[1]), ToNat(Chomp(parts[2]))))
    else
      None
  }

  /** The numeric key of a version known to be valid. */
  function Key(v: string): (t: Triple)
    requires IsValidVersion(v)
  {
    ParseVersion(v).value
  }

  lemma NumeralFree(s: string, c: char)
    requires IsNumeral(s) && !IsDigit(c)
    ensures Free(s, c)
  {
  }

  lemma SplitOfDotted(a: string, b: string, c: string)
    requires Free(a, '.') && Free(b, '.') && Free(c, '.')
    ensures Split(Dotted(a, b, c), '.') == [a, b, c]
  {
    SplitOfFree(c, '.');
    SplitOfFreePrefix(b, c, '.');
    SplitOfFreePrefix(a, b + "." + c, '.');
    assert Dotted(a, b, c) == a + "." + (b + "." + c);
  }

  lemma DottedOfSplit(v: string)
    requires |Split(v, '.')| == 3
    ensures v == Dotted(Split(v, '.')[0], Split(v, '.')[1], Split(v, '.')[2])
  {
    var parts := Split(v, '.');
    JoinOfSplit(v, '.');
    assert Join(parts, '.') == parts[0] + "." + Join(parts[1..], '.');
    assert Join(parts[1..], '.') == parts[1] + "." + Join(parts[1..][1..], '.');
    assert parts[1..][1..] == [parts[2]];
    assert v == parts[0] + "." + (parts[1] + "." + parts[2]);
  }

  /** A valid version is a dotted triple of numerals, up to the newline. */
  lemma Parts(v: string) returns (a: string, b: string, c: string)
    requires IsValidVersion(v)
    ensures IsNumeral(a) && IsNumeral(b) && IsNumeral(c)
    ensures Chomp(v) == Dotted(a, b, c)
    ensures Key(v) == Triple(ToNat(a), ToNat(b), ToNat(c))
    ensures |a| + |b| + |c| + 2 <= |v|
  {
    var parts := Split(v, '.');
    DottedOfSplit(v);
    a, b, c := parts[0], parts[1], Chomp(parts[2]);
    if EndsWithNewline(parts[2]) {
      assert v == Dotted(a, b, c) + "\n";
    }
  }

  /** Three parts, the last of which may end with the newline, parse to their numerals. */
  lemma SplitParses(v: string, a: string, b: string, last: string)
    requires IsNumeral(a) && IsNumeral(b) && IsNumeral(Chomp(last)) && Split(v, '.') == [a, b, last]
    ensures IsValidVersion(v) <==> |v| <= MAX_VERSION_LENGTH
    ensures IsValidVersion(v) ==> Key(v) == Triple(ToNat(a), ToNat(b), ToNat(Chomp(last)))
  {
  }

  lemma DottedLast(v: string, a: string, b: string, c: string) returns (last: string)
    requires IsNumeral(c) && Chomp(v) == Dotted(a, b, c)
    ensures v == Dotted(a, b, last) && Chomp(last) == c && (last == c || last == c + "\n")
  {
    last := if EndsWithNewline(v) then c + "\n" else c;
    assert IsDigit(c[|c| - 1]);
    if EndsWithNewline(v) {
      assert v == Chomp(v) + "\n" == Dotted(a, b, last);
    }
  }

  /** A dotted triple, with or without the newline, parses to its numerals. */
  lemma DottedParses(v: string, a: string, b: string, c: string)
    requires IsNumeral(a) && IsNumeral(b) && IsNumeral(c)
    requires Chomp(v) == Dotted(a, b, c)
    ensures IsValidVersion(v) <==> |v| <= MAX_VERSION_LENGTH
    ensures IsValidVersion(v) ==> Key(v) == Triple(ToNat(a), ToNat(b), ToNat(c))
  {
    var last := DottedLast(v, a, b, c);
    NumeralFree(a, '.');
    NumeralFree(b, '.');
    NumeralFree(c, '.');
    SplitOfDotted(a, b, last);
    SplitParses(v, a, b, last);
  }

  /** The split-based test accepts exactly the pattern's language, within the
      device parser's length. */
  lemma ValidIffMatches(v: string)
    ensures IsValidVersion(v) <==> MatchesPattern(v) && |v| <= 15
  {
    if MatchesPattern(v) && |v| <= MAX_VERSION_LENGTH {
      var a, b, c :|
        IsNumeral(a) && IsNumeral(b) && IsNumeral(c) && Chomp(v) == Dotted(a, b, c);
      DottedParses(v, a, b, c);
    }
    if IsValidVersion(v) {
      var a, b, c := Parts(v);
    }
  }

  /** Printing the parsed triple restores the version up to its final newline. */
  lemma PrintOfParse(v: string)
    requires IsValidVersion(v)
    ensures Key(v).Print() == Chomp(v)
  {
    var a, b, c := Parts(v);
    RenderOfNat(a);
    RenderOfNat(b);
    RenderOfNat(c);
  }

  /** Every printed triple is accepted back as itself, when it is short enough
      for the device parser. */
  lemma ParseOfPrint(t: Triple)
    ensures
      var v := Render(t.major) + "." + Render(t.minor) + "." + Render(t.patch);
      (IsValidVersion(v) <==> |v| <= 15) && (IsValidVersion(v) ==> Key(v) == t)
  {
    var a, b, c := Render(t.major), Render(t.minor), Render(t.patch);
    var v := a + "." + b + "." + c;
    assert v[|v| - 1] == c[|c| - 1] && IsDigit(c[|c| - 1]);
    DottedParses(v, a, b, c);
  }

  lemma SameDigitsSameKey(v: string, w: string)
    requires IsValidVersion(v) && IsValidVersion(w) && Chomp(v) == Chomp(w)
    ensures Key(v) == Key(w)
  {
    var a, b, c := Parts(v);
    DottedParses(w, a, b, c);
  }

  lemma ChompDecides(v: string, w: string)
    ensures v == w <==> Chomp(v) == Chomp(w) && EndsWithNewline(v) == EndsWithNewline(w)
  {
  }

  /** Parsing decides equality: string equality is numeric equality exactly when
      the two versions agree about the final newline. */
  lemma ParseDecidesEquality(v: string, w: string)
    requires IsValidVersion(v) && IsValidVersion(w)
    ensures Key(v) == Key(w) <==> Chomp(v) == Chomp(w)
    ensures v == w <==> Key(v) == Key(w) && EndsWithNewline(v) == EndsWithNewline(w)
  {
    if Key(v) == Key(w) {
      PrintOfParse(v);
      PrintOfParse(w);
    }
    if Chomp(v) == Chomp(w) {
      SameDigitsSameKey(v, w);
    }
    ChompDecides(v, w);
  }

  /** The two spellings of one version number, which the pattern both accepts. */
  lemma NewlineSpellingCollides()
    ensures IsValidVersion("1.2.0") && IsValidVersion("1.2.0\n")
    ensures "1.2.0" != "1.2.0\n" && Key("1.2.0") == Key("1.2.0\n")
  {
    assert Chomp("1.2.0\n") == "1.2.0" == Dotted("1", "2", "0");
    DottedParses("1.2.0", "1", "2", "0");
    DottedParses("1.2.0\n", "1", "2", "0");
  }

  /** Fifteen characters leave at most eleven digits for one component. */
  lemma ComponentBound(v: string)
    requires IsValidVersion(v)
    ensures Key(v).major < 100_000_000_000
    ensures Key(v).minor < 100_000_000_000
    ensures Key(v).patch < 100_000_000_000
  {
    var a, b, c := Parts(v);
    ComponentDigits(a);
    ComponentDigits(b);
    ComponentDigits(c);
  }

  lemma ComponentDigits(s: string)
    requires IsNumeral(s) && |s| <= 11
    ensures ToNat(s) < 100_000_000_000
  {
    ToNatBound(s);
    Pow10Monotone(|s|, 11);
    assert Pow10(11) == 10 * Pow10(10) == 100 * Pow10(9) == 1000 * Pow10(8) == 10_000 * Pow10(7);
    assert Pow10(7) == 10 * Pow10(6) == 100 * Pow10(5) == 1000 * Pow10(4) == 10_000 * Pow10(3);
    assert Pow10(3) == 1000;
  }

  /** The order is that of the numbers whose digits, in a base above every component,
      are major, minor and patch; so it is by major first and patch last. */
  lemma OrderIsNumeric(v: string, w: string)
    requires IsValidVersion(v) && IsValidVersion(w)
    ensures
      var a, b := Key(v), Key(w);
      var base := 100_000_000_000;
      a.Less(b) <==> (a.major * base + a.minor) * base + a.patch < (b.major * base + b.minor) * base + b.patch
  {
    ComponentBound(v);
    ComponentBound(w);
  }

  lemma LessIsStrictTotal(a: Triple, b: Triple, c: Triple)
    ensures !a.Less(a)
    ensures a.Less(b) || a == b || b.Less(a)
    ensures a.Less(b) ==> !b.Less(a)
    ensures a.Less(b) && b.Less(c) ==> a.Less(c)
  {
  }
}
