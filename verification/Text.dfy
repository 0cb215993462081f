/** Strings as the service handles them: decimal numerals, splitting on a
    separator, and Python's `$`, which also matches before one final newline. */
module Text {

  /* ----- decimal numerals ----- */

  predicate IsDigit(c: char) {
    '0' <= c <= '9'
  }

  predicate AllDigits(s: string) {
    forall i :: 0 <= i < |s| ==> IsDigit(s[i])
  }

  /** The language of `0|[1-9][0-9]*`. */
  predicate IsNumeral(s: string) {
    s != "" && AllDigits(s) && (s[0] == '0' ==> |s| == 1)
  }

  function DigitValue(c: char): nat
    requires IsDigit(c)
  {
    c as int - '0' as int
  }

  function DigitChar(d: nat): (c: char)
    requires d < 10
    ensures IsDigit(c) && DigitValue(c) == d
  {
    ('0' as int + d) as char
  }

  /** `int(s)` on a string of digits. */
  function ToNat(s: string): nat
    requires AllDigits(s)
  {
    if s == "" then 0 else 10 * ToNat(s[..|s| - 1]) + DigitValue(s[|s| - 1])
  }

  /** `str(n)`. */
  function Render(n: nat): (s: string)
    ensures IsNumeral(s)
    ensures ToNat(s) == n
    ensures n > 0 ==> s[0] != '0'
  {
    if n < 10 then [DigitChar(n)]
    else
      var front, s := Render(n / 10), Render(n / 10) + [DigitChar(n % 10)];
      assert s[..|s| - 1] == front;
      s
  }

  /** Digits are read in base ten, the most significant first. */
  lemma ToNatAppends(s: string, c: char)
    requires AllDigits(s) && '0' <= c <= '9'
    ensures AllDigits(s + [c]) && ToNat("") == 0
    ensures ToNat(s + [c]) == 10 * ToNat(s) + (c as int - '0' as int)
  {
    assert (s + [c])[..|s|] == s;
  }

  /** Decimal rendering is the inverse of `int` on numerals, so it is injective. */
  lemma {:induction false} RenderOfNat(s: string)
    requires IsNumeral(s)
    ensures Render(ToNat(s)) == s
  {
    if |s| > 1 {
      var front, d := s[..|s| - 1], DigitValue(s[|s| - 1]);
      assert front[0] == s[0];
      RenderOfNat(front);
      TensAndUnits(ToNat(front), d);
      assert Render(ToNat(s)) == Render(ToNat(front)) + [DigitChar(d)];
      assert s == front + [s[|s| - 1]];
    }
  }

  lemma TensAndUnits(tens: nat, units: nat)
    requires units < 10
    ensures (10 * tens + units) / 10 == tens && (10 * tens + units) % 10 == units
  {
  }

  function Pow10(k: nat): nat {
    if k == 0 then 1 else 10 * Pow10(k - 1)
  }

  lemma {:induction false} ToNatBound(s: string)
    requires AllDigits(s)
    ensures ToNat(s) < Pow10(|s|)
  {
    if s != "" {
      ToNatBound(s[..|s| - 1]);
    }
  }

  lemma {:induction false} Pow10Monotone(j: nat, k: nat)
    requires j <= k
    ensures Pow10(j) <= Pow10(k)
    decreases k
  {
    if j < k {
      Pow10Monotone(j, k - 1);
    }
  }

  lemma {:induction false} RenderLength(n: nat, k: nat)
    requires k >= 1 && n < Pow10(k)
    ensures |Render(n)| <= k
  {
    if n >= 10 {
      assert k >= 2 by {
        assert Pow10(1) == 10;
      }
      RenderLength(n / 10, k - 1);
    }
  }

  /* ----- splitting and joining ----- */

  function Split(s: string, sep: char): (parts: seq<string>)
    ensures parts != []
  {
    if s == "" then [""]
    else if s[0] == sep then [""] + Split(s[1..], sep)
    else
      var rest := Split(s[1..], sep);
      [[s[0]] + rest[0]] + rest[1..]
  }

  function Join(parts: seq<string>, sep: char): string
    requires parts != []
  {
    if |parts| == 1 then parts[0] else parts[0] + [sep] + Join(parts[1..], sep)
  }

  ghost predicate Free(s: string, sep: char) {
    sep !in s
  }

  /** Splitting loses nothing and leaves no separator inside a part. */
  lemma {:induction false} JoinOfSplit(s: string, sep: char)
    ensures Join(Split(s, sep), sep) == s
    ensures forall i :: 0 <= i < |Split(s, sep)| ==> Free(Split(s, sep)[i], sep)
  {
    if s != "" {
      JoinOfSplit(s[1..], sep);
      var rest := Split(s[1..], sep);
      if s[0] == sep {
        assert ([""] + rest)[1..] == rest;
      } else {
        var first := [s[0]] + rest[0];
        assert ([first] + rest[1..])[1..] == rest[1..];
        assert s == [s[0]] + s[1..];
        if |rest| > 1 {
          assert first + [sep] + Join(rest[1..], sep) == [s[0]] + (rest[0] + [sep] + Join(rest[1..], sep));
        }
      }
    }
  }

  lemma {:induction false} SplitOfFree(s: string, sep: char)
    requires Free(s, sep)
    ensures Split(s, sep) == [s]
  {
    if s != "" {
      SplitOfFree(s[1..], sep);
      assert s == [s[0]] + s[1..];
    }
  }

  lemma {:induction false} SplitOfFreePrefix(first: string, tail: string, sep: char)
    requires Free(first, sep)
    ensures Split(first + [sep] + tail, sep) == [first] + Split(tail, sep)
  {
    var s := first + [sep] + tail;
    if first == "" {
      assert s[1..] == tail;
    } else {
      assert s[1..] == first[1..] + [sep] + tail;
      SplitOfFreePrefix(first[1..], tail, sep);
      assert first == [first[0]] + first[1..];
    }
  }

  lemma {:induction false} SplitOfConcat(s: string, t: string, sep: char)
    ensures Split(s + [sep] + t, sep) == Split(s, sep) + Split(t, sep)
  {
    var whole := s + [sep] + t;
    if s == "" {
      assert whole[1..] == t;
    } else {
      assert whole[1..] == s[1..] + [sep] + t;
      SplitOfConcat(s[1..], t, sep);
    }
  }

  /** Joining separator-free parts is undone by splitting, so it is injective. */
  lemma {:induction false} SplitOfJoin(parts: seq<string>, sep: char)
    requires parts != []
    requires forall i :: 0 <= i < |parts| ==> Free(parts[i], sep)
    ensures Split(Join(parts, sep), sep) == parts
  {
    if |parts| == 1 {
      SplitOfFree(parts[0], sep);
    } else {
      SplitOfJoin(parts[1..], sep);
      SplitOfFreePrefix(parts[0], Join(parts[1..], sep), sep);
      assert parts == [parts[0]] + parts[1..];
    }
  }

  /* ----- one optional final newline ----- */

  predicate EndsWithNewline(s: string) {
    s != "" && s[|s| - 1] == '\n'
  }

  /** What a `^...$` pattern body has to match: the string less one final newline. */
  function Chomp(s: string): string {
    if EndsWithNewline(s) then s[..|s| - 1] else s
  }

  /* ----- surrounding white space, for ASCII ----- */

  predicate IsSpace(c: char) {
    c == ' ' || c == '\t' || c == '\n' || c == '\r'
  }

  function Strip(s: string): string {
    if s != "" && IsSpace(s[0]) then Strip(s[1..])
    else if s != "" && IsSpace(s[|s| - 1]) then Strip(s[..|s| - 1])
    else s
  }

  lemma {:induction false} StripTrims(s: string)
    ensures Strip(s) != "" ==> !IsSpace(Strip(s)[0]) && !IsSpace(Strip(s)[|Strip(s)| - 1])
    decreases |s|
  {
    if s != "" && IsSpace(s[0]) {
      StripTrims(s[1..]);
    } else if s != "" && IsSpace(s[|s| - 1]) {
      StripTrims(s[..|s| - 1]);
    }
  }

  /** Trimming cuts white space off both ends, and nothing else. */
  lemma {:induction false} StripCuts(s: string) returns (i: nat, j: nat)
    ensures i <= j <= |s| && Strip(s) == s[i..j]
    ensures forall k :: 0 <= k < i || j <= k < |s| ==> s[k] in {' ', '\t', '\n', '\r'}
    ensures i < j ==> s[i] !in {' ', '\t', '\n', '\r'} && s[j - 1] !in {' ', '\t', '\n', '\r'}
    decreases |s|
  {
    i, j := 0, |s|;
    if s != "" && IsSpace(s[0]) {
      i, j := StripCuts(s[1..]);
      assert s[1..][i..j] == s[i + 1..j + 1];
      assert forall k :: 1 <= k < |s| ==> s[k] == s[1..][k - 1];
      i, j := i + 1, j + 1;
    } else if s != "" && IsSpace(s[|s| - 1]) {
      i, j := StripCuts(s[..|s| - 1]);
      assert s[..|s| - 1][i..j] == s[i..j];
    }
  }

  lemma {:induction false} StripKeepsFree(s: string, c: char)
    requires Free(s, c)
    ensures Free(Strip(s), c)
    decreases |s|
  {
    if s != "" && IsSpace(s[0]) {
      StripKeepsFree(s[1..], c);
    } else if s != "" && IsSpace(s[|s| - 1]) {
      StripKeepsFree(s[..|s| - 1], c);
    }
  }
}
