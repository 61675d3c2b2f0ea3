/** String helpers the handlers rely on: decimal rendering of counts, prefix
    tests, and Python's `str.split` with an explicit one-character separator. */
module Text {

  predicate IsDigit(c: char) {
    '0' <= c <= '9'
  }

  predicate AllDigits(s: string) {
    forall i :: 0 <= i < |s| ==> IsDigit(s[i])
  }

  function DigitChar(d: nat): (c: char)
    requires d < 10
    ensures IsDigit(c)
  {
    (48 + d) as char
  }

  function DigitValue(c: char): (d: nat)
    requires IsDigit(c)
    ensures d < 10 && DigitChar(d) == c
  {
    c as int - 48
  }

  /** Decimal rendering of a natural number, as Python's f-string `{n}` writes it. */
  function Decimal(n: nat): (r: string)
    ensures |r| >= 1 && AllDigits(r)
    decreases n
  {
    if n < 10 then [DigitChar(n)] else Decimal(n / 10) + [DigitChar(n % 10)]
  }

  /** The number a string of decimal digits denotes. */
  function DecimalValue(s: string): nat
    requires AllDigits(s)
    decreases |s|
  {
    if s == [] then 0 else DecimalValue(s[..|s| - 1]) * 10 + DigitValue(s[|s| - 1])
  }

  /** Reading back a rendered number gives the number. */
  lemma {:induction false} DecimalRoundTrip(n: nat)
    ensures DecimalValue(Decimal(n)) == n
    decreases n
  {
    if n >= 10 {
      var s := Decimal(n);
      assert s[..|s| - 1] == Decimal(n / 10);
      DecimalRoundTrip(n / 10);
    }
  }

  /** Distinct numbers render as distinct strings. */
  lemma DecimalInjective(a: nat, b: nat)
    requires Decimal(a) == Decimal(b)
    ensures a == b
  {
    DecimalRoundTrip(a);
    DecimalRoundTrip(b);
  }

  /** Python's `str(n)` for an integer of either sign. */
  function IntText(n: int): (r: string)
    ensures |r| >= 1
  {
    if n < 0 then "-" + Decimal(-n) else Decimal(n)
  }

  /** Only negative numbers are rendered with a leading minus sign. */
  lemma IntTextSign(n: int)
    ensures IntText(n)[0] == '-' <==> n < 0
  {
    if n >= 0 {
      assert IsDigit(Decimal(n)[0]);
    }
  }

  /** Distinct integers render as distinct strings. */
  lemma IntTextInjective(a: int, b: int)
    requires IntText(a) == IntText(b)
    ensures a == b
  {
    IntTextSign(a);
    IntTextSign(b);
    if a < 0 {
      assert Decimal(-a) == IntText(a)[1..];
      assert Decimal(-b) == IntText(b)[1..];
      DecimalInjective(-a, -b);
    } else {
      DecimalInjective(a, b);
    }
  }

  /** Python's `s.startswith(p)`. */
  predicate StartsWith(s: string, p: string) {
    |p| <= |s| && s[..|p|] == p
  }

  /** Python's `s.split(sep)` for a one-character separator: every occurrence
      of `sep` cuts, empty fields are kept, and there is always at least one field. */
  function Split(s: string, sep: char): (r: seq<string>)
    ensures |r| >= 1
    ensures forall i :: 0 <= i < |r| ==> sep !in r[i]
    ensures |r| == 1 <==> sep !in s
    ensures r[0] <= s
    ensures |r| == 1 ==> r[0] == s
    ensures |r| > 1 ==> |r[0]| < |s| && s[|r[0]|] == sep
    decreases |s|
  {
    if s == [] then [[]]
    else
      var rest := Split(s[1..], sep);
      if s[0] == sep then [[]] + rest
      else [[s[0]] + rest[0]] + rest[1..]
  }

  /** The first field is empty exactly when the text is empty or starts with the separator. */
  lemma FirstFieldEmpty(s: string, sep: char)
    ensures Split(s, sep)[0] == [] <==> s == [] || s[0] == sep
  {
    if s != [] && s[0] != sep {
      assert Split(s, sep)[0] == [s[0]] + Split(s[1..], sep)[0];
    }
  }

  /** Python's `sep.join(parts)`. */
  function JoinWith(parts: seq<string>, sep: char): string
    requires |parts| >= 1
    decreases |parts|
  {
    if |parts| == 1 then parts[0] else parts[0] + [sep] + JoinWith(parts[1..], sep)
  }

  /** Splitting loses nothing: joining the fields back with the separator restores the input. */
  lemma {:induction false} SplitJoin(s: string, sep: char)
    ensures JoinWith(Split(s, sep), sep) == s
    decreases |s|
  {
    if s != [] {
      var rest := Split(s[1..], sep);
      SplitJoin(s[1..], sep);
      assert s == [s[0]] + s[1..];
      if s[0] == sep {
        assert Split(s, sep) == [[]] + rest;
        JoinCons([], rest, sep);
      } else {
        assert Split(s, sep) == [[s[0]] + rest[0]] + rest[1..];
        JoinExtendFirst(s[0], rest, sep);
      }
    }
  }

  /** Joining after an extra leading field puts that field and a separator in front. */
  lemma JoinCons(w: string, parts: seq<string>, sep: char)
    requires |parts| >= 1
    ensures JoinWith([w] + parts, sep) == w + [sep] + JoinWith(parts, sep)
  {
    assert ([w] + parts)[1..] == parts;
  }

  /** Joining after growing the first field by one character in front grows the result the same way. */
  lemma JoinExtendFirst(c: char, parts: seq<string>, sep: char)
    requires |parts| >= 1
    ensures JoinWith([[c] + parts[0]] + parts[1..], sep) == [c] + JoinWith(parts, sep)
  {
    var ps := [[c] + parts[0]] + parts[1..];
    if |parts| > 1 {
      assert ps[1..] == parts[1..];
    }
  }

  /** A field free of the separator, followed by the separator, is split off as the first field. */
  lemma {:induction false} SplitAfterWord(w: string, sep: char, rest: string)
    requires sep !in w
    ensures Split(w + [sep] + rest, sep) == [w] + Split(rest, sep)
    decreases |w|
  {
    var s := w + [sep] + rest;
    if w == [] {
      assert s[1..] == rest;
    } else {
      assert s[1..] == w[1..] + [sep] + rest;
      SplitAfterWord(w[1..], sep, rest);
      SplitNonSep(s, sep);
      assert [w[0]] + w[1..] == w;
    }
  }

  /** One step of the split when the text starts with an ordinary character:
      it joins the first field of the remainder. */
  lemma SplitNonSep(s: string, sep: char)
    requires s != [] && s[0] != sep
    ensures Split(s, sep) == [[s[0]] + Split(s[1..], sep)[0]] + Split(s[1..], sep)[1..]
  {
  }
}
