/** Character and string primitives shared by the C++ parts of the model:
    the C library's white-space and digit classes, the number reading done
    by `istream >> int` and `atoi`, the `std::string` search members, and
    splitting a string at a separator. */
module Text {
  import opened Wrappers

  /** `isspace` in the "C" locale: space, \t, \n, \v, \f and \r. */
  predicate IsSpace(c: char) {
    c == ' ' || c == '\t' || c == '\n' || c == '\r' || c == 11 as char || c == 12 as char
  }

  predicate IsDigit(c: char) {
    '0' <= c <= '9'
  }

  predicate AllDigits(s: string) {
    forall i :: 0 <= i < |s| ==> IsDigit(s[i])
  }

  function DigitValue(c: char): (d: nat)
    requires IsDigit(c)
    ensures d < 10
  {
    c as int - '0' as int
  }

  function DigitChar(d: nat): (c: char)
    requires d < 10
    ensures IsDigit(c) && DigitValue(c) == d
  {
    ('0' as int + d) as char
  }

  /** `s` without its leading white space. */
  function SkipSpaces(s: string): (r: string)
    ensures |r| <= |s| && r == s[|s| - |r|..]
    ensures r == [] || !IsSpace(r[0])
    ensures forall i :: 0 <= i < |s| - |r| ==> IsSpace(s[i])
  {
    if s != [] && IsSpace(s[0]) then SkipSpaces(s[1..]) else s
  }

  /** Length of the longest all-digit prefix of `s`. */
  function DigitRun(s: string): (n: nat)
    ensures n <= |s|
    ensures AllDigits(s[..n])
    ensures n == |s| || !IsDigit(s[n])
  {
    if s != [] && IsDigit(s[0]) then
      var n := 1 + DigitRun(s[1..]);
      assert s[..n] == [s[0]] + s[1..][..n - 1];
      n
    else 0
  }

  /** The number a string of decimal digits denotes, most significant first. */
  function DigitsValue(s: string): nat
    requires AllDigits(s)
  {
    if s == [] then 0 else 10 * DigitsValue(s[..|s| - 1]) + DigitValue(s[|s| - 1])
  }

  /** Decimal numeral of `n`, without leading zeros. */
  function NatToDigits(n: nat): (s: string)
    ensures |s| >= 1 && AllDigits(s)
  {
    if n < 10 then [DigitChar(n)] else NatToDigits(n / 10) + [DigitChar(n % 10)]
  }

  /** Decimal numeral of `v`, with a leading '-' when negative. */
  function IntToString(v: int): string {
    if v < 0 then "-" + NatToDigits(-v) else NatToDigits(v)
  }

  /** The number denoted by the digits at the head of `u`, if any. */
  function UnsignedNumeral(u: string): Option<nat> {
    var n := DigitRun(u);
    if n == 0 then None else Some(DigitsValue(u[..n]))
  }

  /** The integer denoted by the numeral at the head of `s`: leading white
      space, an optional sign, then one or more digits; anything after the
      digits is ignored. None when there is no such numeral. */
  function LeadingInt(s: string): Option<int> {
    SignedNumeral(SkipSpaces(s))
  }

  /** The integer denoted by an optional sign and the digits after it. */
  function SignedNumeral(t: string): Option<int> {
    if t != [] && t[0] == '-' then
      match UnsignedNumeral(t[1..])
      case Some(m) => Some(-(m as int))
      case None => None
    else if t != [] && t[0] == '+' then
      match UnsignedNumeral(t[1..])
      case Some(m) => Some(m)
      case None => None
    else
      match UnsignedNumeral(t)
      case Some(m) => Some(m)
      case None => None
  }

  const INT_MIN: int := -0x8000_0000
  const INT_MAX: int := 0x7FFF_FFFF

  /** What `is >> v` stores into a 32-bit `int v` read from a fresh
      `istringstream(s)` (C++98 library): None when the extraction fails,
      either because no numeral heads the text or because its value does not
      fit, in which case `v` keeps the value it had. */
  function ExtractInt(s: string): (r: Option<int>)
    ensures r.Some? ==> INT_MIN <= r.value <= INT_MAX
    ensures r.Some? <==> LeadingInt(s).Some? && INT_MIN <= LeadingInt(s).value <= INT_MAX
    ensures r.Some? ==> r.value == LeadingInt(s).value
  {
    match LeadingInt(s)
    case Some(v) => if INT_MIN <= v <= INT_MAX then Some(v) else None
    case None => None
  }

  /** C `atoi`: the leading numeral's value, 0 when there is none. The value
      is not truncated to 32 bits (overflow is undefined in C). */
  function Atoi(s: string): (v: int)
    ensures ExtractInt(s).Some? ==> v == ExtractInt(s).value
    ensures LeadingInt(s).None? ==> v == 0
    ensures LeadingInt(s).Some? ==> v == LeadingInt(s).value
  {
    LeadingInt(s).GetOr(0)
  }

  lemma {:induction false} DigitsRoundTrip(n: nat)
    ensures DigitsValue(NatToDigits(n)) == n
  {
    if n >= 10 {
      var s := NatToDigits(n);
      assert s[..|s| - 1] == NatToDigits(n / 10);
      DigitsRoundTrip(n / 10);
    }
  }

  lemma DigitRunOfNumeral(d: string, rest: string)
    requires AllDigits(d)
    requires rest == [] || !IsDigit(rest[0])
    ensures DigitRun(d + rest) == |d|
    ensures (d + rest)[..|d|] == d
  {
    if d != [] {
      assert (d + rest)[1..] == d[1..] + rest;
      DigitRunOfNumeral(d[1..], rest);
    }
  }

  lemma UnsignedNumeralOfNumeral(d: string, rest: string)
    requires AllDigits(d) && |d| >= 1
    requires rest == [] || !IsDigit(rest[0])
    ensures UnsignedNumeral(d + rest) == Some(DigitsValue(d))
  {
    DigitRunOfNumeral(d, rest);
  }

  /** A text headed by a digit is read as an unsigned numeral. */
  lemma LeadingIntOfDigits(t: string)
    requires t != [] && IsDigit(t[0])
    ensures LeadingInt(t) == if UnsignedNumeral(t).Some? then Some(UnsignedNumeral(t).value as int) else None
  {
    assert !IsSpace(t[0]);
    assert SkipSpaces(t) == t;
  }

  /** A text headed by '-' and a digit is read as a negated numeral. */
  lemma LeadingIntOfMinus(t: string)
    requires |t| >= 2 && t[0] == '-' && IsDigit(t[1])
    ensures LeadingInt(t) == if UnsignedNumeral(t[1..]).Some? then Some(-(UnsignedNumeral(t[1..]).value as int)) else None
  {
    assert !IsSpace(t[0]);
    assert SkipSpaces(t) == t;
  }

  lemma NumeralIsLeadingInt(d: string, rest: string)
    requires AllDigits(d) && |d| >= 1
    requires rest == [] || !IsDigit(rest[0])
    ensures UnsignedNumeral(d + rest) == Some(DigitsValue(d))
    ensures LeadingInt(d + rest) == Some(DigitsValue(d))
  {
    UnsignedNumeralOfNumeral(d, rest);
    assert (d + rest)[0] == d[0];
    LeadingIntOfDigits(d + rest);
  }

  lemma NegatedNumeral(t: string, m: nat)
    requires t != [] && IsDigit(t[0])
    requires UnsignedNumeral(t) == Some(m)
    ensures LeadingInt(['-'] + t) == Some(-(m as int))
  {
    var t' := ['-'] + t;
    assert t'[1..] == t;
    LeadingIntOfMinus(t');
  }

  /** Reading back a rendered integer gives the integer, whatever non-digit
      text follows it. */
  lemma LeadingIntRoundTrip(v: int, rest: string)
    requires rest == [] || !IsDigit(rest[0])
    ensures LeadingInt(IntToString(v) + rest) == Some(v)
  {
    if v < 0 {
      NegativeRoundTrip(-v, rest);
    } else {
      NonNegativeRoundTrip(v, rest);
    }
  }

  /** The digits of `m` read back as `m`. */
  lemma UnsignedRoundTrip(m: nat, rest: string)
    requires rest == [] || !IsDigit(rest[0])
    ensures UnsignedNumeral(NatToDigits(m) + rest) == Some(m)
    ensures (NatToDigits(m) + rest)[0] == NatToDigits(m)[0]
  {
    DigitsRoundTrip(m);
    UnsignedNumeralOfNumeral(NatToDigits(m), rest);
  }

  lemma NonNegativeRoundTrip(m: nat, rest: string)
    requires rest == [] || !IsDigit(rest[0])
    ensures LeadingInt(NatToDigits(m) + rest) == Some(m as int)
  {
    UnsignedRoundTrip(m, rest);
    LeadingIntOfDigits(NatToDigits(m) + rest);
  }

  lemma NegativeRoundTrip(m: nat, rest: string)
    requires rest == [] || !IsDigit(rest[0])
    ensures LeadingInt("-" + NatToDigits(m) + rest) == Some(-(m as int))
  {
    var t := NatToDigits(m) + rest;
    UnsignedRoundTrip(m, rest);
    NegatedNumeral(t, m);
    assert "-" + NatToDigits(m) + rest == ['-'] + t;
  }

  /** `is >> v` reads back every 32-bit integer rendered in decimal. */
  lemma ExtractIntRoundTrip(v: int, rest: string)
    requires INT_MIN <= v <= INT_MAX
    requires rest == [] || !IsDigit(rest[0])
    ensures ExtractInt(IntToString(v) + rest) == Some(v)
  {
    LeadingIntRoundTrip(v, rest);
  }

  /** Text that holds no digit at all never yields a number. */
  lemma NoDigitsNoInt(s: string)
    requires forall i :: 0 <= i < |s| ==> !IsDigit(s[i])
    ensures LeadingInt(s) == None && ExtractInt(s) == None && Atoi(s) == 0
  {
    var t := SkipSpaces(s);
    if t != [] {
      assert t[0] in s;
      if |t| > 1 {
        assert t[1] in s;
      }
    }
  }

  // ---------------------------------------------------------------------
  // std::string search members

  /** `s.find_first_of(cs, from)`: the first position at or after `from`
      holding a character of `cs`. */
  function FindFirstOf(s: string, cs: string, from: nat): (r: Option<nat>)
    ensures r.Some? ==> from <= r.value < |s| && s[r.value] in cs
    ensures r.Some? ==> forall i :: from <= i < r.value ==> s[i] !in cs
    ensures r.None? ==> forall i :: from <= i < |s| ==> s[i] !in cs
    decreases |s| - from
  {
    if from >= |s| then None
    else if s[from] in cs then Some(from)
    else FindFirstOf(s, cs, from + 1)
  }

  /** `s.find_first_not_of(cs, from)`: the first position at or after `from`
      holding a character outside `cs`. */
  function FindFirstNotOf(s: string, cs: string, from: nat): (r: Option<nat>)
    ensures r.Some? ==> from <= r.value < |s| && s[r.value] !in cs
    ensures r.Some? ==> forall i :: from <= i < r.value ==> s[i] in cs
    ensures r.None? ==> forall i :: from <= i < |s| ==> s[i] in cs
    decreases |s| - from
  {
    if from >= |s| then None
    else if s[from] !in cs then Some(from)
    else FindFirstNotOf(s, cs, from + 1)
  }

  /** True when `pat` occurs in `s` starting at position `i`. */
  predicate OccursAt(s: string, pat: string, i: nat) {
    i + |pat| <= |s| && s[i..i + |pat|] == pat
  }

  /** `s.find(pat, from)`: the first position at or after `from` where
      `pat` occurs. */
  function FindSub(s: string, pat: string, from: nat): (r: Option<nat>)
    ensures r.Some? ==> from <= r.value && OccursAt(s, pat, r.value)
    ensures r.Some? ==> forall i :: from <= i < r.value ==> !OccursAt(s, pat, i)
    ensures r.None? ==> forall i :: from <= i ==> !OccursAt(s, pat, i)
    decreases |s| - from
  {
    if from + |pat| > |s| then None
    else if s[from..from + |pat|] == pat then Some(from)
    else FindSub(s, pat, from + 1)
  }

  // ---------------------------------------------------------------------
  // Splitting at a separator

  /** The pieces of `s` between occurrences of `sep`: "a\nb\n" gives
      ["a", "b", ""]. */
  function Split(s: string, sep: char): (parts: seq<string>)
    ensures |parts| >= 1
    ensures forall i :: 0 <= i < |parts| ==> sep !in parts[i]
    decreases |s|
  {
    match FindFirstOf(s, [sep], 0)
    case None => [s]
    case Some(i) =>
      assert sep !in s[..i] by {
        forall j | 0 <= j < i ensures s[..i][j] != sep {
          assert s[j] !in [sep];
        }
      }
      [s[..i]] + Split(s[i + 1..], sep)
  }

  /** The pieces laid end to end with `glue` between neighbours. */
  function Join(parts: seq<string>, glue: string): string {
    if |parts| == 0 then ""
    else if |parts| == 1 then parts[0]
    else parts[0] + glue + Join(parts[1..], glue)
  }

  /** Splitting and re-joining with the separator gives the original text. */
  lemma {:induction false} JoinSplit(s: string, sep: char)
    ensures Join(Split(s, sep), [sep]) == s
    decreases |s|
  {
    match FindFirstOf(s, [sep], 0)
    case None =>
    case Some(i) =>
      var tail := Split(s[i + 1..], sep);
      assert Split(s, sep) == [s[..i]] + tail;
      JoinSplit(s[i + 1..], sep);
      JoinCons(s[..i], tail, [sep]);
      assert s[i] == sep;
      assert s == s[..i] + [sep] + s[i + 1..];
  }

  lemma JoinCons(a: string, rest: seq<string>, glue: string)
    requires rest != []
    ensures Join([a] + rest, glue) == a + glue + Join(rest, glue)
  {
    assert ([a] + rest)[1..] == rest;
  }

  /** In a piece followed by the separator, the first separator is the one
      after the piece. */
  lemma FirstSeparatorAfter(p: string, sep: char, rest: string)
    requires sep !in p
    ensures FindFirstOf(p + [sep] + rest, [sep], 0) == Some(|p|)
    ensures (p + [sep] + rest)[..|p|] == p
    ensures (p + [sep] + rest)[|p| + 1..] == rest
  {
    var s := p + [sep] + rest;
    assert forall i :: 0 <= i < |p| ==> s[i] == p[i];
    assert forall i :: 0 <= i < |p| ==> s[i] !in [sep];
    assert s[|p|] in [sep];
    FindFirstOfFrom(s, [sep], 0, |p|);
  }

  /** `FindFirstOf` finds the first position holding a wanted character. */
  lemma {:induction false} FindFirstOfFrom(s: string, cs: string, from: nat, k: nat)
    requires from <= k < |s| && s[k] in cs
    requires forall i :: from <= i < k ==> s[i] !in cs
    ensures FindFirstOf(s, cs, from) == Some(k)
    decreases k - from
  {
    if from < k {
      FindFirstOfFrom(s, cs, from + 1, k);
    }
  }

  /** Joining separator-free pieces and splitting again gives the pieces. */
  lemma {:induction false} SplitJoin(parts: seq<string>, sep: char)
    requires |parts| >= 1
    requires forall i :: 0 <= i < |parts| ==> sep !in parts[i]
    ensures Split(Join(parts, [sep]), sep) == parts
  {
    var s := Join(parts, [sep]);
    if |parts| == 1 {
      assert forall i :: 0 <= i < |s| ==> s[i] !in [sep];
    } else {
      var p := parts[0];
      var rest := Join(parts[1..], [sep]);
      assert sep !in p;
      assert s == p + [sep] + rest;
      FirstSeparatorAfter(p, sep, rest);
      SplitJoin(parts[1..], sep);
      assert parts == [p] + parts[1..];
    }
  }
}
