/** The three Python string built-ins the pollers rely on: `str.strip()`,
    `str.split(sep)` and `int(str)` in base 10. Characters are compared as
    code points; only ASCII whitespace and the ASCII digits are modelled. */
module PyText {
  import opened Options

  /** The two whitespace sets of CPython on ASCII text: `str.strip()` and
      `str.isspace()` trim space, \t \n \v \f \r and the separators \x1c to
      \x1f; `int(str)` trims only space and \t \n \v \f \r and rejects the
      separators. */
  datatype Spaces = StrSpaces | IntSpaces

  predicate IsSpace(k: Spaces, c: char) {
    c == ' ' || (9 <= c as int <= 13) || (k == StrSpaces && 28 <= c as int <= 31)
  }

  predicate IsDigit(c: char) {
    '0' <= c <= '9'
  }

  predicate AllSpace(k: Spaces, s: string) {
    forall i :: 0 <= i < |s| ==> IsSpace(k, s[i])
  }

  /** `s` without its leading whitespace (`s.lstrip()` for StrSpaces). */
  function StripStart(k: Spaces, s: string): (r: string)
    ensures |r| <= |s|
    ensures r != [] ==> !IsSpace(k, r[0]) && r[|r| - 1] == s[|s| - 1]
  {
    if s != [] && IsSpace(k, s[0]) then StripStart(k, s[1..]) else s
  }

  /** `s` without its trailing whitespace (`s.rstrip()` for StrSpaces). */
  function StripEnd(k: Spaces, s: string): (r: string)
    ensures |r| <= |s|
    ensures r != [] ==> !IsSpace(k, r[|r| - 1]) && r[0] == s[0]
    ensures s != [] && !IsSpace(k, s[0]) ==> r != []
  {
    if s != [] && IsSpace(k, s[|s| - 1]) then StripEnd(k, s[..|s| - 1]) else s
  }

  /** `s` without its leading and trailing whitespace: `s.strip()` for
      StrSpaces, the trimming inside `int(s)` for IntSpaces. */
  function Strip(k: Spaces, s: string): (r: string)
    ensures |r| <= |s|
    ensures r != [] ==> !IsSpace(k, r[0]) && !IsSpace(k, r[|r| - 1])
  {
    StripEnd(k, StripStart(k, s))
  }

  /** Stripping leaves nothing exactly when the string is all whitespace. */
  lemma {:induction false} StripStartEmpty(k: Spaces, s: string)
    ensures StripStart(k, s) == [] <==> AllSpace(k, s)
  {
    if s != [] {
      if IsSpace(k, s[0]) {
        StripStartEmpty(k, s[1..]);
        assert AllSpace(k, s[1..]) ==> AllSpace(k, s) by {
          if AllSpace(k, s[1..]) {
            forall i | 0 < i < |s| ensures IsSpace(k, s[i]) { assert s[i] == s[1..][i - 1]; }
          }
        }
      }
    }
  }

  /** `if text.strip()` fails exactly for an empty or all-whitespace text. */
  lemma StripEmptyIffBlank(k: Spaces, s: string)
    ensures Strip(k, s) == [] <==> AllSpace(k, s)
  {
    StripStartEmpty(k, s);
  }

  /** A string that neither starts nor ends with whitespace is its own strip. */
  lemma StripUnchanged(k: Spaces, s: string)
    requires s != [] && !IsSpace(k, s[0]) && !IsSpace(k, s[|s| - 1])
    ensures Strip(k, s) == s
  {
  }

  /** Stripping twice strips nothing more. */
  lemma StripIdempotent(k: Spaces, s: string)
    ensures Strip(k, Strip(k, s)) == Strip(k, s)
  {
    var r := Strip(k, s);
    if r != [] {
      StripUnchanged(k, r);
    }
  }

  /** Leading whitespace in front of a string that starts with something else is dropped. */
  lemma {:induction false} StripStartOfPadded(k: Spaces, a: string, u: string)
    requires AllSpace(k, a) && (u == [] || !IsSpace(k, u[0]))
    ensures StripStart(k, a + u) == u
  {
    if a != [] {
      assert (a + u)[0] == a[0] && (a + u)[1..] == a[1..] + u;
      StripStartOfPadded(k, a[1..], u);
    }
  }

  /** Trailing whitespace after a string that ends with something else is dropped. */
  lemma {:induction false} StripEndOfPadded(k: Spaces, u: string, b: string)
    requires AllSpace(k, b) && (u == [] || !IsSpace(k, u[|u| - 1]))
    ensures StripEnd(k, u + b) == u
  {
    if b != [] {
      var s := u + b;
      assert s[|s| - 1] == b[|b| - 1] && s[..|s| - 1] == u + b[..|b| - 1];
      StripEndOfPadded(k, u, b[..|b| - 1]);
    }
  }

  /** The strip of whitespace, text, whitespace is the text, for a text that
      neither starts nor ends with whitespace. */
  lemma StripOfPadded(k: Spaces, a: string, t: string, b: string)
    requires AllSpace(k, a) && AllSpace(k, b)
    requires t != [] && !IsSpace(k, t[0]) && !IsSpace(k, t[|t| - 1])
    ensures Strip(k, a + t + b) == t
  {
    assert a + t + b == a + (t + b);
    StripStartOfPadded(k, a, t + b);
    StripEndOfPadded(k, t, b);
  }

  /** The part `lstrip` removes is whitespace. */
  lemma {:induction false} StripStartRemoves(k: Spaces, s: string) returns (a: string)
    ensures AllSpace(k, a) && s == a + StripStart(k, s)
  {
    if s != [] && IsSpace(k, s[0]) {
      var a' := StripStartRemoves(k, s[1..]);
      a := [s[0]] + a';
      assert s == [s[0]] + s[1..];
    } else {
      a := [];
    }
  }

  /** The part `rstrip` removes is whitespace. */
  lemma {:induction false} StripEndRemoves(k: Spaces, s: string) returns (b: string)
    ensures AllSpace(k, b) && s == StripEnd(k, s) + b
  {
    if s != [] && IsSpace(k, s[|s| - 1]) {
      var b' := StripEndRemoves(k, s[..|s| - 1]);
      b := b' + [s[|s| - 1]];
      assert s == s[..|s| - 1] + [s[|s| - 1]];
    } else {
      b := [];
    }
  }

  /** Every string is its strip with whitespace on both sides. */
  lemma StripDecomposes(k: Spaces, s: string)
    ensures exists a, b :: AllSpace(k, a) && AllSpace(k, b) && s == a + Strip(k, s) + b
  {
    var a := StripStartRemoves(k, s);
    var b := StripEndRemoves(k, StripStart(k, s));
    assert s == a + Strip(k, s) + b;
  }

  /** Number of occurrences of `c` in `s`. */
  function Count(s: string, c: char): nat {
    if s == [] then 0 else (if s[0] == c then 1 else 0) + Count(s[1..], c)
  }

  /** `s.split(sep)` for a one-character separator: the pieces between the
      separators, empty pieces included; `"".split(sep)` is `[""]`. */
  function Split(s: string, sep: char): (parts: seq<string>)
    ensures |parts| == Count(s, sep) + 1
  {
    if s == [] then [[]]
    else
      var rest := Split(s[1..], sep);
      if s[0] == sep then [[]] + rest else [[s[0]] + rest[0]] + rest[1..]
  }

  /** Splitting on a separator that does not occur yields the string itself. */
  lemma {:induction false} SplitWithoutSeparator(s: string, sep: char)
    requires sep !in s
    ensures Split(s, sep) == [s]
  {
    if s != [] {
      assert sep !in s[1..];
      SplitWithoutSeparator(s[1..], sep);
      assert [s[0]] + s[1..] == s;
    }
  }

  /** Splitting `a + sep + b` on `sep`, with no other `sep` in either part, gives back both parts. */
  lemma {:induction false} SplitAround(a: string, b: string, sep: char)
    requires sep !in a && sep !in b
    ensures Split(a + [sep] + b, sep) == [a, b]
  {
    var s := a + [sep] + b;
    if a == [] {
      assert s == [sep] + b && s[1..] == b;
      SplitWithoutSeparator(b, sep);
    } else {
      assert s[0] == a[0] && s[1..] == a[1..] + [sep] + b;
      assert sep !in a[1..];
      SplitAround(a[1..], b, sep);
      assert [a[0]] + a[1..] == a;
    }
  }

  function DigitValue(c: char): (d: nat)
    requires IsDigit(c)
    ensures d < 10
  {
    (c as int) - ('0' as int)
  }

  function DigitChar(d: nat): (c: char)
    requires d < 10
    ensures IsDigit(c) && DigitValue(c) == d
  {
    ('0' as int + d) as char
  }

  predicate AllDigits(s: string) {
    forall i :: 0 <= i < |s| ==> IsDigit(s[i])
  }

  /** The number a string of decimal digits denotes; the empty string denotes 0. */
  function DigitsValue(s: string): nat
    requires AllDigits(s)
  {
    if s == [] then 0 else DigitsValue(s[..|s| - 1]) * 10 + DigitValue(s[|s| - 1])
  }

  /** A body of digits as `int()` accepts it: at least one digit, and each `_`
      sits between two digits. */
  predicate DigitGroups(s: string) {
    && |s| > 0
    && IsDigit(s[0])
    && IsDigit(s[|s| - 1])
    && forall i :: 0 < i < |s| - 1 ==> InGroup(s, i)
  }

  /** Inside digit groups, character `i` is a digit or an `_` between two digits. */
  predicate InGroup(s: string, i: int)
    requires 0 < i < |s| - 1
  {
    IsDigit(s[i]) || (s[i] == '_' && IsDigit(s[i - 1]) && IsDigit(s[i + 1]))
  }

  /** `s` with every `_` removed. */
  function RemoveUnderscores(s: string): (r: string)
    ensures |r| <= |s|
    ensures (forall i :: 0 <= i < |s| ==> IsDigit(s[i]) || s[i] == '_') ==> AllDigits(r)
  {
    if s == [] then []
    else (if s[0] == '_' then [] else [s[0]]) + RemoveUnderscores(s[1..])
  }

  lemma {:induction false} RemoveUnderscoresOfDigits(s: string)
    requires AllDigits(s)
    ensures RemoveUnderscores(s) == s
  {
    if s != [] {
      RemoveUnderscoresOfDigits(s[1..]);
      assert [s[0]] + s[1..] == s;
    }
  }

  /** The unsigned part of `int()`: digit groups, read in base 10. */
  function ParseUnsigned(s: string): (r: Option<nat>)
    ensures r.Some? <==> DigitGroups(s)
  {
    if DigitGroups(s) then
      assert forall i :: 0 <= i < |s| ==> IsDigit(s[i]) || s[i] == '_' by {
        forall i | 0 <= i < |s| ensures IsDigit(s[i]) || s[i] == '_' {
          if 0 < i < |s| - 1 {
            assert InGroup(s, i);
          }
        }
      }
      Some(DigitsValue(RemoveUnderscores(s)))
    else None
  }

  /** `int(s)` in base 10: surrounding whitespace is ignored, one optional sign,
      then digit groups; anything else raises `ValueError`, modelled as None. */
  function ParseInt(s: string): Option<int> {
    var t := Strip(IntSpaces, s);
    if t != [] && (t[0] == '+' || t[0] == '-') then
      match ParseUnsigned(t[1..])
      case None => None
      case Some(n) => Some(if t[0] == '-' then -(n as int) else n as int)
    else
      match ParseUnsigned(t)
      case None => None
      case Some(n) => Some(n)
  }

  /** `str(n)` for a natural number. */
  function Decimal(n: nat): (s: string)
    ensures s != [] && AllDigits(s)
  {
    if n < 10 then [DigitChar(n)] else Decimal(n / 10) + [DigitChar(n % 10)]
  }

  /** `str(i)` for any integer. */
  function IntToString(i: int): string {
    if i < 0 then "-" + Decimal(-i) else Decimal(i)
  }

  /** `"%02d" % i`: at least two digits for a non-negative number. */
  function TwoDigits(i: int): string {
    if 0 <= i < 10 then "0" + Decimal(i) else IntToString(i)
  }

  lemma {:induction false} DigitsValueOfDecimal(n: nat)
    ensures DigitsValue(Decimal(n)) == n
  {
    if n >= 10 {
      DigitsValueOfDecimal(n / 10);
      var s := Decimal(n);
      assert s[..|s| - 1] == Decimal(n / 10);
    }
  }

  /** A leading zero does not change the value of a digit string. */
  lemma {:induction false} DigitsValueLeadingZero(s: string)
    requires AllDigits(s)
    ensures AllDigits("0" + s) && DigitsValue("0" + s) == DigitsValue(s)
  {
    var z := "0" + s;
    if s != [] {
      assert z[..|z| - 1] == "0" + s[..|s| - 1];
      DigitsValueLeadingZero(s[..|s| - 1]);
    } else {
      assert z[..0] == [];
    }
  }

  /** Reading back a digit string with no sign and no underscore. */
  lemma ParseUnsignedOfDigits(s: string)
    requires s != [] && AllDigits(s)
    ensures ParseUnsigned(s) == Some(DigitsValue(s))
  {
    RemoveUnderscoresOfDigits(s);
  }

  /** `int(str(n)) == n` for a natural number. */
  lemma ParseIntOfDecimal(n: nat)
    ensures ParseInt(Decimal(n)) == Some(n)
  {
    var d := Decimal(n);
    DigitsValueOfDecimal(n);
    StripUnchanged(IntSpaces, d);
    assert !(d[0] == '+' || d[0] == '-');
    ParseUnsignedOfDigits(d);
  }

  /** `int("-" + str(n)) == -n` for a natural number. */
  lemma ParseIntOfNegated(n: nat)
    ensures ParseInt("-" + Decimal(n)) == Some(-(n as int))
  {
    var d := Decimal(n);
    var s := "-" + d;
    DigitsValueOfDecimal(n);
    assert s[0] == '-' && s[|s| - 1] == d[|d| - 1];
    StripUnchanged(IntSpaces, s);
    assert s[1..] == d;
    ParseUnsignedOfDigits(d);
  }

  /** `int(str(i)) == i` for every integer. */
  lemma ParseIntOfIntToString(i: int)
    ensures ParseInt(IntToString(i)) == Some(i)
  {
    if i < 0 {
      ParseIntOfNegated(-i);
    } else {
      ParseIntOfDecimal(i);
    }
  }

  /** Reading back a single digit written with a leading zero. */
  lemma ParseIntOfPaddedDigit(i: nat)
    requires i < 10
    ensures ParseInt("0" + Decimal(i)) == Some(i)
  {
    var d := Decimal(i);
    var s := "0" + d;
    DigitsValueOfDecimal(i);
    DigitsValueLeadingZero(d);
    assert s[0] == '0' && s[|s| - 1] == d[|d| - 1];
    StripUnchanged(IntSpaces, s);
    ParseUnsignedOfDigits(s);
  }

  /** `int("%02d" % i) == i` for every integer. */
  lemma ParseIntOfTwoDigits(i: int)
    ensures ParseInt(TwoDigits(i)) == Some(i)
  {
    if 0 <= i < 10 {
      ParseIntOfPaddedDigit(i);
    } else {
      ParseIntOfIntToString(i);
    }
  }

  /** `int()` ignores space and \t \n \v \f \r around the number. */
  lemma ParseIntIgnoresPadding(s: string)
    ensures ParseInt(s) == ParseInt(Strip(IntSpaces, s))
  {
    StripIdempotent(IntSpaces, s);
  }

  /** Neither an empty nor a blank string is a number. */
  lemma ParseIntOfBlank(s: string)
    requires AllSpace(IntSpaces, s)
    ensures ParseInt(s) == None
  {
    StripEmptyIffBlank(IntSpaces, s);
  }

  /** Unlike `str.strip()`, `int()` does not trim the separators \x1c to \x1f:
      a number followed by one of them is rejected. */
  lemma ParseIntRejectsSeparator(n: nat, c: char)
    requires 28 <= c as int <= 31
    ensures IsSpace(StrSpaces, c) && !IsSpace(IntSpaces, c)
    ensures Strip(StrSpaces, Decimal(n) + [c]) == Decimal(n)
    ensures ParseInt(Decimal(n) + [c]) == None
  {
    var d := Decimal(n);
    var s := d + [c];
    StripEndOfPadded(StrSpaces, d, [c]);
    assert s[|s| - 1] == c && s[0] == d[0];
    StripUnchanged(IntSpaces, s);
    assert !DigitGroups(s);
  }
}
