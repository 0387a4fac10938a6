/** The string operations the application applies to its inputs and to the
    stored credential record: `str.strip()`, `str.lower()`, `str.split("$")`,
    `int(...)` and the decimal rendering of an `int` inside an f-string. */
module Text {
  import opened Wrappers

  /** Python's `str.isspace()`: the characters `strip()` removes. */
  predicate IsSpace(c: char) {
    || c == ' '
    || ('\t' <= c <= '\r')
    || ('\U{1C}' <= c <= '\U{1F}')
    || c == '\U{85}' || c == '\U{A0}' || c == '\U{1680}'
    || ('\U{2000}' <= c <= '\U{200A}')
    || c == '\U{2028}' || c == '\U{2029}' || c == '\U{202F}'
    || c == '\U{205F}' || c == '\U{3000}'
  }

  /** The whitespace CPython's `int()` skips around a literal: the
      `isspace()` set without the four information separators
      U+001C..U+001F, which its integer parser does not treat as space. */
  predicate IsIntSpace(c: char) {
    IsSpace(c) && !('\U{1C}' <= c <= '\U{1F}')
  }

  /** Drops the leading characters of the set `space`. */
  function TrimStart(s: string, space: char -> bool): (r: string)
    ensures |r| <= |s|
  {
    if s != [] && space(s[0]) then TrimStart(s[1..], space) else s
  }

  /** Drops the trailing characters of the set `space`. */
  function TrimEnd(s: string, space: char -> bool): (r: string)
    ensures |r| <= |s|
  {
    if s != [] && space(s[|s| - 1]) then TrimEnd(s[..|s| - 1], space) else s
  }

  /** What `TrimStart` leaves is a suffix of `s` that starts outside
      `space`, and everything it dropped was in `space`. */
  lemma {:induction false} TrimStartSuffix(s: string, space: char -> bool)
    ensures var r := TrimStart(s, space);
      && r == s[|s| - |r|..]
      && (forall k :: 0 <= k < |s| - |r| ==> space(s[k]))
      && (r != [] ==> !space(r[0]))
  {
    if s != [] && space(s[0]) {
      var r := TrimStart(s[1..], space);
      TrimStartSuffix(s[1..], space);
      assert s[1..][|s| - 1 - |r|..] == s[|s| - |r|..];
      forall k | 1 <= k < |s| - |r| ensures space(s[k]) {
        assert s[k] == s[1..][k - 1];
      }
    }
  }

  /** What `TrimEnd` leaves is a prefix of `s` that ends outside `space`,
      and everything it dropped was in `space`. */
  lemma {:induction false} TrimEndPrefix(s: string, space: char -> bool)
    ensures var r := TrimEnd(s, space);
      && r == s[..|r|]
      && (forall k :: |r| <= k < |s| ==> space(s[k]))
      && (r != [] ==> !space(r[|r| - 1]))
  {
    if s != [] && space(s[|s| - 1]) {
      var r := TrimEnd(s[..|s| - 1], space);
      TrimEndPrefix(s[..|s| - 1], space);
      assert s[..|s| - 1][..|r|] == s[..|r|];
      forall k | |r| <= k < |s| - 1 ensures space(s[k]) {
        assert s[k] == s[..|s| - 1][k];
      }
    }
  }

  /** Trimming both ends leaves the slice of `s` between its leading and
      trailing runs of `space`: everything outside the slice is in
      `space`, and the slice, when not empty, starts and ends outside it. */
  lemma TrimSlice(s: string, space: char -> bool)
    ensures var i, r := |s| - |TrimStart(s, space)|, TrimEnd(TrimStart(s, space), space);
      && i + |r| <= |s|
      && r == s[i..i + |r|]
      && (forall k :: 0 <= k < i ==> space(s[k]))
      && (forall k :: i + |r| <= k < |s| ==> space(s[k]))
      && (r != [] ==> !space(r[0]) && !space(r[|r| - 1]))
  {
    var t := TrimStart(s, space);
    var i := |s| - |t|;
    var r := TrimEnd(t, space);
    TrimStartSuffix(s, space);
    TrimEndPrefix(t, space);
    assert t == s[i..];
    assert r == s[i..i + |r|];
    forall k | i + |r| <= k < |s| ensures space(s[k]) {
      assert s[k] == t[k - i];
    }
  }

  /** Padding in `space` in front of a string that starts outside `space`
      is exactly what `TrimStart` drops. */
  lemma {:induction false} TrimStartPadded(pad: string, t: string, space: char -> bool)
    requires forall k :: 0 <= k < |pad| ==> space(pad[k])
    requires t != [] ==> !space(t[0])
    ensures TrimStart(pad + t, space) == t
  {
    if pad == [] {
      assert pad + t == t;
    } else {
      assert (pad + t)[1..] == pad[1..] + t;
      TrimStartPadded(pad[1..], t, space);
    }
  }

  /** Padding in `space` after a string that ends outside `space` is
      exactly what `TrimEnd` drops. */
  lemma {:induction false} TrimEndPadded(t: string, pad: string, space: char -> bool)
    requires forall k :: 0 <= k < |pad| ==> space(pad[k])
    requires t != [] ==> !space(t[|t| - 1])
    ensures TrimEnd(t + pad, space) == t
  {
    if pad == [] {
      assert t + pad == t;
    } else {
      assert (t + pad)[..|t + pad| - 1] == t + pad[..|pad| - 1];
      TrimEndPadded(t, pad[..|pad| - 1], space);
    }
  }

  /** `s.strip()` with no argument: never longer than `s`, and when not
      empty it neither starts nor ends with whitespace. */
  function Strip(s: string): (r: string)
    ensures |r| <= |s|
    ensures r != [] ==> !IsSpace(r[0]) && !IsSpace(r[|r| - 1])
  {
    TrimStartSuffix(s, IsSpace);
    TrimEndPrefix(TrimStart(s, IsSpace), IsSpace);
    TrimEnd(TrimStart(s, IsSpace), IsSpace)
  }

  /** The stripped string is the slice of `s` between its leading and
      trailing runs of whitespace: everything outside the slice is
      whitespace, and the slice, when not empty, starts and ends with a
      non-space. */
  lemma StripSlice(s: string)
    ensures var i := |s| - |TrimStart(s, IsSpace)|;
      && i + |Strip(s)| <= |s|
      && Strip(s) == s[i..i + |Strip(s)|]
      && (forall k :: 0 <= k < i ==> IsSpace(s[k]))
      && (forall k :: i + |Strip(s)| <= k < |s| ==> IsSpace(s[k]))
      && (Strip(s) != [] ==> !IsSpace(Strip(s)[0]) && !IsSpace(Strip(s)[|Strip(s)| - 1]))
  {
    TrimSlice(s, IsSpace);
  }

  /** A value is blank, in the sense the application rejects, exactly when
      every one of its characters is whitespace. */
  lemma StripEmptyIffBlank(s: string)
    ensures Strip(s) == [] <==> forall k :: 0 <= k < |s| ==> IsSpace(s[k])
  {
    var t := TrimStart(s, IsSpace);
    TrimStartSuffix(s, IsSpace);
    TrimEndPrefix(t, IsSpace);
    if Strip(s) == [] {
      assert t == [];
    } else {
      var r := Strip(s);
      var i := |s| - |t|;
      assert r[0] == t[0] == s[i];
    }
  }

  /** A string that neither starts nor ends with whitespace is left as it
      is. */
  lemma StripUnchanged(s: string)
    requires s != [] ==> !IsSpace(s[0]) && !IsSpace(s[|s| - 1])
    ensures Strip(s) == s
  {
  }

  /** Stripping twice is stripping once. */
  lemma StripIdempotent(s: string)
    ensures Strip(Strip(s)) == Strip(s)
  {
    var r := Strip(s);
    TrimStartSuffix(s, IsSpace);
    TrimEndPrefix(TrimStart(s, IsSpace), IsSpace);
    if r != [] {
      assert TrimStart(r, IsSpace) == r;
      assert TrimEnd(r, IsSpace) == r;
    }
  }

  /** What `int()` reads as the literal: `s` without its leading and
      trailing `IsIntSpace` characters. It never starts or ends with one. */
  function IntStrip(s: string): (r: string)
    ensures |r| <= |s|
    ensures r != [] ==> !IsIntSpace(r[0]) && !IsIntSpace(r[|r| - 1])
  {
    TrimStartSuffix(s, IsIntSpace);
    TrimEndPrefix(TrimStart(s, IsIntSpace), IsIntSpace);
    TrimEnd(TrimStart(s, IsIntSpace), IsIntSpace)
  }

  /** A string with no `int()` whitespace at either end is read as it is. */
  lemma IntStripUnchanged(s: string)
    requires s != [] ==> !IsIntSpace(s[0]) && !IsIntSpace(s[|s| - 1])
    ensures IntStrip(s) == s
  {
  }

  /** The ASCII part of `str.lower()`. */
  function LowerChar(c: char): char {
    if 'A' <= c <= 'Z' then (c as int + 32) as char else c
  }

  predicate IsAsciiUpper(c: char) {
    'A' <= c <= 'Z'
  }

  /** `s.lower()` restricted to ASCII letters: same length, each character
      mapped on its own, and no upper-case ASCII letter survives. */
  function AsciiLower(s: string): (r: string)
    ensures |r| == |s|
    ensures forall k :: 0 <= k < |s| ==> r[k] == LowerChar(s[k])
    ensures forall k :: 0 <= k < |r| ==> !IsAsciiUpper(r[k])
  {
    if s == [] then [] else [LowerChar(s[0])] + AsciiLower(s[1..])
  }

  /** Lower-casing is idempotent, and is the identity on a string without
      upper-case ASCII letters. */
  lemma AsciiLowerFixed(s: string)
    requires forall k :: 0 <= k < |s| ==> !IsAsciiUpper(s[k])
    ensures AsciiLower(s) == s
  {
    var r := AsciiLower(s);
    assert forall k :: 0 <= k < |s| ==> r[k] == s[k];
  }

  lemma AsciiLowerIdempotent(s: string)
    ensures AsciiLower(AsciiLower(s)) == AsciiLower(s)
  {
    AsciiLowerFixed(AsciiLower(s));
  }

  // ---------------------------------------------------------------------
  // Splitting and joining on a delimiter

  /** Occurrences of `c` in `s`. */
  function Count(c: char, s: string): nat {
    if s == [] then 0 else (if s[0] == c then 1 else 0) + Count(c, s[1..])
  }

  /** `s.split(d)` for a one-character separator `d`: always at least one
      field, and no field contains the separator. */
  function Split(s: string, d: char): (r: seq<string>)
    ensures |r| >= 1
    ensures forall i :: 0 <= i < |r| ==> d !in r[i]
  {
    if s == [] then [[]]
    else
      var rest := Split(s[1..], d);
      if s[0] == d then [[]] + rest else [[s[0]] + rest[0]] + rest[1..]
  }

  /** `d.join(fields)`, which the f-string with `$` between its parts
      amounts to: it starts with the first field, and joining fields free
      of `d` puts exactly one `d` between each two of them. */
  function Join(fields: seq<string>, d: char): (r: string)
    requires |fields| >= 1
    ensures fields[0] <= r
    ensures (forall i :: 0 <= i < |fields| ==> d !in fields[i]) ==> Count(d, r) == |fields| - 1
  {
    if |fields| == 1 then
      CountAbsent(d, fields[0]);
      fields[0]
    else
      var rest := Join(fields[1..], d);
      CountAbsent(d, fields[0]);
      CountConcat(d, fields[0] + [d], rest);
      CountConcat(d, fields[0], [d]);
      fields[0] + [d] + rest
  }

  lemma {:induction false} CountConcat(c: char, a: string, b: string)
    ensures Count(c, a + b) == Count(c, a) + Count(c, b)
  {
    if a != [] {
      CountConcat(c, a[1..], b);
      assert (a + b)[1..] == a[1..] + b;
    } else {
      assert a + b == b;
    }
  }

  lemma {:induction false} CountAbsent(c: char, a: string)
    ensures c !in a ==> Count(c, a) == 0
  {
    if a != [] {
      CountAbsent(c, a[1..]);
      assert c !in a ==> c !in a[1..];
    }
  }

  /** Splitting yields one more field than there are separators. */
  lemma {:induction false} SplitLength(s: string, d: char)
    ensures |Split(s, d)| == Count(d, s) + 1
  {
    if s != [] {
      SplitLength(s[1..], d);
    }
  }

  /** Joining the fields of a split gives back the original string. */
  lemma {:induction false} JoinSplit(s: string, d: char)
    ensures Join(Split(s, d), d) == s
  {
    if s != [] {
      var rest := Split(s[1..], d);
      JoinSplit(s[1..], d);
      if s[0] == d {
        assert Split(s, d) == [[]] + rest;
        assert s == [d] + s[1..];
      } else {
        var f := [[s[0]] + rest[0]] + rest[1..];
        assert Split(s, d) == f;
        if |rest| == 1 {
          assert s == [s[0]] + s[1..];
        } else {
          assert rest == [rest[0]] + rest[1..];
          assert f[1..] == rest[1..];
          assert Join(rest, d) == rest[0] + [d] + Join(rest[1..], d);
          assert s == [s[0]] + s[1..];
        }
      }
    }
  }

  /** A field without the separator, followed by the separator, is split
      off as one whole field. */
  lemma {:induction false} SplitAfterField(a: string, b: string, d: char)
    requires d !in a
    ensures Split(a + [d] + b, d) == [a] + Split(b, d)
  {
    if a == [] {
      assert ([] + [d] + b)[1..] == b;
    } else {
      SplitAfterField(a[1..], b, d);
      assert (a + [d] + b)[1..] == a[1..] + [d] + b;
      assert [a[0]] + a[1..] == a;
    }
  }

  /** A string without the separator is a single field. */
  lemma {:induction false} SplitNoSeparator(a: string, d: char)
    requires d !in a
    ensures Split(a, d) == [a]
  {
    if a != [] {
      SplitNoSeparator(a[1..], d);
      assert [a[0]] + a[1..] == a;
    }
  }

  /** Splitting a join of separator-free fields gives back the fields. */
  lemma {:induction false} SplitJoin(fields: seq<string>, d: char)
    requires |fields| >= 1
    requires forall i :: 0 <= i < |fields| ==> d !in fields[i]
    ensures Split(Join(fields, d), d) == fields
  {
    if |fields| == 1 {
      SplitNoSeparator(fields[0], d);
    } else {
      SplitJoin(fields[1..], d);
      SplitAfterField(fields[0], Join(fields[1..], d), d);
      assert [fields[0]] + fields[1..] == fields;
    }
  }

  // ---------------------------------------------------------------------
  // Integers in decimal

  predicate IsDigit(c: char) {
    '0' <= c <= '9'
  }

  predicate AllDigits(s: string) {
    forall k :: 0 <= k < |s| ==> IsDigit(s[k])
  }

  function DigitValue(c: char): (v: nat)
    requires IsDigit(c)
    ensures v < 10
  {
    c as int - '0' as int
  }

  function DigitChar(v: nat): (c: char)
    requires v < 10
    ensures IsDigit(c) && DigitValue(c) == v
  {
    ('0' as int + v) as char
  }

  /** The number a run of decimal digits denotes, most significant first. */
  function DigitsValue(s: string): nat
    requires AllDigits(s)
  {
    if s == [] then 0 else DigitsValue(s[..|s| - 1]) * 10 + DigitValue(s[|s| - 1])
  }

  /** The most digits `int()` converts; longer digit strings raise
      `ValueError` (`sys.get_int_max_str_digits()`, by default 4300). */
  const MaxStrDigits := 4300

  /** The literal `int()` accepts once the surrounding whitespace it skips
      is removed:
      an optional `+` or `-` followed by one to `MaxStrDigits` ASCII digits
      (leading zeros allowed). */
  predicate IsIntLiteral(t: string) {
    var digits := if t != [] && (t[0] == '+' || t[0] == '-') then t[1..] else t;
    1 <= |digits| <= MaxStrDigits && AllDigits(digits)
  }

  /** `int(s)`: the `IsIntSpace` characters around the literal are
      skipped; `None` is the `ValueError` case. */
  function ParseInt(s: string): (r: Option<int>)
    ensures r.Some? <==> IsIntLiteral(IntStrip(s))
  {
    var t := IntStrip(s);
    if t != [] && (t[0] == '+' || t[0] == '-') then
      var digits := t[1..];
      if 1 <= |digits| <= MaxStrDigits && AllDigits(digits) then
        var v: int := DigitsValue(digits);
        Some(if t[0] == '-' then -v else v)
      else None
    else if 1 <= |t| <= MaxStrDigits && AllDigits(t) then Some(DigitsValue(t))
    else None
  }

  /** Stripping before `int()` keeps every number `int()` reads without
      it: whatever `int()` accepts, it accepts stripped, with the same value.
      The converse fails (`StripBeforeParseMatters`). */
  lemma ParseIntStripped(s: string)
    ensures ParseInt(s).Some? ==> ParseInt(Strip(s)) == ParseInt(s)
  {
    if ParseInt(s).Some? {
      var t := IntStrip(s);
      StripIntLiteral(s);
      IntStripUnchanged(t);
    }
  }

  /** Around an integer literal `strip()` removes just what `int()` skips. */
  lemma StripIntLiteral(s: string)
    requires IsIntLiteral(IntStrip(s))
    ensures Strip(s) == IntStrip(s)
  {
    var t := IntStrip(s);
    var i := |s| - |TrimStart(s, IsIntSpace)|;
    TrimSlice(s, IsIntSpace);
    IntLiteralEnds(t);
    IntPaddingIsSpace(s, i, i + |t|);
    StripPadded(s[..i], t, s[i + |t|..]);
  }

  lemma IntLiteralEnds(t: string)
    requires IsIntLiteral(t)
    ensures t != [] && !IsSpace(t[0]) && !IsSpace(t[|t| - 1])
  {
    assert IsDigit(t[|t| - 1]);
  }

  lemma IntPaddingIsSpace(s: string, i: nat, j: nat)
    requires i <= j <= |s|
    requires forall k :: 0 <= k < i ==> IsIntSpace(s[k])
    requires forall k :: j <= k < |s| ==> IsIntSpace(s[k])
    ensures s == s[..i] + s[i..j] + s[j..]
    ensures forall k :: 0 <= k < i ==> IsSpace(s[..i][k])
    ensures forall k :: 0 <= k < |s| - j ==> IsSpace(s[j..][k])
  {
    forall k | 0 <= k < |s| - j ensures IsSpace(s[j..][k]) {
      assert s[j..][k] == s[j + k];
    }
  }

  /** Whitespace around a string with non-space ends is what `strip()`
      removes. */
  lemma StripPadded(front: string, t: string, back: string)
    requires forall k :: 0 <= k < |front| ==> IsSpace(front[k])
    requires forall k :: 0 <= k < |back| ==> IsSpace(back[k])
    requires t != [] && !IsSpace(t[0]) && !IsSpace(t[|t| - 1])
    ensures Strip(front + t + back) == t
  {
    assert front + t + back == front + (t + back);
    assert (t + back)[0] == t[0];
    TrimStartPadded(front, t + back, IsSpace);
    TrimEndPadded(t, back, IsSpace);
  }

  /** `int()` refuses a string that starts or ends with one of the
      information separators U+001C..U+001F, which it does not skip. */
  lemma ParseIntRefusesSeparators(s: string)
    requires s != [] && (('\U{1C}' <= s[0] <= '\U{1F}') || ('\U{1C}' <= s[|s| - 1] <= '\U{1F}'))
    ensures ParseInt(s) == None
  {
    var i := |s| - |TrimStart(s, IsIntSpace)|;
    var t := IntStrip(s);
    TrimSlice(s, IsIntSpace);
    if '\U{1C}' <= s[0] <= '\U{1F}' {
      assert !IsIntSpace(s[0]);
      assert i == 0 && t != [] && t[0] == s[0];
    } else {
      assert !IsIntSpace(s[|s| - 1]);
      assert i + |t| == |s| && t != [] && t[|t| - 1] == s[|s| - 1];
      assert !IsDigit(t[|t| - 1]);
    }
  }

  /** A count `int()` refuses but reads once stripped: `strip()` removes
      U+001C, and `int()` does not skip it. */
  lemma StripBeforeParseMatters()
    ensures ParseInt("\U{1C}3") == None
    ensures ParseInt(Strip("\U{1C}3")) == Some(3)
  {
    ParseIntRefusesSeparators("\U{1C}3");
    assert Strip("\U{1C}3") == "3";
    ParseDigits("3");
  }

  /** Strings `int()` refuses, after removing the whitespace it skips: a
      blank string, a lone sign, a character other than a digit after the
      optional sign, and more than `MaxStrDigits` digits. */
  lemma ParseIntRejects(s: string)
    ensures var t := IntStrip(s);
      && (t == [] ==> ParseInt(s) == None)
      && (t == "+" || t == "-" ==> ParseInt(s) == None)
      && ((exists k :: 0 < k < |t| && !IsDigit(t[k])) ==> ParseInt(s) == None)
      && (t != [] && t[0] != '+' && t[0] != '-' && !IsDigit(t[0]) ==> ParseInt(s) == None)
      && (|t| > MaxStrDigits + 1 ==> ParseInt(s) == None)
  {
    var t := IntStrip(s);
    if exists k :: 0 < k < |t| && !IsDigit(t[k]) {
      var k :| 0 < k < |t| && !IsDigit(t[k]);
      assert t[1..][k - 1] == t[k];
    }
  }

  /** The decimal rendering of a non-negative `int`, as `f"{n}"` gives it:
      digits only, and no leading zero unless the number is zero. */
  function NatToString(n: nat): (r: string)
    ensures |r| >= 1 && AllDigits(r)
    ensures |r| > 1 ==> r[0] != '0'
  {
    if n < 10 then [DigitChar(n)] else NatToString(n / 10) + [DigitChar(n % 10)]
  }

  lemma {:induction false} DigitsOfNatToString(n: nat)
    ensures DigitsValue(NatToString(n)) == n
  {
    var r := NatToString(n);
    if n >= 10 {
      DigitsOfNatToString(n / 10);
      assert r[..|r| - 1] == NatToString(n / 10);
    }
  }

  function Pow10(k: nat): (r: nat)
    ensures r >= 1
  {
    if k == 0 then 1 else 10 * Pow10(k - 1)
  }

  /** A number below `10^k` renders in at most `k` digits. */
  lemma {:induction false} NatToStringLength(n: nat, k: nat)
    requires k >= 1 && n < Pow10(k)
    ensures |NatToString(n)| <= k
  {
    if n >= 10 {
      assert k >= 2;
      assert n / 10 < Pow10(k - 1);
      NatToStringLength(n / 10, k - 1);
    }
  }

  /** `int(f"{n}") == n`: rendering then parsing gives the number back,
      for every number `int()` has few enough digits to convert. */
  lemma ParseNatToString(n: nat)
    requires |NatToString(n)| <= MaxStrDigits
    ensures ParseInt(NatToString(n)) == Some(n)
  {
    DigitsOfNatToString(n);
    ParseDigits(NatToString(n));
  }

  /** A sign followed by at most `MaxStrDigits` digits parses to the
      number the digits denote, negated after a `-`. */
  lemma ParseSigned(t: string)
    requires |t| >= 2 && (t[0] == '-' || t[0] == '+')
    requires |t| - 1 <= MaxStrDigits && AllDigits(t[1..])
    ensures ParseInt(t) == Some(if t[0] == '-' then -(DigitsValue(t[1..]) as int) else DigitsValue(t[1..]))
  {
    assert IsDigit(t[1..][|t| - 2]);
    IntStripUnchanged(t);
  }

  /** A run of at most `MaxStrDigits` digits parses to the number it
      denotes. */
  lemma ParseDigits(t: string)
    requires 1 <= |t| <= MaxStrDigits && AllDigits(t)
    ensures ParseInt(t) == Some(DigitsValue(t))
  {
    assert IsDigit(t[0]) && IsDigit(t[|t| - 1]);
    IntStripUnchanged(t);
  }

  /** Rendering is injective: distinct counts give distinct strings. */
  lemma NatToStringInjective(m: nat, n: nat)
    requires NatToString(m) == NatToString(n)
    ensures m == n
  {
    DigitsOfNatToString(m);
    DigitsOfNatToString(n);
  }
}
