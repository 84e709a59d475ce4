/**
 * The JavaScript string operations the library relies on, over `string` (a `seq<char>`):
 * `split` and `join` with a one-character separator, `padStart`, `slice`, `toLowerCase`
 * on ASCII letters, and the decimal conversions between integers and strings done by
 * `Number.prototype.toString`, `Number(s)` and `parseInt(s, 10)`.
 */
module Strings {
  import opened Wrappers

  predicate IsDigit(c: char) { '0' <= c <= '9' }

  predicate IsDigits(s: string) { forall i :: 0 <= i < |s| ==> IsDigit(s[i]) }

  function DigitChar(d: nat): (c: char)
    requires d < 10
    ensures IsDigit(c) && DigitValue(c) == d
  {
    ('0' as int + d) as char
  }

  function DigitValue(c: char): nat
    requires IsDigit(c)
  {
    c as int - '0' as int
  }

  // ---------------------------------------------------------------------------
  // Integers to and from decimal text
  // ---------------------------------------------------------------------------

  /** `n.toString()` for a non-negative integer: its digits, most significant first. */
  function NatToString(n: nat): (s: string)
    ensures 1 <= |s| && IsDigits(s)
    ensures |s| > 1 ==> s[0] != '0'
    decreases n
  {
    if n < 10 then [DigitChar(n)] else NatToString(n / 10) + [DigitChar(n % 10)]
  }

  /** `i.toString()` for an integer: a minus sign in front of a negative one. */
  function IntToString(i: int): (s: string)
    ensures 1 <= |s|
    ensures i >= 0 <==> IsDigits(s)
    ensures i < 0 <==> s[0] == '-'
  {
    if i < 0 then
      var s := "-" + NatToString(-i);
      assert !IsDigit(s[0]);
      s
    else NatToString(i)
  }

  /** The value of a string of decimal digits (leading zeros allowed; the empty string is 0). */
  function DigitsValue(s: string): nat
    requires IsDigits(s)
  {
    if s == [] then 0 else DigitsValue(s[..|s| - 1]) * 10 + DigitValue(s[|s| - 1])
  }

  lemma {:induction false} DigitsValueOfNatToString(n: nat)
    ensures DigitsValue(NatToString(n)) == n
    decreases n
  {
    if n >= 10 {
      var s := NatToString(n);
      assert s[..|s| - 1] == NatToString(n / 10);
      DigitsValueOfNatToString(n / 10);
    }
  }

  /** A leading zero does not change the value of a digit string. */
  lemma {:induction false} DigitsValueLeadingZero(s: string)
    requires IsDigits(s)
    ensures IsDigits("0" + s) && DigitsValue("0" + s) == DigitsValue(s)
    decreases |s|
  {
    if s != [] {
      var t := "0" + s;
      assert t[..|t| - 1] == "0" + s[..|s| - 1];
      DigitsValueLeadingZero(s[..|s| - 1]);
    }
  }

  /** A string of digits holds no character other than a digit. */
  lemma DigitsHaveNo(s: string, c: char)
    requires IsDigits(s) && !IsDigit(c)
    ensures c !in s
  {
    assert forall i :: 0 <= i < |s| ==> s[i] != c by {
      forall i | 0 <= i < |s| ensures s[i] != c {
        assert IsDigit(s[i]);
      }
    }
  }

  /** `Number(s)` for the strings the model needs: the empty string is 0, a string of
      decimal digits is its value, and anything else is NaN (here `None`). */
  function ToNumber(s: string): (r: Option<int>)
    ensures r.Some? <==> IsDigits(s)
    ensures r.Some? ==> r.value >= 0
  {
    if IsDigits(s) then Some(DigitsValue(s)) else None
  }

  /** The longest prefix of `s` made of decimal digits. */
  function LeadingDigits(s: string): (d: string)
    ensures d <= s && IsDigits(d)
    ensures |d| < |s| ==> !IsDigit(s[|d|])
  {
    if s != [] && IsDigit(s[0]) then [s[0]] + LeadingDigits(s[1..]) else []
  }

  lemma {:induction false} LeadingDigitsOfDigits(s: string)
    requires IsDigits(s)
    ensures LeadingDigits(s) == s
    decreases |s|
  {
    if s != [] {
      LeadingDigitsOfDigits(s[1..]);
    }
  }

  /** The characters `parseInt` and `parseFloat` skip before the number: the white space and
      line terminators of sections 12.2 and 12.3 of ECMA-262 (the space separators of Unicode
      included). */
  predicate IsJsSpace(c: char) {
    if c <= ' ' then c == ' ' || '\t' <= c <= '\r'
    else '\U{A0}' <= c && IsWideJsSpace(c)
  }

  /** The white space of IsJsSpace beyond ASCII. */
  predicate IsWideJsSpace(c: char) {
    c == '\U{A0}' || c == '\U{1680}' || ('\U{2000}' <= c <= '\U{200A}')
    || c == '\U{2028}' || c == '\U{2029}' || c == '\U{202F}' || c == '\U{205F}'
    || c == '\U{3000}' || c == '\U{FEFF}'
  }

  /** `s` without its leading white space: the longest suffix that does not start with it. */
  function TrimStart(s: string): string
  {
    if s != [] && IsJsSpace(s[0]) then TrimStart(s[1..]) else s
  }

  /** TrimStart drops a prefix made only of white space and stops at the first other
      character. */
  lemma {:induction false} TrimStartIsLongestSuffix(s: string)
    ensures var r := TrimStart(s);
            && |r| <= |s| && r == s[|s| - |r|..]
            && (r == [] || !IsJsSpace(r[0]))
            && forall i :: 0 <= i < |s| - |r| ==> IsJsSpace(s[i])
  {
    if s != [] && IsJsSpace(s[0]) {
      TrimStartIsLongestSuffix(s[1..]);
      var r := TrimStart(s);
      assert s[1..][|s| - 1 - |r|..] == s[|s| - |r|..];
      forall i | 0 <= i < |s| - |r|
        ensures IsJsSpace(s[i])
      {
        if i > 0 {
          assert s[i] == s[1..][i - 1];
        }
      }
    }
  }

  /** White space in front is skipped. */
  lemma TrimStartSkipsSpace(c: char, s: string)
    requires IsJsSpace(c)
    ensures TrimStart([c] + s) == TrimStart(s)
  {
    assert ([c] + s)[1..] == s;
  }

  /** Text that starts with a digit or a `-` has no white space to skip. */
  lemma TrimStartOfNumeral(s: string)
    requires s != [] && (IsDigit(s[0]) || s[0] == '-')
    ensures TrimStart(s) == s
  {
  }

  /** `parseInt(s, 10)`: after leading white space, an optional sign and the longest run of
      digits after it; NaN (here `None`) when there is no digit. */
  function ParseInt(s: string): Option<int>
  {
    ParseSignedInt(TrimStart(s))
  }

  /** `parseInt` is NaN exactly when no digit follows the white space and the optional sign;
      a negative result comes only from a `-`, and a `-` never gives a positive one. */
  lemma ParseIntReadsNumeral(s: string)
    ensures var r := ParseInt(s);
            var t := TrimStart(s);
            var body := if t != [] && (t[0] == '-' || t[0] == '+') then t[1..] else t;
            (r.Some? <==> body != [] && IsDigit(body[0]))
            && (r.Some? ==> (r.value < 0 ==> t[0] == '-') && (t[0] == '-' ==> r.value <= 0))
  {
  }

  /** The part of `parseInt` after the white space: a sign and the digits that follow it. */
  function ParseSignedInt(t: string): Option<int>
  {
    var negative := t != [] && t[0] == '-';
    var body := if t != [] && (t[0] == '-' || t[0] == '+') then t[1..] else t;
    var digits := LeadingDigits(body);
    if digits == [] then None
    else
      var magnitude: int := DigitsValue(digits);
      Some(if negative then -magnitude else magnitude)
  }

  /** Leading white space does not change what `parseInt` reads. */
  lemma ParseIntSkipsSpace(c: char, s: string)
    requires IsJsSpace(c)
    ensures ParseInt([c] + s) == ParseInt(s)
  {
    TrimStartSkipsSpace(c, s);
  }

  /** A digit string starts with no sign. */
  lemma DigitsHaveNoSign(m: string)
    requires IsDigits(m) && |m| >= 1
    ensures m[0] != '-' && m[0] != '+'
  {
    assert IsDigit(m[0]);
  }

  /** A non-empty digit string reads under `parseInt` as its value. */
  lemma ParseIntOfDigits(m: string)
    requires IsDigits(m) && |m| >= 1
    ensures ParseInt(m) == Some(DigitsValue(m))
  {
    assert TrimStart(m) == m by {
      assert IsDigit(m[0]);
      TrimStartOfNumeral(m);
    }
    assert ParseSignedInt(m) == Some(DigitsValue(m)) by {
      DigitsHaveNoSign(m);
      LeadingDigitsOfDigits(m);
    }
  }

  /** The digits in front of a text that goes on with a non-digit are its leading digits. */
  lemma {:induction false} LeadingDigitsOfPrefix(d: string, rest: string)
    requires IsDigits(d) && (rest == [] || !IsDigit(rest[0]))
    ensures LeadingDigits(d + rest) == d
    decreases |d|
  {
    if d == [] {
      assert d + rest == rest;
    } else {
      assert (d + rest)[1..] == d[1..] + rest;
      LeadingDigitsOfPrefix(d[1..], rest);
    }
  }

  /** `parseInt` stops at the first character after the digits: the numeral of `n`
      followed by text that does not start with a digit reads as `n`. */
  lemma ParseIntIgnoresRest(n: nat, rest: string)
    requires rest == [] || !IsDigit(rest[0])
    ensures ParseInt(NatToString(n) + rest) == Some(n)
  {
    var s := NatToString(n) + rest;
    assert s[0] == NatToString(n)[0] && IsDigit(s[0]);
    TrimStartOfNumeral(s);
    LeadingDigitsOfPrefix(NatToString(n), rest);
    DigitsValueOfNatToString(n);
  }

  /** Text that does not start with white space, a sign or a digit is `NaN` to `parseInt`. */
  lemma ParseIntOfNonNumeric(s: string)
    requires s != [] && !IsDigit(s[0]) && s[0] !in "-+" && !IsJsSpace(s[0])
    ensures ParseInt(s) == None
  {
  }

  lemma ParseIntOfIntToString(i: int)
    ensures ParseInt(IntToString(i)) == Some(i)
  {
    var n: nat := if i < 0 then -i else i;
    TrimStartOfNumeral(IntToString(i));
    LeadingDigitsOfDigits(NatToString(n));
    DigitsValueOfNatToString(n);
    if i < 0 {
      assert IntToString(i)[1..] == NatToString(n);
    }
  }

  function Pow10(n: nat): (p: nat)
    ensures p >= 1
  {
    if n == 0 then 1 else 10 * Pow10(n - 1)
  }

  /** `parseFloat(s)` for plain decimal text: after leading white space, an optional sign, the
      leading digits and, after a `.`, the digits of a fraction; `None` stands for `NaN`, when
      neither part has a digit. */
  function ParseFloat(s: string): (r: Option<real>)
  {
    ParseSignedFloat(TrimStart(s))
  }

  /** `parseFloat` is NaN exactly when neither a digit nor a `.` and a digit follow the white
      space and the optional sign; a negative result comes only from a `-`. */
  lemma ParseFloatReadsNumeral(s: string)
    ensures var r := ParseFloat(s);
            var t := TrimStart(s);
            var body := if t != [] && (t[0] == '-' || t[0] == '+') then t[1..] else t;
            (r.Some? <==> body != [] && (IsDigit(body[0]) || (body[0] == '.' && |body| > 1 && IsDigit(body[1]))))
            && (r.Some? ==> (r.value < 0.0 ==> t[0] == '-') && (t[0] == '-' ==> r.value <= 0.0))
  {
  }

  /** The part of `parseFloat` after the white space: a sign and the unsigned number after it. */
  function ParseSignedFloat(t: string): (r: Option<real>)
  {
    var negative := t != [] && t[0] == '-';
    var body := if t != [] && (t[0] == '-' || t[0] == '+') then t[1..] else t;
    match ParseUnsignedFloat(body)
    case None => None
    case Some(magnitude) => Some(if negative then -magnitude else magnitude)
  }

  /** Leading white space does not change what `parseFloat` reads. */
  lemma ParseFloatSkipsSpace(c: char, s: string)
    requires IsJsSpace(c)
    ensures ParseFloat([c] + s) == ParseFloat(s)
  {
    TrimStartSkipsSpace(c, s);
  }

  /** The unsigned part of `parseFloat`: leading digits and an optional `.` with more digits. */
  function ParseUnsignedFloat(body: string): (r: Option<real>)
    ensures r.Some? ==> r.value >= 0.0
  {
    var whole := LeadingDigits(body);
    var rest := body[|whole|..];
    var fraction := if rest != [] && rest[0] == '.' then LeadingDigits(rest[1..]) else [];
    if whole == [] && fraction == [] then None else Some(Magnitude(whole, fraction))
  }

  /** The value of the decimal numeral `whole.fraction`. */
  function Magnitude(whole: string, fraction: string): (m: real)
    requires IsDigits(whole) && IsDigits(fraction)
    ensures m >= 0.0
  {
    DigitsValue(whole) as real + DigitsValue(fraction) as real / Pow10(|fraction|) as real
  }

  /** A numeral without a fraction has the value of its whole part. */
  lemma MagnitudeOfWhole(whole: string)
    requires IsDigits(whole)
    ensures Magnitude(whole, []) == DigitsValue(whole) as real
  {
    assert DigitsValue([]) == 0 && Pow10(0) == 1;
  }

  /** `parseFloat` reads a non-empty digit string as its value. */
  lemma ParseFloatOfDigits(body: string)
    requires IsDigits(body) && |body| >= 1
    ensures ParseUnsignedFloat(body) == Some(DigitsValue(body) as real)
    ensures ParseFloat(body) == Some(DigitsValue(body) as real)
  {
    DigitsHaveNoSign(body);
    assert IsDigit(body[0]);
    TrimStartOfNumeral(body);
    LeadingDigitsOfDigits(body);
    assert body[|body|..] == [];
    assert ParseUnsignedFloat(body) == Some(Magnitude(body, []));
    MagnitudeOfWhole(body);
  }

  /** `parseFloat` reads a minus sign before a non-empty digit string as a negative value. */
  lemma ParseFloatOfNegatedDigits(s: string, m: nat)
    requires |s| >= 2 && s[0] == '-' && IsDigits(s[1..]) && DigitsValue(s[1..]) == m
    ensures ParseFloat(s) == Some(-(m as real))
  {
    TrimStartOfNumeral(s);
    ParseFloatOfDigits(s[1..]);
  }

  /** `parseFloat` reads a minus sign before the numeral of `n` as `-n`. */
  lemma ParseFloatOfMinusNat(n: nat)
    ensures ParseFloat("-" + NatToString(n)) == Some(-(n as real))
  {
    var s := "-" + NatToString(n);
    assert s[1..] == NatToString(n);
    DigitsValueOfNatToString(n);
    ParseFloatOfNegatedDigits(s, n);
  }

  /** `parseFloat` reads the text of a negative integer back as that integer. */
  lemma ParseFloatOfNegativeInt(i: int)
    requires i < 0
    ensures ParseFloat(IntToString(i)) == Some(i as real)
  {
    var n: nat := -i;
    assert IntToString(i) == "-" + NatToString(n);
    ParseFloatOfMinusNat(n);
  }

  /** `parseFloat` reads the text of an integer back as that integer. */
  lemma ParseFloatOfIntToString(i: int)
    ensures ParseFloat(IntToString(i)) == Some(i as real)
  {
    if i < 0 {
      ParseFloatOfNegativeInt(i);
    } else {
      DigitsValueOfNatToString(i);
      assert IntToString(i) == NatToString(i);
      ParseFloatOfDigits(NatToString(i));
    }
  }

  /** Text that does not start with white space, a sign, a digit or a `.` is `NaN` to `parseFloat`. */
  lemma ParseFloatOfNonNumeric(s: string)
    requires s != [] && !IsDigit(s[0]) && s[0] !in "-+." && !IsJsSpace(s[0])
    ensures ParseFloat(s) == None
  {
  }

  // ---------------------------------------------------------------------------
  // Padding and slicing
  // ---------------------------------------------------------------------------

  /** `n` copies of `c`. */
  function Repeat(c: char, n: nat): (r: string)
    ensures |r| == n && forall i :: 0 <= i < n ==> r[i] == c
  {
    if n == 0 then [] else [c] + Repeat(c, n - 1)
  }

  /** `s.padStart(width, fill)`: `fill` repeated in front of `s` up to `width` characters;
      a string already that long is returned unchanged. */
  function PadStart(s: string, width: nat, fill: char): (r: string)
    ensures |r| == if |s| < width then width else |s|
    ensures r[|r| - |s|..] == s
    ensures forall i :: 0 <= i < |r| - |s| ==> r[i] == fill
  {
    if |s| >= width then s else Repeat(fill, width - |s|) + s
  }

  /** Leading zeros do not change the value of a digit string. */
  lemma {:induction false} ZerosKeepValue(s: string, n: nat)
    requires IsDigits(s)
    ensures IsDigits(Repeat('0', n) + s) && DigitsValue(Repeat('0', n) + s) == DigitsValue(s)
    decreases n
  {
    if n > 0 {
      ZerosKeepValue(s, n - 1);
      var rest := Repeat('0', n - 1) + s;
      assert Repeat('0', n) == "0" + Repeat('0', n - 1);
      assert Repeat('0', n) + s == "0" + rest;
      DigitsValueLeadingZero(rest);
    } else {
      assert Repeat('0', n) + s == s;
    }
  }

  /** Zero-padding keeps the value of a digit string. */
  lemma PadStartKeepsValue(s: string, width: nat)
    requires IsDigits(s)
    ensures IsDigits(PadStart(s, width, '0'))
    ensures DigitsValue(PadStart(s, width, '0')) == DigitsValue(s)
  {
    if |s| < width {
      ZerosKeepValue(s, width - |s|);
    }
  }

  /** `s.slice(0, n)` for a non-negative `n`. */
  function Take(s: string, n: nat): (r: string)
    ensures r <= s && |r| == if n < |s| then n else |s|
  {
    if n < |s| then s[..n] else s
  }

  /** `s.slice(-n)` for a positive `n`: the last `n` characters, or all of a shorter string. */
  function TakeLast(s: string, n: nat): (r: string)
    ensures |r| == if n < |s| then n else |s|
    ensures r == s[|s| - |r|..]
  {
    if n < |s| then s[|s| - n..] else s
  }

  /** `s.toLowerCase()` on the letters A-Z; other characters are kept. */
  function LowerAscii(s: string): (r: string)
    ensures |r| == |s|
    ensures forall i :: 0 <= i < |s| ==> r[i] == LowerChar(s[i])
  {
    if s == [] then []
    else [LowerChar(s[0])] + LowerAscii(s[1..])
  }

  /** `'true'` is already in lower case. */
  lemma LowerAsciiOfTrue()
    ensures LowerAscii("true") == "true"
  {
    var r := LowerAscii("true");
    assert r[0] == 't' && r[1] == 'r' && r[2] == 'u' && r[3] == 'e';
  }

  /** How `LowerAscii` treats one character: a letter A-Z becomes its lower-case letter,
      and every other character is kept. */
  function LowerChar(c: char): (l: char)
    ensures 'A' <= c <= 'Z' ==> 'a' <= l <= 'z' && l as int == c as int + 32
    ensures !('A' <= c <= 'Z') ==> l == c
  {
    if 'A' <= c <= 'Z' then (c as int + 32) as char else c
  }

  /** The characters that lower-case to a letter a-z are that letter and its capital. */
  lemma LowerCharOf(c: char, l: char)
    requires 'a' <= l <= 'z'
    ensures LowerChar(c) == l <==> c == l || c as int == l as int - 32
  {
  }

  /** A character-wise lower-casing of `s` is `'true'` exactly when `s` spells "true". */
  lemma LowersToTrue(s: string, r: string)
    requires |r| == |s| && forall i :: 0 <= i < |s| ==> r[i] == LowerChar(s[i])
    ensures r == "true" <==> |s| == 4 && s[0] in "tT" && s[1] in "rR" && s[2] in "uU" && s[3] in "eE"
  {
    if |s| == 4 {
      LowerCharOf(s[0], 't');
      LowerCharOf(s[1], 'r');
      LowerCharOf(s[2], 'u');
      LowerCharOf(s[3], 'e');
      assert r == "true" <==> r[0] == 't' && r[1] == 'r' && r[2] == 'u' && r[3] == 'e';
    }
  }

  /** A text lower-cases to `'true'` exactly when it spells "true" in any mix of cases;
      these are the only texts `toLowerCase` turns into `'true'` as well. */
  lemma LowerAsciiIsTrue(s: string)
    ensures LowerAscii(s) == "true"
        <==> |s| == 4 && s[0] in "tT" && s[1] in "rR" && s[2] in "uU" && s[3] in "eE"
  {
    LowersToTrue(s, LowerAscii(s));
  }

  // ---------------------------------------------------------------------------
  // split and join with a one-character separator
  // ---------------------------------------------------------------------------

  /** `s.split(sep)`: the pieces between occurrences of `sep`, in order; always at least one
      piece (`"".split(sep)` is `[""]`) and never a piece that contains `sep`. */
  function Split(s: string, sep: char): (parts: seq<string>)
    ensures |parts| >= 1
    ensures forall i :: 0 <= i < |parts| ==> sep !in parts[i]
    decreases |s|
  {
    if s == [] then [""]
    else
      var rest := Split(s[1..], sep);
      if s[0] == sep then [""] + rest
      else [[s[0]] + rest[0]] + rest[1..]
  }

  /** `parts.join(sep)`; the join of no parts is the empty string. */
  function Join(parts: seq<string>, sep: char): (r: string)
    ensures parts != [] ==> parts[0] <= r
    ensures |parts| > 1 ==> |r| > |parts[0]| && r[|parts[0]|] == sep
  {
    if |parts| == 0 then ""
    else if |parts| == 1 then parts[0]
    else parts[0] + [sep] + Join(parts[1..], sep)
  }

  /** Splitting a string that starts with `a` (free of `sep`) puts `a` in front of the first piece. */
  lemma {:induction false} SplitFreePrefix(a: string, t: string, sep: char)
    requires sep !in a
    ensures Split(a + t, sep) == [a + Split(t, sep)[0]] + Split(t, sep)[1..]
    decreases |a|
  {
    if a != [] {
      assert (a + t)[0] == a[0] && (a + t)[1..] == a[1..] + t;
      SplitFreePrefix(a[1..], t, sep);
      var rest := Split(a[1..] + t, sep);
      assert rest[0] == a[1..] + Split(t, sep)[0];
      assert [a[0]] + rest[0] == a + Split(t, sep)[0];
    } else {
      var parts := Split(t, sep);
      assert a + t == t && a + parts[0] == parts[0];
      assert [parts[0]] + parts[1..] == parts;
    }
  }

  /** A separator after a piece free of it ends that piece. */
  lemma SplitAtSeparator(a: string, t: string, sep: char)
    requires sep !in a
    ensures Split(a + [sep] + t, sep) == [a] + Split(t, sep)
  {
    assert a + [sep] + t == a + ([sep] + t);
    SplitFreePrefix(a, [sep] + t, sep);
    assert ([sep] + t)[1..] == t;
    assert a + "" == a;
  }

  /** A string without the separator splits into itself alone. */
  lemma SplitWithoutSeparator(s: string, sep: char)
    requires sep !in s
    ensures Split(s, sep) == [s]
  {
    SplitFreePrefix(s, "", sep);
    assert s + "" == s;
  }

  /** The first piece of a split begins with the string's first character, unless that is the separator. */
  lemma SplitFirstPiece(s: string, sep: char)
    requires s != [] && s[0] != sep
    ensures Split(s, sep)[0] != [] && Split(s, sep)[0][0] == s[0]
  {
  }

  /** Joining the pieces of a split gives the string back. */
  lemma {:induction false} JoinSplit(s: string, sep: char)
    ensures Join(Split(s, sep), sep) == s
    decreases |s|
  {
    if s != [] {
      JoinSplit(s[1..], sep);
      var rest := Split(s[1..], sep);
      if s[0] != sep {
        var parts := Split(s, sep);
        if |rest| > 1 {
          assert parts[1..] == rest[1..];
        }
      }
    }
  }

  /** Splitting a join gives the parts back, provided no part contains the separator. */
  lemma {:induction false} SplitJoin(parts: seq<string>, sep: char)
    requires |parts| >= 1
    requires forall i :: 0 <= i < |parts| ==> sep !in parts[i]
    ensures Split(Join(parts, sep), sep) == parts
    decreases |parts|
  {
    if |parts| == 1 {
      SplitWithoutSeparator(parts[0], sep);
    } else {
      var t := Join(parts[1..], sep);
      SplitJoin(parts[1..], sep);
      assert parts[0] + [sep] + t == parts[0] + ([sep] + t);
      SplitFreePrefix(parts[0], [sep] + t, sep);
      assert ([sep] + t)[1..] == t;
      assert parts[0] + "" == parts[0];
      assert [parts[0]] + parts[1..] == parts;
    }
  }

  /** Joining one more part appends the separator and that part. */
  lemma {:induction false} JoinAppend(parts: seq<string>, last: string, sep: char)
    ensures Join(parts + [last], sep) == if parts == [] then last else Join(parts, sep) + [sep] + last
    decreases |parts|
  {
    if |parts| == 1 {
      assert parts + [last] == [parts[0], last];
    } else if |parts| > 1 {
      assert (parts + [last])[1..] == parts[1..] + [last];
      JoinAppend(parts[1..], last, sep);
    }
  }
}
