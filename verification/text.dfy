/**
 * The string operations the application relies on: `toLowerCase`,
 * `includes`, `trim`, `parseInt` and the `value || fallback` idiom.
 */
module Text {
  import opened Wrappers

  /** Lower-cases one character (the ASCII letters A-Z; everything else is kept). */
  function LowerChar(c: char): char {
    if 'A' <= c <= 'Z' then (c as int - 'A' as int + 'a' as int) as char else c
  }

  /** `String.prototype.toLowerCase`. */
  function Lower(s: string): (r: string)
    ensures |r| == |s|
    ensures forall i :: 0 <= i < |s| ==> r[i] == LowerChar(s[i])
  {
    seq(|s|, i requires 0 <= i < |s| => LowerChar(s[i]))
  }

  /** Lower-casing twice is lower-casing once. */
  lemma LowerIdempotent(s: string)
    ensures Lower(Lower(s)) == Lower(s)
  {
  }

  /** No upper-case ASCII letter survives lower-casing. */
  lemma LowerHasNoUpper(s: string)
    ensures forall i :: 0 <= i < |s| ==> !('A' <= Lower(s)[i] <= 'Z')
  {
  }

  /** `needle` occurs in `hay` starting at position `i`. */
  predicate OccursAt(hay: string, needle: string, i: int) {
    0 <= i && i + |needle| <= |hay| && hay[i..i + |needle|] == needle
  }

  /** `String.prototype.includes`, scanning the start positions left to right. */
  function Includes(hay: string, needle: string): (r: bool)
    ensures r <==> exists i :: OccursAt(hay, needle, i)
    decreases |hay|
  {
    if needle <= hay then
      assert OccursAt(hay, needle, 0);
      true
    else if |hay| == 0 then
      false
    else
      IncludesShift(hay, needle);
      Includes(hay[1..], needle)
  }

  /** When `needle` is not a prefix of `hay`, it occurs in `hay` iff it occurs in `hay[1..]`. */
  lemma IncludesShift(hay: string, needle: string)
    requires |hay| > 0 && !(needle <= hay)
    ensures (exists i :: OccursAt(hay, needle, i)) <==> (exists i :: OccursAt(hay[1..], needle, i))
  {
    forall i | OccursAt(hay, needle, i)
      ensures OccursAt(hay[1..], needle, i - 1)
    {
      assert hay[1..][i - 1..i - 1 + |needle|] == hay[i..i + |needle|];
    }
    forall k | OccursAt(hay[1..], needle, k)
      ensures OccursAt(hay, needle, k + 1)
    {
      assert hay[1..][k..k + |needle|] == hay[k + 1..k + 1 + |needle|];
    }
  }

  /** Every string includes the empty string. */
  lemma IncludesEmpty(hay: string)
    ensures Includes(hay, "")
  {
  }

  /** `a.toLowerCase().includes(q.toLowerCase())`. */
  predicate MatchesIgnoringCase(text: string, query: string) {
    Includes(Lower(text), Lower(query))
  }

  /**
   * Case-insensitive matching: a query matches a text exactly when the query,
   * written in any mix of cases, matches it.
   */
  lemma MatchIgnoresQueryCase(text: string, q1: string, q2: string)
    requires Lower(q1) == Lower(q2)
    ensures MatchesIgnoringCase(text, q1) == MatchesIgnoringCase(text, q2)
  {
  }

  /** A query matches any text that contains it in exactly the same case. */
  lemma MatchesVerbatim(text: string, query: string, i: int)
    requires OccursAt(text, query, i)
    ensures MatchesIgnoringCase(text, query)
  {
    assert Lower(text)[i..i + |query|] == Lower(query);
    assert OccursAt(Lower(text), Lower(query), i);
  }

  /**
   * The characters `String.prototype.trim` removes: the ECMAScript WhiteSpace
   * and LineTerminator code points.
   */
  predicate IsSpace(c: char) {
    c == ' ' || c == '\t' || c == '\n' || c == '\r' || c == '\U{000B}' || c == '\U{000C}' ||
    c == '\U{00A0}' || c == '\U{1680}' || ('\U{2000}' <= c <= '\U{200A}') ||
    c == '\U{2028}' || c == '\U{2029}' || c == '\U{202F}' || c == '\U{205F}' ||
    c == '\U{3000}' || c == '\U{FEFF}'
  }

  /** Leading whitespace removed. */
  function TrimStart(s: string): (r: string)
    ensures |r| <= |s| && r == s[|s| - |r|..]
    ensures forall i :: 0 <= i < |s| - |r| ==> IsSpace(s[i])
    ensures |r| > 0 ==> !IsSpace(r[0])
  {
    if |s| > 0 && IsSpace(s[0]) then TrimStart(s[1..]) else s
  }

  /** Trailing whitespace removed. */
  function TrimEnd(s: string): (r: string)
    ensures |r| <= |s| && r == s[..|r|]
    ensures forall i :: |r| <= i < |s| ==> IsSpace(s[i])
    ensures |r| > 0 ==> !IsSpace(r[|r| - 1])
  {
    if |s| > 0 && IsSpace(s[|s| - 1]) then TrimEnd(s[..|s| - 1]) else s
  }

  /** Everything of `s` before `i` and from `j` on is whitespace. */
  predicate BlankOutside(s: string, i: int, j: int) {
    0 <= i <= j <= |s| &&
    (forall k :: 0 <= k < i ==> IsSpace(s[k])) &&
    (forall k :: j <= k < |s| ==> IsSpace(s[k]))
  }

  /**
   * `String.prototype.trim`: the slice of `s` left after removing leading and
   * trailing whitespace; it neither starts nor ends with whitespace.
   */
  function Trim(s: string): (r: string)
    ensures exists i, j :: BlankOutside(s, i, j) && r == s[i..j]
    ensures |r| > 0 ==> !IsSpace(r[0]) && !IsSpace(r[|r| - 1])
  {
    var t := TrimStart(s);
    var r := TrimEnd(t);
    BlankEnds(s, t, r);
    r
  }

  /**
   * A prefix `r` of a suffix `t` of `s`, where what each cut drops is
   * whitespace, is a slice of `s` with blank ends.
   */
  lemma BlankEnds(s: string, t: string, r: string)
    requires |t| <= |s| && t == s[|s| - |t|..]
    requires forall k :: 0 <= k < |s| - |t| ==> IsSpace(s[k])
    requires |r| <= |t| && r == t[..|r|]
    requires forall k :: |r| <= k < |t| ==> IsSpace(t[k])
    ensures BlankOutside(s, |s| - |t|, |s| - |t| + |r|)
    ensures r == s[|s| - |t|..|s| - |t| + |r|]
  {
    var i := |s| - |t|;
    var j := i + |r|;
    forall k | j <= k < |s|
      ensures IsSpace(s[k])
    {
      assert s[k] == t[k - i];
    }
  }

  /** A string trims to empty exactly when it is all whitespace. */
  lemma TrimEmptyIffBlank(s: string)
    ensures Trim(s) == "" <==> forall k :: 0 <= k < |s| ==> IsSpace(s[k])
  {
    var r := Trim(s);
    var i, j :| BlankOutside(s, i, j) && r == s[i..j];
    if r != "" {
      assert r[0] == s[i];
    }
  }

  /** Trimming twice is trimming once. */
  lemma TrimIdempotent(s: string)
    ensures Trim(Trim(s)) == Trim(s)
  {
    var r := Trim(s);
    if |r| > 0 {
      assert TrimStart(r) == r;
      assert TrimEnd(r) == r;
    }
  }

  /** Whether a character lies outside the Basic Multilingual Plane. */
  predicate IsAstral(c: char) {
    c as int >= 0x10000
  }

  /**
   * A string's JavaScript `length`: its UTF-16 code units, where an astral
   * character is a surrogate pair and so counts twice.
   */
  function Utf16Length(s: string): (r: nat)
    ensures |s| <= r <= 2 * |s|
    ensures r == |s| <==> forall k :: 0 <= k < |s| ==> !IsAstral(s[k])
    ensures r == 2 * |s| <==> forall k :: 0 <= k < |s| ==> IsAstral(s[k])
  {
    if |s| == 0 then 0
    else
      var rest := Utf16Length(s[1..]);
      assert forall k :: 1 <= k < |s| ==> s[k] == s[1..][k - 1];
      (if IsAstral(s[0]) then 2 else 1) + rest
  }

  /** Code units add up over concatenation. */
  lemma {:induction false} Utf16LengthAppend(a: string, b: string)
    ensures Utf16Length(a + b) == Utf16Length(a) + Utf16Length(b)
    decreases |a|
  {
    if |a| > 0 {
      assert (a + b)[0] == a[0] && (a + b)[1..] == a[1..] + b;
      Utf16LengthAppend(a[1..], b);
    } else {
      assert a + b == b;
    }
  }

  /** A slice has no more code units than the whole. */
  lemma Utf16LengthSlice(s: string, i: int, j: int)
    requires 0 <= i <= j <= |s|
    ensures Utf16Length(s[i..j]) <= Utf16Length(s)
  {
    var pre := s[..j];
    assert s == pre + s[j..];
    Utf16LengthAppend(pre, s[j..]);
    assert pre == pre[..i] + s[i..j];
    Utf16LengthAppend(pre[..i], s[i..j]);
  }

  /** `value || fallback` for a string that may be missing: `""` counts as missing. */
  function OrElse(value: Option<string>, fallback: string): (r: string)
    ensures r == fallback || (value == Some(r) && r != "")
    ensures value.Some? && value.value != "" ==> r == value.value
  {
    if value.Some? && value.value != "" then value.value else fallback
  }

  predicate IsDigit(c: char) {
    '0' <= c <= '9'
  }

  function DigitValue(c: char): nat
    requires IsDigit(c)
  {
    c as int - '0' as int
  }

  /** The value of a string of decimal digits. */
  function DigitsValue(ds: string): nat
    requires forall i :: 0 <= i < |ds| ==> IsDigit(ds[i])
  {
    if |ds| == 0 then 0 else DigitsValue(ds[..|ds| - 1]) * 10 + DigitValue(ds[|ds| - 1])
  }

  /** The longest prefix of `s` made of decimal digits. */
  function LeadingDigits(s: string): (r: string)
    ensures r <= s
    ensures forall i :: 0 <= i < |r| ==> IsDigit(r[i])
    ensures |r| < |s| ==> !IsDigit(s[|r|])
  {
    if |s| > 0 && IsDigit(s[0]) then [s[0]] + LeadingDigits(s[1..]) else []
  }

  /**
   * `parseInt(s)` for decimal input: skips leading whitespace, reads an
   * optional sign and then as many digits as follow; `None` stands for `NaN`,
   * which is what a string with no digits in that place yields.
   */
  function ParseInt(s: string): (r: Option<int>)
    ensures r.None? <==> LeadingDigits(SignStripped(TrimStart(s))) == ""
  {
    var t := TrimStart(s);
    var negative := |t| > 0 && t[0] == '-';
    var ds := LeadingDigits(SignStripped(t));
    if ds == "" then None
    else
      var v: int := DigitsValue(ds);
      Some(if negative then -v else v)
  }

  /** `t` without one leading `+` or `-`. */
  function SignStripped(t: string): string {
    if |t| > 0 && (t[0] == '-' || t[0] == '+') then t[1..] else t
  }

  /** The decimal digits of `n`, no leading zeros; what a number input shows for `n`. */
  function Decimal(n: nat): (r: string)
    ensures |r| > 0
    ensures forall i :: 0 <= i < |r| ==> IsDigit(r[i])
  {
    if n < 10 then [('0' as int + n) as char]
    else Decimal(n / 10) + [('0' as int + n % 10) as char]
  }

  /** Reading back the digits of `n` gives `n`. */
  lemma {:induction false} DecimalValue(n: nat)
    ensures DigitsValue(Decimal(n)) == n
  {
    if n >= 10 {
      var d := Decimal(n);
      assert d[..|d| - 1] == Decimal(n / 10);
      DecimalValue(n / 10);
    }
  }

  /** All-digit strings are read in full. */
  lemma {:induction false} LeadingDigitsAll(s: string)
    requires forall i :: 0 <= i < |s| ==> IsDigit(s[i])
    ensures LeadingDigits(s) == s
  {
    if |s| > 0 {
      LeadingDigitsAll(s[1..]);
    }
  }

  /** `parseInt` reads back the integer a number input displays. */
  lemma ParseIntDecimal(n: int)
    ensures ParseInt(Shown(n)) == Some(n)
  {
    var m: nat := if n < 0 then -n else n;
    var d := Decimal(m);
    DecimalValue(m);
    assert !IsSpace(Shown(n)[0]);
    if n < 0 {
      assert SignStripped(Shown(n)) == d;
    } else {
      assert SignStripped(Shown(n)) == d;
    }
    LeadingDigitsAll(d);
  }

  /** Leading whitespace is skipped up to the first other character. */
  lemma {:induction false} TrimStartSkips(w: string, x: string)
    requires forall i :: 0 <= i < |w| ==> IsSpace(w[i])
    requires |x| > 0 && !IsSpace(x[0])
    ensures TrimStart(w + x) == x
    decreases |w|
  {
    if |w| > 0 {
      assert (w + x)[0] == w[0] && (w + x)[1..] == w[1..] + x;
      TrimStartSkips(w[1..], x);
    } else {
      assert w + x == x;
    }
  }

  /** The digit run stops at the first character that is not a digit. */
  lemma {:induction false} LeadingDigitsStop(d: string, rest: string)
    requires forall i :: 0 <= i < |d| ==> IsDigit(d[i])
    requires |rest| == 0 || !IsDigit(rest[0])
    ensures LeadingDigits(d + rest) == d
    decreases |d|
  {
    if |d| > 0 {
      assert (d + rest)[0] == d[0] && (d + rest)[1..] == d[1..] + rest;
      LeadingDigitsStop(d[1..], rest);
      assert d == [d[0]] + d[1..];
    } else {
      assert d + rest == rest;
    }
  }

  /**
   * What `parseInt` reads from any text that has digits in the right place:
   * whitespace, an optional sign, digits (leading zeros allowed), then
   * anything that does not start with a digit ("1.5", "12abc"). The value is
   * the digits' value, negated for a minus sign.
   */
  lemma ParseIntReads(w: string, sign: string, d: string, rest: string)
    requires forall i :: 0 <= i < |w| ==> IsSpace(w[i])
    requires sign == "" || sign == "+" || sign == "-"
    requires |d| > 0 && forall i :: 0 <= i < |d| ==> IsDigit(d[i])
    requires |rest| == 0 || !IsDigit(rest[0])
    ensures ParseInt(w + sign + d + rest) == Some(if sign == "-" then -(DigitsValue(d) as int) else DigitsValue(d))
  {
    var ds := d + rest;
    var x := sign + ds;
    var input := w + sign + d + rest;
    AppendAssoc(w + sign, d, rest);
    AppendAssoc(w, sign, ds);
    assert ds[0] == d[0];
    SignedDigitsStart(sign, ds);
    TrimStartSkips(w, x);
    LeadingDigitsStop(d, rest);
    ParseIntOfTrimmed(input, x, d, sign == "-");
  }

  lemma AppendAssoc(a: string, b: string, c: string)
    ensures a + b + c == a + (b + c)
  {
  }

  /** A sign or a digit starts the text `parseInt` reads; the sign is stripped once. */
  lemma SignedDigitsStart(sign: string, ds: string)
    requires sign == "" || sign == "+" || sign == "-"
    requires |ds| > 0 && IsDigit(ds[0])
    ensures var x := sign + ds;
      |x| > 0 && !IsSpace(x[0]) && (x[0] == '-' <==> sign == "-") && SignStripped(x) == ds
  {
    var x := sign + ds;
    if sign == "" {
      assert x == ds;
    } else {
      assert x[0] == sign[0] && x[1..] == ds;
    }
  }

  /** `parseInt` once the blanks are gone and the digits are known. */
  lemma ParseIntOfTrimmed(s: string, x: string, d: string, negative: bool)
    requires TrimStart(s) == x && |d| > 0 && LeadingDigits(SignStripped(x)) == d
    requires negative == (|x| > 0 && x[0] == '-')
    ensures ParseInt(s) == Some(if negative then -(DigitsValue(d) as int) else DigitsValue(d))
  {
    var t := TrimStart(s);
    assert t == x;
    assert LeadingDigits(SignStripped(t)) != "";
  }

  /** The text of an integer: a minus sign for negatives, then its digits. */
  function Shown(n: int): (r: string)
    ensures |r| > 0
  {
    if n < 0 then "-" + Decimal(-n) else Decimal(n)
  }
}
