/** The JavaScript string built-ins the tutor's logic is written with:
    trim, toLowerCase, parseInt(_, 10), Number.prototype.toString on integers,
    includes and split. A JavaScript string is modelled as `string`, a
    sequence of Unicode scalar values. */
module JsText {
  import opened Wrappers

  /** The code points JavaScript counts as WhiteSpace or LineTerminator: the
      set that `trim` strips and `parseInt` skips. */
  predicate IsWhite(c: char) {
    || c == '\t' || c == '\n' || c == '\U{000B}' || c == '\U{000C}' || c == '\r' || c == ' '
    || c == '\U{00A0}' || c == '\U{1680}' || ('\U{2000}' <= c <= '\U{200A}')
    || c == '\U{2028}' || c == '\U{2029}' || c == '\U{202F}' || c == '\U{205F}'
    || c == '\U{3000}' || c == '\U{FEFF}'
  }

  predicate IsBlank(s: string) {
    forall i :: 0 <= i < |s| ==> IsWhite(s[i])
  }

  /** Neither starts nor ends with white space. */
  predicate IsTrimmed(s: string) {
    s == [] || (!IsWhite(s[0]) && !IsWhite(s[|s| - 1]))
  }

  /** Drops the longest white prefix. */
  function TrimStart(s: string): (r: string)
    ensures |r| <= |s|
    ensures r == [] || !IsWhite(r[0])
  {
    if s != [] && IsWhite(s[0]) then TrimStart(s[1..]) else s
  }

  /** Drops the longest white suffix. */
  function TrimEnd(s: string): (r: string)
    ensures |r| <= |s|
    ensures r != [] ==> r[0] == s[0] && !IsWhite(r[|r| - 1])
  {
    if s != [] && IsWhite(s[|s| - 1]) then TrimEnd(s[..|s| - 1]) else s
  }

  /** String.prototype.trim */
  function Trim(s: string): (r: string)
    ensures IsTrimmed(r)
    ensures |r| <= |s|
  {
    TrimEnd(TrimStart(s))
  }

  lemma {:induction false} TrimStartBlankPrefix(w: string, x: string)
    requires IsBlank(w)
    ensures TrimStart(w + x) == TrimStart(x)
  {
    if w == [] {
      assert w + x == x;
    } else {
      assert (w + x)[1..] == w[1..] + x;
      TrimStartBlankPrefix(w[1..], x);
    }
  }

  lemma {:induction false} TrimEndBlankSuffix(x: string, w: string)
    requires IsBlank(w)
    ensures TrimEnd(x + w) == TrimEnd(x)
  {
    if w == [] {
      assert x + w == x;
    } else {
      assert (x + w)[..|x + w| - 1] == x + w[..|w| - 1];
      TrimEndBlankSuffix(x, w[..|w| - 1]);
    }
  }

  lemma {:induction false} TrimBlankSuffix(s: string, w: string)
    requires IsBlank(w)
    ensures Trim(s + w) == Trim(s)
  {
    if s == [] {
      assert s + w == w + [];
      TrimStartBlankPrefix(w, []);
    } else if IsWhite(s[0]) {
      assert (s + w)[1..] == s[1..] + w;
      TrimBlankSuffix(s[1..], w);
    } else {
      TrimEndBlankSuffix(s, w);
    }
  }

  /** White space around a string never changes what `trim` returns. */
  lemma TrimPadding(w1: string, s: string, w2: string)
    requires IsBlank(w1) && IsBlank(w2)
    ensures Trim(w1 + s + w2) == Trim(s)
  {
    assert w1 + s + w2 == w1 + (s + w2);
    TrimStartBlankPrefix(w1, s + w2);
    TrimBlankSuffix(s, w2);
  }

  lemma TrimmedIsFixed(s: string)
    requires IsTrimmed(s)
    ensures Trim(s) == s
  {
  }

  /** toLowerCase on one character. Only the ASCII capitals are folded. */
  function LowerChar(c: char): (r: char)
    ensures 'A' <= c <= 'Z' ==> 'a' <= r <= 'z'
    ensures !('A' <= c <= 'Z') ==> r == c
  {
    if 'A' <= c <= 'Z' then (c as int + 32) as char else c
  }

  /** String.prototype.toLowerCase, character by character. */
  function ToLower(s: string): (r: string)
    ensures |r| == |s|
    ensures forall i :: 0 <= i < |s| ==> r[i] == LowerChar(s[i])
  {
    seq(|s|, i requires 0 <= i < |s| => LowerChar(s[i]))
  }

  predicate HasNoCapitals(s: string) {
    forall i :: 0 <= i < |s| ==> !('A' <= s[i] <= 'Z')
  }

  lemma LowerConcat(a: string, b: string)
    ensures ToLower(a + b) == ToLower(a) + ToLower(b)
  {
  }

  lemma LowerKeeps(s: string)
    requires HasNoCapitals(s)
    ensures ToLower(s) == s
  {
  }

  predicate IsDigit(c: char) {
    '0' <= c <= '9'
  }

  predicate IsDigits(s: string) {
    forall i :: 0 <= i < |s| ==> IsDigit(s[i])
  }

  /** The longest run of decimal digits at the start of `s`. */
  function DigitPrefix(s: string): (r: string)
    ensures |r| <= |s| && r == s[..|r|]
    ensures IsDigits(r)
    ensures |r| == |s| || !IsDigit(s[|r|])
  {
    if s != [] && IsDigit(s[0]) then [s[0]] + DigitPrefix(s[1..]) else []
  }

  lemma {:induction false} DigitPrefixOfDigits(ds: string, rest: string)
    requires IsDigits(ds)
    requires rest == [] || !IsDigit(rest[0])
    ensures DigitPrefix(ds + rest) == ds
  {
    if ds != [] {
      assert (ds + rest)[1..] == ds[1..] + rest;
      DigitPrefixOfDigits(ds[1..], rest);
    }
  }

  lemma DigitPrefixOfAllDigits(ds: string)
    requires IsDigits(ds)
    ensures DigitPrefix(ds) == ds
  {
    DigitPrefixOfDigits(ds, []);
    assert ds + [] == ds;
  }

  function DigitValue(c: char): nat
    requires IsDigit(c)
  {
    c as int - '0' as int
  }

  /** The value of a run of decimal digits, most significant first. */
  function DigitsValue(ds: string): nat
    requires IsDigits(ds)
  {
    if ds == [] then 0 else DigitsValue(ds[..|ds| - 1]) * 10 + DigitValue(ds[|ds| - 1])
  }

  /** The value of the digits at the start of `t`, or `None` when `t` does
      not start with a digit. */
  function LeadingNumber(t: string): Option<nat> {
    var ds := DigitPrefix(t);
    if ds == [] then None else Some(DigitsValue(ds))
  }

  /** An optional sign, then the leading digits. */
  function SignedNumber(t: string): Option<int> {
    if t != [] && t[0] == '-' then
      match LeadingNumber(t[1..])
      case None => None
      case Some(v) => Some(0 - v)
    else if t != [] && t[0] == '+' then LeadingNumber(t[1..])
    else LeadingNumber(t)
  }

  /** parseInt(s, 10): leading white space, an optional sign, then the longest
      run of decimal digits; the rest of the string is ignored. `None` is NaN. */
  function ParseInt(s: string): (r: Option<int>)
    ensures var t := TrimStart(s);
      var signed := t != [] && (t[0] == '-' || t[0] == '+');
      var digits := DigitPrefix(if signed then t[1..] else t);
      r == if digits == [] then None
        else if t[0] == '-' then Some(0 - DigitsValue(digits))
        else Some(DigitsValue(digits))
  {
    SignedNumber(TrimStart(s))
  }

  /** A string whose first non-white character is neither a sign nor a digit is NaN. */
  lemma ParseIntNoNumeral(s: string)
    requires s != [] && !IsWhite(s[0]) && !IsDigit(s[0]) && s[0] != '+' && s[0] != '-'
    ensures ParseInt(s) == None
  {
  }

  /** A run of digits followed by anything that is not a digit parses to its value. */
  lemma ParseIntDigits(ds: string, rest: string)
    requires ds != [] && IsDigits(ds)
    requires rest == [] || !IsDigit(rest[0])
    ensures ParseInt(ds + rest) == Some(DigitsValue(ds))
  {
    assert TrimStart(ds + rest) == ds + rest;
    DigitPrefixOfDigits(ds, rest);
  }

  function DigitChar(d: nat): (c: char)
    requires d < 10
    ensures IsDigit(c) && DigitValue(c) == d
  {
    ('0' as int + d) as char
  }

  /** Number.prototype.toString() of a non-negative integer. */
  function NatToString(n: nat): (r: string)
    ensures r != [] && IsDigits(r)
    ensures DigitsValue(r) == n
    ensures n > 0 ==> r[0] != '0'
    ensures |r| > 1 ==> r[0] != '0'
  {
    if n < 10 then [DigitChar(n)]
    else
      var r := NatToString(n / 10) + [DigitChar(n % 10)];
      assert r[..|r| - 1] == NatToString(n / 10);
      r
  }

  /** Number.prototype.toString() of an integer: a minus sign, then the digits.
      Reading it back with parseInt gives the number again. */
  function IntToString(i: int): (r: string)
    ensures r != [] && IsTrimmed(r)
    ensures ParseInt(r) == Some(i)
    ensures i >= 0 ==> IsDigits(r) && (|r| > 1 ==> r[0] != '0')
    ensures i < 0 ==> |r| > 1 && r[0] == '-' && r[1..] == NatToString(-i)
  {
    if i < 0 then
      NegativeText(-i);
      "-" + NatToString(-i)
    else
      DigitsText(i);
      NatToString(i)
  }

  lemma DigitsText(n: nat)
    ensures IsTrimmed(NatToString(n)) && ParseInt(NatToString(n)) == Some(n)
  {
    var ds := NatToString(n);
    ParseIntDigits(ds, []);
    assert ds + [] == ds;
  }

  lemma NegativeText(m: nat)
    requires m > 0
    ensures var r := "-" + NatToString(m);
      |r| > 1 && r[0] == '-' && r[1..] == NatToString(m) && IsTrimmed(r) && ParseInt(r) == Some(0 - (m as int))
  {
    var ds := NatToString(m);
    ParseIntNegative(ds);
    MinusDigitsTrimmed(ds);
  }

  lemma MinusDigitsTrimmed(ds: string)
    requires ds != [] && IsDigits(ds)
    ensures var r := "-" + ds; |r| > 1 && r[0] == '-' && r[1..] == ds && IsTrimmed(r)
  {
    var r := "-" + ds;
    assert r[1..] == ds;
    assert r[|r| - 1] == ds[|ds| - 1];
  }

  /** After a leading minus sign, parseInt reads the digits that follow and negates them. */
  lemma ParseIntMinus(s: string)
    requires s != [] && s[0] == '-'
    ensures ParseInt(s) == match LeadingNumber(s[1..])
      case None => None
      case Some(v) => Some(0 - v)
  {
    assert TrimStart(s) == s;
  }

  lemma ParseIntNegative(ds: string)
    requires ds != [] && IsDigits(ds)
    ensures ParseInt("-" + ds) == Some(0 - DigitsValue(ds))
  {
    DigitPrefixOfAllDigits(ds);
    ParseIntMinus("-" + ds);
    assert ("-" + ds)[1..] == ds;
  }

  predicate OccursAt(s: string, t: string, i: nat) {
    i + |t| <= |s| && s[i..i + |t|] == t
  }

  /** String.prototype.includes */
  predicate Includes(s: string, t: string) {
    exists i :: 0 <= i <= |s| - |t| && OccursAt(s, t, i)
  }

  lemma IncludesSelf(s: string)
    ensures Includes(s, s)
  {
    assert OccursAt(s, s, 0);
  }

  lemma IncludesEmpty(s: string)
    ensures Includes(s, "")
  {
    assert OccursAt(s, "", 0);
  }

  /** A non-empty string whose first character does not occur in `s` is not in `s`. */
  lemma MissingNotIncluded(s: string, t: string)
    requires t != [] && t[0] !in s
    ensures !Includes(s, t)
  {
    forall i | 0 <= i <= |s| - |t|
      ensures !OccursAt(s, t, i)
    {
      assert s[i..i + |t|][0] == s[i] != t[0];
    }
  }

  /** Array.prototype.join with a one-character separator. */
  function Join(parts: seq<string>, sep: char): string
    requires |parts| > 0
  {
    if |parts| == 1 then parts[0] else parts[0] + [sep] + Join(parts[1..], sep)
  }

  /** String.prototype.split with a one-character separator: the pieces between
      separators, which joined back with the separator give the string again. */
  function Split(s: string, sep: char): (parts: seq<string>)
    ensures |parts| > 0
    ensures forall k :: 0 <= k < |parts| ==> sep !in parts[k]
    ensures Join(parts, sep) == s
  {
    if s == [] then [""]
    else
      var rest := Split(s[1..], sep);
      if s[0] == sep then
        assert s == "" + [sep] + Join(rest, sep);
        [""] + rest
      else
        var parts := [[s[0]] + rest[0]] + rest[1..];
        assert parts[1..] == rest[1..];
        parts
  }

  lemma {:induction false} SplitWithout(x: string, sep: char)
    requires sep !in x
    ensures Split(x, sep) == [x]
  {
    if x != [] {
      SplitWithout(x[1..], sep);
      assert [x[0]] + x[1..] == x;
    }
  }

  lemma {:induction false} SplitAt(x: string, sep: char, y: string)
    requires sep !in x
    ensures Split(x + [sep] + y, sep) == [x] + Split(y, sep)
  {
    if x == [] {
      assert (x + [sep] + y)[1..] == y;
    } else {
      assert (x + [sep] + y)[1..] == x[1..] + [sep] + y;
      SplitAt(x[1..], sep, y);
      assert [x[0]] + x[1..] == x;
    }
  }
}
