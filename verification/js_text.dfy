/**
 * The JavaScript string built-ins the location code relies on, as functions
 * on `seq<char>`: `trim`, the `\s` character class, `toLowerCase`,
 * `split` on one character, `join`, and `parseInt(_, 10)`.
 */
module JsText {
  import opened Wrappers
  import opened Sequences

  /** ECMAScript WhiteSpace and LineTerminator code points: what `trim()`
      removes, what `\s` matches and what `parseInt` skips. */
  predicate IsJsWhitespace(c: char)
  {
    c == '\t' || c == '\n' || c == '\U{B}' || c == '\U{C}' || c == '\r' || c == ' '
    || c == '\U{A0}' || c == '\U{1680}' || ('\U{2000}' <= c <= '\U{200A}')
    || c == '\U{2028}' || c == '\U{2029}' || c == '\U{202F}' || c == '\U{205F}'
    || c == '\U{3000}' || c == '\U{FEFF}'
  }

  predicate NoWhitespace(s: string)
  {
    forall i :: 0 <= i < |s| ==> !IsJsWhitespace(s[i])
  }

  predicate IsAsciiDigit(c: char)
  {
    '0' <= c <= '9'
  }

  predicate IsAsciiUpper(c: char)
  {
    'A' <= c <= 'Z'
  }

  function LowerChar(c: char): char
  {
    if IsAsciiUpper(c) then (c as int + 32) as char else c
  }

  /** `s.toLowerCase()`, restricted to the ASCII letters. */
  function Lower(s: string): (r: string)
    ensures |r| == |s|
    ensures forall i :: 0 <= i < |s| ==> r[i] == LowerChar(s[i])
    ensures forall i :: 0 <= i < |r| ==> !IsAsciiUpper(r[i])
  {
    if s == [] then [] else [LowerChar(s[0])] + Lower(s[1..])
  }

  predicate IsLower(s: string)
  {
    forall i :: 0 <= i < |s| ==> !IsAsciiUpper(s[i])
  }

  /** Lowering leaves an already lower-case string alone, so it is idempotent. */
  lemma LowerOfLower(s: string)
    requires IsLower(s)
    ensures Lower(s) == s
  {
  }

  lemma LowerAppend(a: string, b: string)
    ensures Lower(a + b) == Lower(a) + Lower(b)
  {
  }

  /** `s.replace(/\s*\/g, '')`: every whitespace code point removed. */
  function RemoveWhitespace(s: string): (r: string)
    ensures |r| <= |s|
    ensures NoWhitespace(r)
    ensures NoWhitespace(s) ==> r == s
    ensures IsSubsequence(r, s)
    ensures forall c {:trigger multiset(s)[c]} :: !IsJsWhitespace(c) ==> multiset(r)[c] == multiset(s)[c]
  {
    if s == [] then []
    else
      var rest := RemoveWhitespace(s[1..]);
      assert s == [s[0]] + s[1..];
      if IsJsWhitespace(s[0]) then
        SkipHead(rest, s);
        rest
      else
        assert NoWhitespace(s) ==> NoWhitespace(s[1..]);
        assert ([s[0]] + rest)[1..] == rest;
        [s[0]] + rest
  }

  lemma {:induction false} RemoveWhitespaceAppend(a: string, b: string)
    ensures RemoveWhitespace(a + b) == RemoveWhitespace(a) + RemoveWhitespace(b)
  {
    if a != [] {
      assert (a + b)[0] == a[0];
      assert (a + b)[1..] == a[1..] + b;
      RemoveWhitespaceAppend(a[1..], b);
      if !IsJsWhitespace(a[0]) {
        assert RemoveWhitespace(a + b) == [a[0]] + (RemoveWhitespace(a[1..]) + RemoveWhitespace(b));
      }
    } else {
      assert a + b == b;
    }
  }

  /** `s.trimStart()`: the suffix left after the leading whitespace run. */
  function TrimStart(s: string): (r: string)
    ensures |r| <= |s| && r == s[|s| - |r|..]
    ensures r == [] || !IsJsWhitespace(r[0])
    ensures forall i :: 0 <= i < |s| - |r| ==> IsJsWhitespace(s[i])
  {
    if s != [] && IsJsWhitespace(s[0]) then TrimStart(s[1..]) else s
  }

  /** `s.trimEnd()`: the prefix left before the trailing whitespace run. */
  function TrimEnd(s: string): (r: string)
    ensures |r| <= |s| && r == s[..|r|]
    ensures r == [] || !IsJsWhitespace(r[|r| - 1])
    ensures forall i :: |r| <= i < |s| ==> IsJsWhitespace(s[i])
  {
    if s != [] && IsJsWhitespace(s[|s| - 1]) then TrimEnd(s[..|s| - 1]) else s
  }

  /** `s.trim()`: both whitespace runs removed. */
  function Trim(s: string): (r: string)
    ensures |r| <= |s|
    ensures r == [] || (!IsJsWhitespace(r[0]) && !IsJsWhitespace(r[|r| - 1]))
  {
    TrimEnd(TrimStart(s))
  }

  /** What `trim()` keeps is the slice of `s` that starts after the leading
      whitespace run (which `TrimStart` removes) and stops before the
      trailing one (which `TrimEnd` removes). */
  lemma TrimIsSlice(s: string)
    ensures |s| - |TrimStart(s)| + |Trim(s)| <= |s|
    ensures Trim(s) == s[|s| - |TrimStart(s)|..|s| - |TrimStart(s)| + |Trim(s)|]
  {
    var t := TrimStart(s);
    SliceOfSlice(s, |s| - |t|, |TrimEnd(t)|);
  }

  lemma SliceOfSlice(s: string, k: nat, m: nat)
    requires k + m <= |s|
    ensures s[k..][..m] == s[k..k + m]
  {
  }

  /** Trimming a string that neither starts nor ends with whitespace changes
      nothing. */
  lemma TrimOfTrimmed(x: string)
    requires x == [] || (!IsJsWhitespace(x[0]) && !IsJsWhitespace(x[|x| - 1]))
    ensures Trim(x) == x
  {
  }

  lemma {:induction false} TrimStartOfWhitespace(ws: string, x: string)
    requires forall i :: 0 <= i < |ws| ==> IsJsWhitespace(ws[i])
    requires x == [] || !IsJsWhitespace(x[0])
    ensures TrimStart(ws + x) == x
  {
    if ws != [] {
      var s := ws + x;
      assert s[0] == ws[0] && IsJsWhitespace(s[0]);
      assert s[1..] == ws[1..] + x;
      TrimStartOfWhitespace(ws[1..], x);
      assert TrimStart(s) == TrimStart(s[1..]);
    } else {
      assert ws + x == x;
    }
  }

  lemma TrimEndOfNonBlank(s: string)
    requires s != [] && !IsJsWhitespace(s[|s| - 1])
    ensures TrimEnd(s) == s
  {
  }

  /** Leading whitespace is all taken from the front: appending a string that
      does not start with whitespace commutes with `trimStart`. */
  lemma {:induction false} TrimStartAppend(a: string, b: string)
    requires b == [] || !IsJsWhitespace(b[0])
    ensures TrimStart(a + b) == TrimStart(a) + b
  {
    if a != [] {
      var s := a + b;
      assert s[0] == a[0] && s[1..] == a[1..] + b;
      TrimStartAppend(a[1..], b);
    } else {
      assert a + b == b;
    }
  }

  /** Trimming `a + b`, where `b` neither starts nor ends with whitespace,
      only trims the front of `a`. */
  lemma TrimAppendNonBlank(a: string, b: string)
    requires b != [] && !IsJsWhitespace(b[0]) && !IsJsWhitespace(b[|b| - 1])
    ensures Trim(a + b) == TrimStart(a) + b
  {
    TrimStartAppend(a, b);
    TrimEndAppendNonBlank(TrimStart(a), b);
  }

  /** Trailing whitespace is all taken from the back. */
  lemma TrimEndAppendNonBlank(t: string, b: string)
    requires b != [] && !IsJsWhitespace(b[|b| - 1])
    ensures TrimEnd(t + b) == t + b
  {
    var u := t + b;
    assert u[|u| - 1] == b[|b| - 1];
    TrimEndOfNonBlank(u);
  }

  /** `ts.join(sep)`. */
  function Join(ts: seq<string>, sep: string): string
  {
    if |ts| == 0 then ""
    else if |ts| == 1 then ts[0]
    else ts[0] + sep + Join(ts[1..], sep)
  }

  /** `s.split(c)` for a one-character separator: never empty, no piece holds
      the separator, and joining the pieces again gives back `s`. */
  function Split(s: string, c: char): (r: seq<string>)
    ensures |r| >= 1
    ensures forall i :: 0 <= i < |r| ==> c !in r[i]
    ensures Join(r, [c]) == s
  {
    if |s| == 0 then [""]
    else if s[0] == c then
      var rest := Split(s[1..], c);
      assert ([""] + rest)[1..] == rest;
      [""] + rest
    else
      var rest := Split(s[1..], c);
      var r := [[s[0]] + rest[0]] + rest[1..];
      assert r[1..] == rest[1..];
      r
  }

  /** Every character of every piece is a character of the split string. */
  lemma {:induction false} SplitChars(s: string, c: char)
    ensures forall i, k :: 0 <= i < |Split(s, c)| && 0 <= k < |Split(s, c)[i]| ==> Split(s, c)[i][k] in s
  {
    if |s| > 0 {
      SplitChars(s[1..], c);
      var rest := Split(s[1..], c);
      forall i, k | 0 <= i < |Split(s, c)| && 0 <= k < |Split(s, c)[i]| ensures Split(s, c)[i][k] in s {
        var x := Split(s, c)[i][k];
        if s[0] == c {
          assert Split(s, c)[i] == ([""] + rest)[i];
          assert i >= 1 && x == rest[i - 1][k];
        } else if i == 0 && k == 0 {
          assert x == s[0];
        } else if i == 0 {
          assert x == rest[0][k - 1];
        } else {
          assert x == rest[i][k];
        }
        assert x in s[1..] || x == s[0];
      }
    }
  }

  lemma {:induction false} SplitPiece(t: string, rest: string, c: char)
    requires c !in t
    ensures Split(t + rest, c) == [t + Split(rest, c)[0]] + Split(rest, c)[1..]
  {
    if t != [] {
      assert (t + rest)[1..] == t[1..] + rest;
      SplitPiece(t[1..], rest, c);
      assert [t[0]] + (t[1..] + Split(rest, c)[0]) == t + Split(rest, c)[0];
    } else {
      assert t + rest == rest;
      assert t + Split(rest, c)[0] == Split(rest, c)[0];
      assert [t + Split(rest, c)[0]] + Split(rest, c)[1..] == Split(rest, c);
    }
  }

  /** Splitting undoes joining when no piece holds the separator. */
  lemma {:induction false} SplitJoin(ts: seq<string>, c: char)
    requires |ts| >= 1
    requires forall i :: 0 <= i < |ts| ==> c !in ts[i]
    ensures Split(Join(ts, [c]), c) == ts
  {
    if |ts| == 1 {
      SplitPiece(ts[0], "", c);
      assert ts[0] + "" == ts[0];
    } else {
      var tail := Join(ts[1..], [c]);
      SplitJoin(ts[1..], c);
      assert ts[0] + [c] + tail == ts[0] + ([c] + tail);
      SplitPiece(ts[0], [c] + tail, c);
      assert ([c] + tail)[1..] == tail;
      assert Split([c] + tail, c) == [""] + ts[1..];
      assert ts[0] + "" == ts[0];
    }
  }

  lemma {:induction false} RemoveWhitespaceJoin(ts: seq<string>, sep: string)
    ensures RemoveWhitespace(Join(ts, sep)) == Join(seq(|ts|, i requires 0 <= i < |ts| => RemoveWhitespace(ts[i])), RemoveWhitespace(sep))
  {
    if |ts| > 1 {
      var m := seq(|ts|, i requires 0 <= i < |ts| => RemoveWhitespace(ts[i]));
      var rs := RemoveWhitespace(sep);
      RemoveWhitespaceJoin(ts[1..], sep);
      assert m[1..] == seq(|ts| - 1, i requires 0 <= i < |ts| - 1 => RemoveWhitespace(ts[1..][i]));
      RemoveWhitespaceAppend(ts[0] + sep, Join(ts[1..], sep));
      RemoveWhitespaceAppend(ts[0], sep);
      assert RemoveWhitespace(Join(ts, sep)) == m[0] + rs + Join(m[1..], rs);
    }
  }

  lemma {:induction false} LowerJoin(ts: seq<string>, sep: string)
    requires IsLower(sep)
    requires forall i :: 0 <= i < |ts| ==> IsLower(ts[i])
    ensures Lower(Join(ts, sep)) == Join(ts, sep)
  {
    if |ts| > 1 {
      LowerJoin(ts[1..], sep);
      LowerAppend(ts[0] + sep, Join(ts[1..], sep));
      LowerAppend(ts[0], sep);
      LowerOfLower(ts[0]);
      LowerOfLower(sep);
    } else if |ts| == 1 {
      LowerOfLower(ts[0]);
    }
  }

  /** Lower-case pieces joined with a lower-case separator are lower case. */
  lemma {:induction false} JoinIsLower(ts: seq<string>, sep: string)
    requires IsLower(sep)
    requires forall i :: 0 <= i < |ts| ==> IsLower(ts[i])
    ensures IsLower(Join(ts, sep))
  {
    if |ts| > 1 {
      JoinIsLower(ts[1..], sep);
      var rest := Join(ts[1..], sep);
      var all := ts[0] + sep + rest;
      forall k | 0 <= k < |all| ensures !IsAsciiUpper(all[k]) {
        if k < |ts[0]| {
          assert all[k] == ts[0][k];
        } else if k < |ts[0]| + |sep| {
          assert all[k] == sep[k - |ts[0]|];
        } else {
          assert all[k] == rest[k - |ts[0]| - |sep|];
        }
      }
    }
  }

  // ---------------------------------------------------------------------
  // parseInt(s, 10)

  function DigitValue(c: char): int
    requires IsAsciiDigit(c)
  {
    c as int - '0' as int
  }

  function DigitChar(d: int): (c: char)
    requires 0 <= d < 10
    ensures IsAsciiDigit(c) && DigitValue(c) == d
  {
    ('0' as int + d) as char
  }

  predicate AllDigits(d: string)
  {
    forall i :: 0 <= i < |d| ==> IsAsciiDigit(d[i])
  }

  /** The value of a run of decimal digits, most significant first. */
  function DigitsValue(d: string): (n: nat)
    requires AllDigits(d)
  {
    if d == [] then 0 else DigitsValue(d[..|d| - 1]) * 10 + DigitValue(d[|d| - 1])
  }

  /** The longest prefix of `s` made of ASCII digits. */
  function DigitPrefix(s: string): (d: string)
    ensures AllDigits(d) && |d| <= |s| && d == s[..|d|]
    ensures |d| == |s| || !IsAsciiDigit(s[|d|])
  {
    if s == [] || !IsAsciiDigit(s[0]) then [] else [s[0]] + DigitPrefix(s[1..])
  }

  /** `parseInt(s, 10)`: skip leading whitespace, then read a signed run of
      digits. */
  function ParseInt(s: string): Option<int>
  {
    ParseSigned(TrimStart(s))
  }

  /** An optional sign, then the longest run of decimal digits; no digit at
      all gives `NaN` (None). */
  function ParseSigned(t: string): Option<int>
  {
    var negative := t != [] && t[0] == '-';
    var u := if t != [] && (t[0] == '-' || t[0] == '+') then t[1..] else t;
    var d := DigitPrefix(u);
    var v: int := DigitsValue(d);
    if d == [] then None else Some(if negative then -v else v)
  }

  /** The decimal digits of a natural number, without leading zeros. */
  function Decimal(n: nat): (d: string)
    ensures d != [] && AllDigits(d)
  {
    if n < 10 then [DigitChar(n)] else Decimal(n / 10) + [DigitChar(n % 10)]
  }

  lemma {:induction false} DecimalValue(n: nat)
    ensures DigitsValue(Decimal(n)) == n
  {
    if n >= 10 {
      DecimalValue(n / 10);
      var d := Decimal(n);
      assert d[..|d| - 1] == Decimal(n / 10);
    }
  }

  lemma {:induction false} DigitPrefixOf(d: string, tail: string)
    requires AllDigits(d)
    requires tail == [] || !IsAsciiDigit(tail[0])
    ensures DigitPrefix(d + tail) == d
  {
    if d != [] {
      assert (d + tail)[1..] == d[1..] + tail;
      DigitPrefixOf(d[1..], tail);
    } else {
      assert d + tail == tail;
    }
  }

  /** An integer written in decimal, with a leading `-` when negative. */
  function SignedDecimal(n: int): (d: string)
    ensures d != [] && (IsAsciiDigit(d[0]) || d[0] == '-')
  {
    if n < 0 then "-" + Decimal(-n) else Decimal(n)
  }

  lemma ParseUnsigned(d: string, tail: string)
    requires AllDigits(d) && d != []
    requires tail == [] || !IsAsciiDigit(tail[0])
    ensures ParseSigned(d + tail) == Some(DigitsValue(d))
  {
    assert (d + tail)[0] == d[0];
    DigitPrefixOf(d, tail);
  }

  lemma ParseNegative(d: string, tail: string)
    requires AllDigits(d) && d != []
    requires tail == [] || !IsAsciiDigit(tail[0])
    ensures ParseSigned(['-'] + (d + tail)) == Some(0 - DigitsValue(d))
  {
    var t := ['-'] + (d + tail);
    assert t[0] == '-' && t[1..] == d + tail;
    DigitPrefixOf(d, tail);
    ParseMinus(t);
  }

  lemma ParseMinus(t: string)
    requires t != [] && t[0] == '-' && DigitPrefix(t[1..]) != []
    ensures ParseSigned(t) == Some(0 - DigitsValue(DigitPrefix(t[1..])))
  {
  }

  lemma ParseSignedDecimal(n: int, tail: string)
    requires tail == [] || !IsAsciiDigit(tail[0])
    ensures ParseSigned(SignedDecimal(n) + tail) == Some(n)
  {
    if n < 0 {
      var d := Decimal(-n);
      assert SignedDecimal(n) + tail == ['-'] + (d + tail);
      ParseNegative(d, tail);
      DecimalValue(-n);
      assert 0 - DigitsValue(d) == n;
    } else {
      var d := Decimal(n);
      assert SignedDecimal(n) + tail == d + tail;
      ParseUnsigned(d, tail);
      DecimalValue(n);
    }
  }

  /** `parseInt` reads back an integer written in decimal, whatever
      whitespace precedes it and whatever non-digit text follows it. */
  lemma ParseIntDecimal(ws: string, n: int, tail: string)
    requires forall i :: 0 <= i < |ws| ==> IsJsWhitespace(ws[i])
    requires tail == [] || !IsAsciiDigit(tail[0])
    ensures ParseInt(ws + SignedDecimal(n) + tail) == Some(n)
  {
    var body := SignedDecimal(n) + tail;
    assert ws + SignedDecimal(n) + tail == ws + body;
    TrimStartOfWhitespace(ws, body);
    ParseSignedDecimal(n, tail);
  }
}
