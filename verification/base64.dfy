/**
 * The browser's `atob`: the forgiving-base64 decoder of the WHATWG Infra
 * standard over the alphabet of section 4 of RFC 4648, returning a binary
 * string (one character per byte). `Encode` is the padded RFC 4648 encoder;
 * it stands beside the decoder as its inverse.
 */
module Base64 {
  import opened Wrappers
  import opened Sequences

  type Byte = b: int | 0 <= b < 256
  type Sextet = v: int | 0 <= v < 64

  /** The 64 characters of section 4 of RFC 4648 (no padding, no `-`/`_`). */
  predicate IsBase64Char(c: char)
  {
    'A' <= c <= 'Z' || 'a' <= c <= 'z' || '0' <= c <= '9' || c == '+' || c == '/'
  }

  predicate AllBase64(s: string)
  {
    forall i :: 0 <= i < |s| ==> IsBase64Char(s[i])
  }

  function SextetOf(c: char): Sextet
    requires IsBase64Char(c)
  {
    if 'A' <= c <= 'Z' then c as int - 'A' as int
    else if 'a' <= c <= 'z' then c as int - 'a' as int + 26
    else if '0' <= c <= '9' then c as int - '0' as int + 52
    else if c == '+' then 62
    else 63
  }

  function CharOf(v: Sextet): (c: char)
    ensures IsBase64Char(c) && SextetOf(c) == v
  {
    if v < 26 then ('A' as int + v) as char
    else if v < 52 then ('a' as int + v - 26) as char
    else if v < 62 then ('0' as int + v - 52) as char
    else if v == 62 then '+'
    else '/'
  }

  /** ASCII whitespace in the sense of the Infra standard. */
  predicate IsAsciiWhitespace(c: char)
  {
    c == '\t' || c == '\n' || c == '\U{C}' || c == '\r' || c == ' '
  }

  /** Step 1 of forgiving-base64: every ASCII whitespace character removed,
      the others kept in their order. */
  function RemoveAsciiWhitespace(s: string): (r: string)
    ensures forall i :: 0 <= i < |r| ==> !IsAsciiWhitespace(r[i])
    ensures (forall i :: 0 <= i < |s| ==> !IsAsciiWhitespace(s[i])) ==> r == s
    ensures IsSubsequence(r, s)
    ensures forall c {:trigger multiset(s)[c]} :: !IsAsciiWhitespace(c) ==> multiset(r)[c] == multiset(s)[c]
  {
    if s == [] then []
    else
      var rest := RemoveAsciiWhitespace(s[1..]);
      assert s == [s[0]] + s[1..];
      if IsAsciiWhitespace(s[0]) then
        SkipHead(rest, s);
        rest
      else
        assert (forall i :: 0 <= i < |s| ==> !IsAsciiWhitespace(s[i])) ==>
               (forall i :: 0 <= i < |s| - 1 ==> !IsAsciiWhitespace(s[1..][i]));
        assert ([s[0]] + rest)[1..] == rest;
        [s[0]] + rest
  }

  /** Step 2 of forgiving-base64: when the length is a multiple of four, one
      or two trailing `=` are dropped; otherwise nothing is. */
  function StripPadding(d: string): (r: string)
    ensures |r| <= |d| && r == d[..|r|]
    ensures forall i :: |r| <= i < |d| ==> d[i] == '='
    ensures |d| % 4 != 0 ==> r == d
    ensures |d| - |r| <= 2
    ensures |d| % 4 == 0 && |d| >= 1 && d[|d| - 1] == '=' ==> |r| < |d|
    ensures |d| % 4 == 0 && |d| >= 2 && d[|d| - 2] == '=' && d[|d| - 1] == '=' ==> |r| == |d| - 2
  {
    if |d| % 4 == 0 && |d| >= 2 && d[|d| - 1] == '=' && d[|d| - 2] == '=' then d[..|d| - 2]
    else if |d| % 4 == 0 && |d| >= 1 && d[|d| - 1] == '=' then d[..|d| - 1]
    else d
  }

  /** Three bytes from a full group of four characters. */
  function DecodeQuad(c0: char, c1: char, c2: char, c3: char): seq<Byte>
    requires IsBase64Char(c0) && IsBase64Char(c1) && IsBase64Char(c2) && IsBase64Char(c3)
  {
    var v0, v1, v2, v3 := SextetOf(c0), SextetOf(c1), SextetOf(c2), SextetOf(c3);
    [v0 * 4 + v1 / 16, (v1 % 16) * 16 + v2 / 4, (v2 % 4) * 64 + v3]
  }

  /** The bit-buffer loop of forgiving-base64: each full group of four
      characters gives three bytes; a final group of two gives one byte and a
      final group of three gives two (the leftover low bits are discarded). */
  function DecodeChars(d: string): (r: seq<Byte>)
    requires AllBase64(d) && |d| % 4 != 1
    ensures |r| == |d| / 4 * 3 + (if |d| % 4 == 0 then 0 else |d| % 4 - 1)
    decreases |d|
  {
    if |d| == 0 then []
    else if |d| == 2 then
      [SextetOf(d[0]) * 4 + SextetOf(d[1]) / 16]
    else if |d| == 3 then
      [SextetOf(d[0]) * 4 + SextetOf(d[1]) / 16, (SextetOf(d[1]) % 16) * 16 + SextetOf(d[2]) / 4]
    else
      DecodeQuad(d[0], d[1], d[2], d[3]) + DecodeChars(d[4..])
  }

  /** forgiving-base64 decode: None is the `InvalidCharacterError` that
      `atob` throws. */
  function ForgivingDecode(s: string): Option<seq<Byte>>
  {
    var d := StripPadding(RemoveAsciiWhitespace(s));
    if |d| % 4 == 1 || !AllBase64(d) then None else Some(DecodeChars(d))
  }

  /** A byte sequence as a binary string, one character per byte. */
  function Latin1(bytes: seq<Byte>): (s: string)
    ensures |s| == |bytes| && forall i :: 0 <= i < |s| ==> s[i] as int < 256
  {
    seq(|bytes|, i requires 0 <= i < |bytes| => bytes[i] as char)
  }

  /** `atob(s)`: None when it throws. */
  function Atob(s: string): Option<string>
  {
    match ForgivingDecode(s)
    case None => None
    case Some(bytes) => Some(Latin1(bytes))
  }

  /** A character outside the alphabet, `=` and ASCII whitespace makes `atob`
      throw, wherever it stands; `_` and `-` (base64url) are such characters. */
  lemma AtobRejects(s: string, k: nat)
    requires k < |s| && !IsBase64Char(s[k]) && s[k] != '=' && !IsAsciiWhitespace(s[k])
    ensures Atob(s) == None
  {
    var j := KeptAt(s, k);
    var d := StripPadding(RemoveAsciiWhitespace(s));
    assert j < |d| && d[j] == s[k];
  }

  /** A character that is not ASCII whitespace survives the first step. */
  lemma {:induction false} KeptAt(s: string, k: nat) returns (j: nat)
    requires k < |s| && !IsAsciiWhitespace(s[k])
    ensures j < |RemoveAsciiWhitespace(s)| && RemoveAsciiWhitespace(s)[j] == s[k]
  {
    if k == 0 {
      j := 0;
    } else {
      var j' := KeptAt(s[1..], k - 1);
      j := if IsAsciiWhitespace(s[0]) then j' else j' + 1;
    }
  }

  // -------------------------------------------------------------------------
  // The encoder, used as the decoder's inverse

  /** Four characters for three bytes. */
  function EncodeTriple(b0: Byte, b1: Byte, b2: Byte): (r: string)
    ensures |r| == 4 && AllBase64(r)
  {
    [CharOf(b0 / 4), CharOf((b0 % 4) * 16 + b1 / 16), CharOf((b1 % 16) * 4 + b2 / 64), CharOf(b2 % 64)]
  }

  /** The number of characters `EncodeUnpadded` produces for `n` bytes. */
  function EncodedLength(n: nat): nat
  {
    if n == 0 then 0 else if n == 1 then 2 else if n == 2 then 3 else 4 + EncodedLength(n - 3)
  }

  /** Four characters per full group of three bytes, and two or three for a
      final group of one or two. */
  lemma {:induction false} EncodedLengthMod(n: nat)
    ensures EncodedLength(n) % 4 == (if n % 3 == 0 then 0 else n % 3 + 1)
    ensures EncodedLength(n) == 0 <==> n == 0
    ensures (EncodedLength(n) + |Padding(n)|) % 4 == 0
  {
    if n >= 3 {
      EncodedLengthMod(n - 3);
      var k := EncodedLength(n - 3);
      assert EncodedLength(n) == k + 4;
      assert (k + 4) % 4 == k % 4;
      assert n % 3 == (n - 3) % 3 && Padding(n) == Padding(n - 3);
      assert (k + 4 + |Padding(n)|) % 4 == (k + |Padding(n)|) % 4;
    }
  }

  /** The base64 characters of `b` without padding. */
  function EncodeUnpadded(b: seq<Byte>): (r: string)
    ensures AllBase64(r) && |r| == EncodedLength(|b|)
    ensures |r| % 4 == (if |b| % 3 == 0 then 0 else |b| % 3 + 1)
    ensures |r| == 0 <==> |b| == 0
    ensures (|r| + |Padding(|b|)|) % 4 == 0
  {
    EncodedLengthMod(|b|);
    if |b| == 0 then ""
    else if |b| == 1 then [CharOf(b[0] / 4), CharOf((b[0] % 4) * 16)]
    else if |b| == 2 then [CharOf(b[0] / 4), CharOf((b[0] % 4) * 16 + b[1] / 16), CharOf((b[1] % 16) * 4)]
    else EncodeTriple(b[0], b[1], b[2]) + EncodeUnpadded(b[3..])
  }

  /** The `=` characters that complete the last group of four. */
  function Padding(n: nat): string
  {
    if n % 3 == 1 then "==" else if n % 3 == 2 then "=" else ""
  }

  /** Padded base64 (what `btoa` produces for a binary string). */
  function Encode(b: seq<Byte>): (r: string)
    ensures |r| % 4 == 0
  {
    EncodeUnpadded(b) + Padding(|b|)
  }

  lemma TripleBits(b0: Byte, b1: Byte, b2: Byte)
    ensures (b0 / 4) * 4 + ((b0 % 4) * 16 + b1 / 16) / 16 == b0
    ensures (((b0 % 4) * 16 + b1 / 16) % 16) * 16 + ((b1 % 16) * 4 + b2 / 64) / 4 == b1
    ensures (((b1 % 16) * 4 + b2 / 64) % 4) * 64 + b2 % 64 == b2
  {
    var hi1, lo1 := b1 / 16, b1 % 16;
    var hi2, lo2 := b2 / 64, b2 % 64;
    assert 0 <= hi1 < 16 && 0 <= hi2 < 4;
    assert ((b0 % 4) * 16 + hi1) / 16 == b0 % 4;
    assert ((b0 % 4) * 16 + hi1) % 16 == hi1;
    assert (lo1 * 4 + hi2) / 4 == lo1;
    assert (lo1 * 4 + hi2) % 4 == hi2;
  }

  lemma {:induction false} DecodeEncodeUnpadded(b: seq<Byte>)
    ensures DecodeChars(EncodeUnpadded(b)) == b
    decreases |b|
  {
    if |b| >= 3 {
      DecodeEncodeUnpadded(b[3..]);
      DecodeEncodeStep(b);
    } else {
      DecodeEncodeShort(b);
    }
  }

  lemma DecodeEncodeShort(b: seq<Byte>)
    requires |b| < 3
    ensures DecodeChars(EncodeUnpadded(b)) == b
  {
    if |b| == 1 {
      DecodeEncodeOne(b);
    } else if |b| == 2 {
      DecodeEncodeTwo(b);
    } else {
      assert EncodeUnpadded(b) == [];
    }
  }

  lemma DecodeEncodeOne(b: seq<Byte>)
    requires |b| == 1
    ensures DecodeChars(EncodeUnpadded(b)) == b
  {
    assert EncodeUnpadded(b) == [CharOf(b[0] / 4), CharOf((b[0] % 4) * 16)];
    DecodeOne(b[0]);
    assert b == [b[0]];
  }

  lemma DecodeEncodeTwo(b: seq<Byte>)
    requires |b| == 2
    ensures DecodeChars(EncodeUnpadded(b)) == b
  {
    var b0, b1 := b[0], b[1];
    EncodeTwo(b);
    DecodeTwo(b0, b1);
    assert b == [b0, b1];
  }

  lemma EncodeTwo(b: seq<Byte>)
    requires |b| == 2
    ensures EncodeUnpadded(b) == [CharOf(b[0] / 4), CharOf((b[0] % 4) * 16 + b[1] / 16), CharOf((b[1] % 16) * 4)]
  {
  }

  lemma DecodeEncodeStep(b: seq<Byte>)
    requires |b| >= 3 && DecodeChars(EncodeUnpadded(b[3..])) == b[3..]
    ensures DecodeChars(EncodeUnpadded(b)) == b
  {
    var t := EncodeTriple(b[0], b[1], b[2]);
    var rest := EncodeUnpadded(b[3..]);
    assert EncodeUnpadded(b) == t + rest;
    DecodeTriple(b[0], b[1], b[2]);
    DecodeCharsQuad(t, rest);
    SplitThree(b);
  }

  lemma SplitThree(b: seq<Byte>)
    requires |b| >= 3
    ensures b == [b[0], b[1], b[2]] + b[3..]
  {
  }

  lemma DecodeOne(b0: Byte)
    ensures DecodeChars([CharOf(b0 / 4), CharOf((b0 % 4) * 16)]) == [b0]
  {
    TripleBits(b0, 0, 0);
  }

  lemma DecodeTwo(b0: Byte, b1: Byte)
    ensures DecodeChars([CharOf(b0 / 4), CharOf((b0 % 4) * 16 + b1 / 16), CharOf((b1 % 16) * 4)]) == [b0, b1]
  {
    TripleBits(b0, b1, 0);
  }

  lemma DecodeTriple(b0: Byte, b1: Byte, b2: Byte)
    ensures var t := EncodeTriple(b0, b1, b2); DecodeQuad(t[0], t[1], t[2], t[3]) == [b0, b1, b2]
  {
    TripleBits(b0, b1, b2);
  }

  /** A full group at the front decodes on its own. */
  lemma DecodeCharsQuad(t: string, rest: string)
    requires |t| == 4 && AllBase64(t) && AllBase64(rest) && |rest| % 4 != 1
    ensures AllBase64(t + rest) && |t + rest| % 4 != 1
    ensures DecodeChars(t + rest) == DecodeQuad(t[0], t[1], t[2], t[3]) + DecodeChars(rest)
  {
    var d := t + rest;
    assert d[4..] == rest;
  }

  /** `atob` undoes padded base64 encoding: forgiving-base64 decodes every
      string `Encode` produces back to the bytes it came from. */
  lemma DecodeEncode(b: seq<Byte>)
    ensures ForgivingDecode(Encode(b)) == Some(b)
  {
    var u := EncodeUnpadded(b);
    EncodeChars(b);
    NoAsciiWhitespace(Encode(b));
    StripPad(u, Padding(|b|));
    DecodeEncodeUnpadded(b);
  }

  lemma NoAsciiWhitespace(e: string)
    requires forall i :: 0 <= i < |e| ==> IsBase64Char(e[i]) || e[i] == '='
    ensures RemoveAsciiWhitespace(e) == e
  {
  }

  /** Step 2 of forgiving-base64 removes exactly the padding `Encode` adds. */
  lemma StripPad(u: string, pad: string)
    requires AllBase64(u)
    requires (|u| % 4 == 0 && pad == "") || (|u| % 4 == 2 && pad == "==") || (|u| % 4 == 3 && pad == "=")
    ensures StripPadding(u + pad) == u
  {
    var d := u + pad;
    if pad == "" {
      assert d == u;
      assert |u| > 0 ==> IsBase64Char(u[|u| - 1]);
    } else if pad == "==" {
      assert d[|d| - 1] == '=' && d[|d| - 2] == '=' && d[..|d| - 2] == u;
    } else {
      assert d[|d| - 1] == '=' && d[|d| - 2] == u[|u| - 1] && d[..|d| - 1] == u;
    }
  }

  /** The binary-string form: `atob` returns the string that was encoded,
      provided every character of it fits in one byte. */
  lemma AtobEncode(j: string)
    requires forall i :: 0 <= i < |j| ==> j[i] as int < 256
    ensures Atob(Encode(Bytes(j))) == Some(j)
  {
    DecodeEncode(Bytes(j));
  }

  /** The bytes of a binary string. */
  function Bytes(j: string): (b: seq<Byte>)
    requires forall i :: 0 <= i < |j| ==> j[i] as int < 256
    ensures |b| == |j| && Latin1(b) == j
  {
    var b := seq(|j|, i requires 0 <= i < |j| => j[i] as int);
    assert Latin1(b) == j by {
      forall i | 0 <= i < |j| ensures Latin1(b)[i] == j[i] {
        assert (j[i] as int) as char == j[i];
      }
    }
    b
  }

  /** A binary string and its bytes determine each other: reading the bytes
      back from `Latin1(b)` gives `b`. */
  lemma Latin1Bytes(b: seq<Byte>)
    ensures Bytes(Latin1(b)) == b
  {
    var j := Latin1(b);
    forall i | 0 <= i < |b| ensures Bytes(j)[i] == b[i] {
      assert j[i] == b[i] as char;
    }
  }

  /** Every character of an encoding is in the alphabet or is padding, and
      only the empty input encodes to the empty string. */
  lemma EncodeChars(b: seq<Byte>)
    ensures |Encode(b)| == 0 <==> |b| == 0
    ensures forall i :: 0 <= i < |Encode(b)| ==> IsBase64Char(Encode(b)[i]) || Encode(b)[i] == '='
  {
  }
}
