/** The browser's `btoa` and `atob`: base64 as defined in section 4 of
    RFC 4648 for encoding, and the WHATWG "forgiving-base64 decode" for
    decoding, which tolerates ASCII whitespace and missing padding and fails
    on anything else that is not in the alphabet. Byte strings are
    JavaScript "binary strings": one character per byte. */
module Base64 {
  import opened Wrappers

  type byte = x: int | 0 <= x < 256

  /** The character of a 6-bit value in the alphabet of RFC 4648, section 4. */
  function Letter(v: int): (c: char)
    requires 0 <= v < 64
    ensures IsBase64Char(c)
  {
    if v < 26 then ('A' as int + v) as char
    else if v < 52 then ('a' as int + v - 26) as char
    else if v < 62 then ('0' as int + v - 52) as char
    else if v == 62 then '+'
    else '/'
  }

  predicate IsBase64Char(c: char) {
    ('A' <= c <= 'Z') || ('a' <= c <= 'z') || ('0' <= c <= '9') || c == '+' || c == '/'
  }

  predicate AllBase64(s: string) {
    forall i :: 0 <= i < |s| ==> IsBase64Char(s[i])
  }

  /** The 6-bit value an alphabet character stands for; inverse of `Letter`. */
  function Sextet(c: char): (v: int)
    requires IsBase64Char(c)
    ensures 0 <= v < 64 && Letter(v) == c
  {
    if 'A' <= c <= 'Z' then c as int - 'A' as int
    else if 'a' <= c <= 'z' then c as int - 'a' as int + 26
    else if '0' <= c <= '9' then c as int - '0' as int + 52
    else if c == '+' then 62
    else 63
  }

  lemma SextetOfLetter(v: int)
    requires 0 <= v < 64
    ensures Sextet(Letter(v)) == v
  {
  }

  /** The base64 digits of `b`, without the `=` padding: four characters per
      three bytes, and two or three for a trailing group of one or two. */
  function Unpadded(b: seq<byte>): (r: string)
    ensures AllBase64(r)
    ensures |r| == (4 * |b| + 2) / 3
    ensures |r| % 4 != 1
    decreases |b|
  {
    DigitCount(|b|);
    if |b| >= 3 then
      var v := Cut(b[0], b[1], b[2]);
      [Letter(v.0), Letter(v.1), Letter(v.2), Letter(v.3)] + Unpadded(b[3..])
    else if |b| == 2 then
      var v := Cut(b[0], b[1], 0);
      [Letter(v.0), Letter(v.1), Letter(v.2)]
    else if |b| == 1 then
      var v := Cut(b[0], 0, 0);
      [Letter(v.0), Letter(v.1)]
    else []
  }

  /** Four digits per whole group of three bytes, and two or three for a
      trailing group of one or two: never one more than a multiple of four. */
  lemma DigitCount(n: nat)
    ensures (4 * n + 2) / 3 % 4 != 1
    ensures n >= 3 ==> (4 * n + 2) / 3 == 4 + (4 * (n - 3) + 2) / 3
  {
    var q, r := n / 3, n % 3;
    assert n == 3 * q + r;
    if r == 0 {
      assert (4 * n + 2) / 3 == 4 * q;
    } else if r == 1 {
      assert (4 * n + 2) / 3 == 4 * q + 2;
    } else {
      assert (4 * n + 2) / 3 == 4 * q + 3;
    }
  }

  /** The `=` characters that complete the last group to four. */
  function Padding(n: nat): (p: string)
    ensures |p| == (3 - n % 3) % 3 && |p| <= 2
    ensures forall i :: 0 <= i < |p| ==> p[i] == '='
  {
    if n % 3 == 1 then "==" else if n % 3 == 2 then "=" else ""
  }

  /** A string in the padded form of RFC 4648, section 4: alphabet
      characters followed by at most two `=`, in groups of four. */
  predicate IsPaddedBase64(s: string) {
    && |s| % 4 == 0
    && (|| AllBase64(s)
        || (|s| >= 1 && AllBase64(s[..|s| - 1]) && s[|s| - 1] == '=')
        || (|s| >= 2 && AllBase64(s[..|s| - 2]) && s[|s| - 2..] == "=="))
  }

  /** Base64 encoding with padding (RFC 4648, section 4). */
  function Encode(b: seq<byte>): (r: string)
    ensures IsPaddedBase64(r)
    ensures |r| == (|b| + 2) / 3 * 4
  {
    var u := Unpadded(b);
    var p := Padding(|b|);
    PaddedLength(|b|, |u|, |p|);
    PaddedForm(u, p);
    u + p
  }

  /** Digits for `n` bytes followed by their padding make whole groups of four. */
  lemma PaddedLength(n: nat, digits: nat, pad: nat)
    requires digits == (4 * n + 2) / 3 && pad == (3 - n % 3) % 3
    ensures digits + pad == (n + 2) / 3 * 4 && (digits + pad) % 4 == 0
  {
    var q, r := n / 3, n % 3;
    assert n == 3 * q + r;
    if r == 0 {
      assert (4 * n + 2) / 3 == 4 * q;
    } else if r == 1 {
      assert (4 * n + 2) / 3 == 4 * q + 2;
    } else {
      assert (4 * n + 2) / 3 == 4 * q + 3;
    }
  }

  lemma PaddedForm(u: string, p: string)
    requires AllBase64(u) && |p| <= 2 && forall i :: 0 <= i < |p| ==> p[i] == '='
    requires (|u| + |p|) % 4 == 0
    ensures IsPaddedBase64(u + p)
  {
    var r := u + p;
    if |p| == 0 {
      assert r == u;
    } else if |p| == 1 {
      assert r[..|r| - 1] == u;
    } else {
      assert r[..|r| - 2] == u;
      assert r[|r| - 2..] == "==";
    }
  }

  /** The ASCII whitespace forgiving-base64 decoding skips. */
  predicate IsAsciiWhitespace(c: char) {
    c == '\t' || c == '\n' || c == '\U{C}' || c == '\r' || c == ' '
  }

  function RemoveAsciiWhitespace(s: string): (r: string)
    ensures |r| <= |s|
    ensures forall i :: 0 <= i < |r| ==> !IsAsciiWhitespace(r[i])
    ensures (forall i :: 0 <= i < |s| ==> !IsAsciiWhitespace(s[i])) ==> r == s
    decreases |s|
  {
    if |s| == 0 then []
    else if IsAsciiWhitespace(s[0]) then RemoveAsciiWhitespace(s[1..])
    else [s[0]] + RemoveAsciiWhitespace(s[1..])
  }

  /** Drops one or two trailing `=` (applied only to lengths divisible by 4). */
  function StripPadding(s: string): (r: string)
    ensures |r| <= |s| && r == s[..|r|]
  {
    if |s| >= 2 && s[|s| - 2..] == "==" then s[..|s| - 2]
    else if |s| >= 1 && s[|s| - 1] == '=' then s[..|s| - 1]
    else s
  }

  /** The bytes carried by up to four 6-bit values: `n` values (2, 3 or 4)
      give `n - 1` bytes, and the spare low bits of the last value are
      discarded. */
  function GroupBytes(n: int, v0: int, v1: int, v2: int, v3: int): (r: seq<byte>)
    requires 2 <= n <= 4
    requires 0 <= v0 < 64 && 0 <= v1 < 64 && 0 <= v2 < 64 && 0 <= v3 < 64
    ensures |r| == n - 1
  {
    var b0, b1, b2 := v0 * 4 + v1 / 16, v1 % 16 * 16 + v2 / 4, v2 % 4 * 64 + v3;
    if n == 4 then [b0, b1, b2] else if n == 3 then [b0, b1] else [b0]
  }

  /** The bytes of a padding-free run of base64 digits whose length is not
      1 more than a multiple of 4; a trailing group of two or three digits
      gives one or two bytes. */
  function DecodeDigits(d: string): (r: seq<byte>)
    requires AllBase64(d) && |d| % 4 != 1
    ensures |r| == |d| * 3 / 4
    decreases |d|
  {
    if |d| >= 4 then
      GroupBytes(4, Sextet(d[0]), Sextet(d[1]), Sextet(d[2]), Sextet(d[3])) + DecodeDigits(d[4..])
    else if |d| == 3 then
      GroupBytes(3, Sextet(d[0]), Sextet(d[1]), Sextet(d[2]), 0)
    else if |d| == 2 then
      GroupBytes(2, Sextet(d[0]), Sextet(d[1]), 0, 0)
    else []
  }

  /** `atob`: forgiving-base64 decode; `None` where the browser throws
      `InvalidCharacterError`. */
  function Atob(s: string): (r: Option<seq<byte>>)
  {
    var d0 := RemoveAsciiWhitespace(s);
    var d := if |d0| % 4 == 0 then StripPadding(d0) else d0;
    if |d| % 4 == 1 || !AllBase64(d) then None
    else Some(DecodeDigits(d))
  }

  /** The binary string of a byte sequence: one character per byte. */
  function BinaryString(b: seq<byte>): (s: string)
    ensures |s| == |b|
    ensures forall i :: 0 <= i < |b| ==> s[i] as int == b[i]
  {
    seq(|b|, i requires 0 <= i < |b| => b[i] as char)
  }

  predicate IsBinaryString(s: string) {
    forall i :: 0 <= i < |s| ==> s[i] as int < 256
  }

  /** The bytes of a binary string. */
  function Bytes(s: string): (b: seq<byte>)
    requires IsBinaryString(s)
    ensures BinaryString(b) == s
  {
    seq(|s|, i requires 0 <= i < |s| => s[i] as int)
  }

  /** `btoa`: `None` (an `InvalidCharacterError`) when a character lies
      outside Latin-1, otherwise the padded encoding of its bytes. */
  function Btoa(s: string): (r: Option<string>)
    ensures r.Some? <==> IsBinaryString(s)
    ensures r.Some? ==> IsPaddedBase64(r.value)
  {
    if IsBinaryString(s) then Some(Encode(Bytes(s))) else None
  }

  /** `atob` with the application's fallback: a string that does not decode
      is kept as it is. */
  function DecodeOrKeep(s: string): (r: string)
    ensures Atob(s).Some? ==> r == BinaryString(Atob(s).value)
    ensures Atob(s).None? ==> r == s
  {
    match Atob(s)
    case Some(b) => BinaryString(b)
    case None => s
  }

  /** The bit arithmetic of one group: the three bytes are recovered from
      the four 6-bit values they were cut into. */
  lemma GroupArithmetic(b0: byte, b1: byte, b2: byte)
    ensures b0 / 4 * 4 + (b0 % 4 * 16 + b1 / 16) / 16 == b0
    ensures (b0 % 4 * 16 + b1 / 16) % 16 * 16 + (b1 % 16 * 4 + b2 / 64) / 4 == b1
    ensures (b1 % 16 * 4 + b2 / 64) % 4 * 64 + b2 % 64 == b2
  {
  }

  /** The four 6-bit values one group of three bytes is cut into. */
  function Cut(b0: byte, b1: byte, b2: byte): (v: (int, int, int, int))
    ensures 0 <= v.0 < 64 && 0 <= v.1 < 64 && 0 <= v.2 < 64 && 0 <= v.3 < 64
  {
    (b0 / 4, b0 % 4 * 16 + b1 / 16, b1 % 16 * 4 + b2 / 64, b2 % 64)
  }

  /** Reassembling the values of a cut gives back its bytes. */
  lemma GroupBytesOfCut(b0: byte, b1: byte, b2: byte)
    ensures var v := Cut(b0, b1, b2);
            GroupBytes(4, v.0, v.1, v.2, v.3) == [b0, b1, b2]
            && GroupBytes(3, v.0, v.1, v.2, 0) == [b0, b1]
            && GroupBytes(2, v.0, v.1, 0, 0) == [b0]
  {
    var v := Cut(b0, b1, b2);
    GroupArithmetic(b0, b1, b2);
    assert v.0 * 4 + v.1 / 16 == b0;
    assert v.1 % 16 * 16 + v.2 / 4 == b1;
    assert v.2 % 4 * 64 + v.3 == b2;
  }

  /** A leading full group of digits decodes on its own. */
  lemma DecodeDigitsStep(g: string, rest: string)
    requires |g| == 4 && AllBase64(g) && AllBase64(rest) && |rest| % 4 != 1
    ensures AllBase64(g + rest)
    ensures DecodeDigits(g + rest)
            == GroupBytes(4, Sextet(g[0]), Sextet(g[1]), Sextet(g[2]), Sextet(g[3])) + DecodeDigits(rest)
  {
    var d := g + rest;
    assert d[4..] == rest;
    assert d[0] == g[0] && d[1] == g[1] && d[2] == g[2] && d[3] == g[3];
  }

  /** The digits of one group of three bytes followed by more digits. */
  lemma {:induction false} DecodeUnpaddedStep(b: seq<byte>)
    requires |b| >= 3
    ensures DecodeDigits(Unpadded(b)) == [b[0], b[1], b[2]] + DecodeDigits(Unpadded(b[3..]))
  {
    var v := Cut(b[0], b[1], b[2]);
    var g := [Letter(v.0), Letter(v.1), Letter(v.2), Letter(v.3)];
    var rest := Unpadded(b[3..]);
    assert Unpadded(b) == g + rest;
    SextetOfLetter(v.0);
    SextetOfLetter(v.1);
    SextetOfLetter(v.2);
    SextetOfLetter(v.3);
    assert AllBase64(g);
    DecodeDigitsStep(g, rest);
    GroupBytesOfCut(b[0], b[1], b[2]);
    assert GroupBytes(4, Sextet(g[0]), Sextet(g[1]), Sextet(g[2]), Sextet(g[3])) == [b[0], b[1], b[2]];
  }

  /** The digits of a final group of one or two bytes. */
  lemma DecodeUnpaddedTail(b: seq<byte>)
    requires 1 <= |b| <= 2
    ensures DecodeDigits(Unpadded(b)) == b
  {
    if |b| == 2 {
      var v := Cut(b[0], b[1], 0);
      SextetOfLetter(v.0);
      SextetOfLetter(v.1);
      SextetOfLetter(v.2);
      GroupBytesOfCut(b[0], b[1], 0);
    } else {
      var v := Cut(b[0], 0, 0);
      SextetOfLetter(v.0);
      SextetOfLetter(v.1);
      GroupBytesOfCut(b[0], 0, 0);
    }
  }

  /** Decoding the digits of an encoding gives back the bytes. */
  lemma {:induction false} DecodeUnpadded(b: seq<byte>)
    ensures DecodeDigits(Unpadded(b)) == b
    decreases |b|
  {
    if |b| >= 3 {
      DecodeUnpadded(b[3..]);
      DecodeUnpaddedStep(b);
      assert b == [b[0], b[1], b[2]] + b[3..];
    } else if |b| >= 1 {
      DecodeUnpaddedTail(b);
    }
  }

  /** Stripping the padding of an encoding leaves exactly its digits. */
  lemma StripEncodePadding(b: seq<byte>)
    ensures StripPadding(Encode(b)) == Unpadded(b)
  {
    StripPaddingOf(Unpadded(b), Padding(|b|));
  }

  /** Alphabet characters followed by at most two `=` lose exactly the `=`. */
  lemma StripPaddingOf(u: string, p: string)
    requires AllBase64(u) && |p| <= 2 && forall i :: 0 <= i < |p| ==> p[i] == '='
    ensures StripPadding(u + p) == u
  {
    var r := u + p;
    if |p| == 2 {
      assert r[|r| - 2..] == "==";
      assert r[..|r| - 2] == u;
    } else if |p| == 1 {
      assert |r| >= 2 ==> r[|r| - 2] == u[|u| - 1];
      assert r[..|r| - 1] == u;
    } else {
      assert r == u;
      assert |r| >= 1 ==> IsBase64Char(r[|r| - 1]);
    }
  }

  /** `atob` inverts `btoa`: every padded encoding decodes to its bytes. */
  lemma AtobInvertsEncode(b: seq<byte>)
    ensures Atob(Encode(b)) == Some(b)
  {
    var e := Encode(b);
    assert forall i :: 0 <= i < |e| ==> !IsAsciiWhitespace(e[i]);
    assert RemoveAsciiWhitespace(e) == e;
    StripEncodePadding(b);
    DecodeUnpadded(b);
  }

  /** A round trip through the byte/character views. */
  lemma BtoaAtob(s: string)
    requires IsBinaryString(s)
    ensures Btoa(s).Some?
    ensures Atob(Btoa(s).value) == Some(Bytes(s))
  {
    AtobInvertsEncode(Bytes(s));
  }
}
