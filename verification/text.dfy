/** The string primitives of JavaScript that the application relies on,
    over Dafny strings (sequences of Unicode scalar values):
    `trim`, `split`, `includes`, `replace` of one character by another,
    `substring(0, n)`, `toLowerCase` and the
    decimal rendering of a non-negative integer. */
module Text {

  /** The GS1 group separator, `String.fromCharCode(29)`. */
  const GS: char := 29 as char

  /** The code points JavaScript's `trim` removes: the WhiteSpace and
      LineTerminator productions of ECMAScript (general category Zs plus
      TAB, VT, FF, BOM, LF, CR, LS and PS). */
  predicate IsJsWhitespace(c: char) {
    || c == '\t' || c == '\n' || c == '\U{B}' || c == '\U{C}' || c == '\r' || c == ' '
    || c == '\U{A0}' || c == '\U{1680}' || ('\U{2000}' <= c <= '\U{200A}')
    || c == '\U{2028}' || c == '\U{2029}' || c == '\U{202F}' || c == '\U{205F}'
    || c == '\U{3000}' || c == '\U{FEFF}'
  }

  predicate AllWhitespace(s: string) {
    forall i :: 0 <= i < |s| ==> IsJsWhitespace(s[i])
  }

  function TrimStart(s: string): (r: string)
    ensures |r| <= |s| && r == s[|s| - |r|..]
    ensures AllWhitespace(s[..|s| - |r|])
    ensures |r| > 0 ==> !IsJsWhitespace(r[0])
    decreases |s|
  {
    if |s| > 0 && IsJsWhitespace(s[0]) then TrimStart(s[1..]) else s
  }

  function TrimEnd(s: string): (r: string)
    ensures |r| <= |s| && r == s[..|r|]
    ensures AllWhitespace(s[|r|..])
    ensures |r| > 0 ==> !IsJsWhitespace(r[|r| - 1])
    decreases |s|
  {
    if |s| > 0 && IsJsWhitespace(s[|s| - 1]) then TrimEnd(s[..|s| - 1]) else s
  }

  /** `r` sits in `s` at offset `a` with nothing but whitespace around it. */
  predicate SlicedWithBlankMargins(s: string, r: string, a: int) {
    && 0 <= a <= |s| - |r| && r == s[a..a + |r|]
    && AllWhitespace(s[..a]) && AllWhitespace(s[a + |r|..])
  }

  /** `String.prototype.trim`: `s` without its leading and trailing
      whitespace. The result is a contiguous slice of `s` whose margins are
      whitespace and whose ends are not. */
  function Trim(s: string): (r: string)
    ensures exists a :: SlicedWithBlankMargins(s, r, a)
    ensures |r| > 0 ==> !IsJsWhitespace(r[0]) && !IsJsWhitespace(r[|r| - 1])
    ensures |r| == 0 <==> AllWhitespace(s)
  {
    TrimmedBothEnds(s, TrimStart(s), TrimEnd(TrimStart(s)));
    TrimEnd(TrimStart(s))
  }

  /** Stripping the leading whitespace of `s` to `t` and then the trailing
      whitespace of `t` to `r` leaves `r` with blank margins in `s` and
      non-blank ends. */
  lemma TrimmedBothEnds(s: string, t: string, r: string)
    requires |t| <= |s| && t == s[|s| - |t|..] && AllWhitespace(s[..|s| - |t|])
    requires |t| > 0 ==> !IsJsWhitespace(t[0])
    requires |r| <= |t| && r == t[..|r|] && AllWhitespace(t[|r|..])
    requires |r| > 0 ==> !IsJsWhitespace(r[|r| - 1])
    ensures SlicedWithBlankMargins(s, r, |s| - |t|)
    ensures |r| > 0 ==> !IsJsWhitespace(r[0])
    ensures |r| == 0 <==> AllWhitespace(s)
  {
    var a := |s| - |t|;
    assert s[a + |r|..] == t[|r|..];
    if |r| == 0 {
      assert |t| == 0 && s[..a] == s;
    } else {
      assert r[0] == t[0];
      assert !IsJsWhitespace(s[a + |r| - 1]);
    }
  }

  /** JavaScript's `!s.trim()`: the string is empty or all whitespace. */
  predicate IsBlank(s: string) {
    Trim(s) == []
  }

  /** A string whose ends are not whitespace is its own trim; in
      particular trimming twice is trimming once. */
  lemma TrimFixesTrimmed(s: string)
    requires |s| > 0 ==> !IsJsWhitespace(s[0]) && !IsJsWhitespace(s[|s| - 1])
    ensures Trim(s) == s
  {
  }

  /** `s.split(sep)`: the maximal `sep`-free pieces of `s`, always at least one. */
  function Split(s: string, sep: char): (r: seq<string>)
    ensures |r| >= 1
    ensures forall i :: 0 <= i < |r| ==> sep !in r[i]
    decreases |s|
  {
    if |s| == 0 then [""]
    else
      var rest := Split(s[1..], sep);
      if s[0] == sep then [""] + rest
      else [[s[0]] + rest[0]] + rest[1..]
  }

  /** A string without the separator splits into itself alone; a string
      that does not start with the separator has a first piece starting
      with its first character. */
  lemma {:induction false} SplitEnds(s: string, sep: char)
    ensures sep !in s ==> Split(s, sep) == [s]
    ensures |s| > 0 && s[0] != sep ==> |Split(s, sep)[0]| > 0 && Split(s, sep)[0][0] == s[0]
    decreases |s|
  {
    if |s| > 0 {
      SplitEnds(s[1..], sep);
      if sep !in s {
        assert sep !in s[1..];
        assert [s[0]] + s[1..] == s;
      }
    }
  }

  /** `parts.join(sep)`. */
  function Join(parts: seq<string>, sep: char): string
    requires |parts| >= 1
    decreases |parts|
  {
    if |parts| == 1 then parts[0] else parts[0] + [sep] + Join(parts[1..], sep)
  }

  /** Joining the pieces of a split with the separator gives back the string. */
  lemma {:induction false} JoinSplit(s: string, sep: char)
    ensures Join(Split(s, sep), sep) == s
    decreases |s|
  {
    if |s| > 0 {
      JoinSplit(s[1..], sep);
      var rest := Split(s[1..], sep);
      if s[0] != sep && |rest| > 1 {
        assert rest == [rest[0]] + rest[1..];
        assert Join(rest, sep) == rest[0] + [sep] + Join(rest[1..], sep);
      }
    }
  }

  /** `hay.includes(needle)`. */
  function Contains(hay: string, needle: string): bool
    decreases |hay|
  {
    needle <= hay || (|hay| > 0 && Contains(hay[1..], needle))
  }

  /** `needle` occurs in `hay` starting at position `i`. */
  predicate OccursAt(hay: string, needle: string, i: int) {
    0 <= i <= |hay| - |needle| && hay[i..i + |needle|] == needle
  }

  /** `includes` holds exactly when `needle` occurs at some position of `hay`. */
  lemma {:induction false} ContainsIffOccurs(hay: string, needle: string)
    ensures Contains(hay, needle) <==> exists i :: OccursAt(hay, needle, i)
    decreases |hay|
  {
    if needle <= hay {
      assert OccursAt(hay, needle, 0);
    } else if |hay| > 0 {
      ContainsIffOccurs(hay[1..], needle);
      forall i | OccursAt(hay, needle, i)
        ensures OccursAt(hay[1..], needle, i - 1)
      {
        assert i != 0;
        OccursShift(hay, needle, i);
      }
      forall j | OccursAt(hay[1..], needle, j)
        ensures OccursAt(hay, needle, j + 1)
      {
        OccursShift(hay, needle, j + 1);
      }
    }
  }

  /** An occurrence past the first character is an occurrence in the rest. */
  lemma OccursShift(hay: string, needle: string, i: int)
    requires |hay| > 0 && 1 <= i
    ensures OccursAt(hay, needle, i) <==> OccursAt(hay[1..], needle, i - 1)
  {
    if i <= |hay| - |needle| {
      assert hay[1..][i - 1..i - 1 + |needle|] == hay[i..i + |needle|];
    }
  }

  /** Searching for a one-character string is membership of that character. */
  lemma {:induction false} ContainsChar(hay: string, c: char)
    ensures Contains(hay, [c]) <==> c in hay
    decreases |hay|
  {
    if |hay| > 0 {
      ContainsChar(hay[1..], c);
      assert c in hay <==> hay[0] == c || c in hay[1..];
    }
  }

  /** `replace(/x/g, y)` for a single character: every `x` becomes `y`. */
  function ReplaceChar(s: string, x: char, y: char): (r: string)
    ensures |r| == |s|
    ensures forall i :: 0 <= i < |s| ==> r[i] == if s[i] == x then y else s[i]
    ensures x != y ==> x !in r
    decreases |s|
  {
    if |s| == 0 then []
    else [if s[0] == x then y else s[0]] + ReplaceChar(s[1..], x, y)
  }

  /** The replacement works piece by piece. */
  lemma {:induction false} ReplaceCharAppend(u: string, v: string, x: char, y: char)
    ensures ReplaceChar(u + v, x, y) == ReplaceChar(u, x, y) + ReplaceChar(v, x, y)
    decreases |u|
  {
    if |u| == 0 {
      assert u + v == v;
    } else {
      assert (u + v)[0] == u[0] && (u + v)[1..] == u[1..] + v;
      ReplaceCharAppend(u[1..], v, x, y);
    }
  }

  /** A text without `x` is left alone. */
  lemma ReplaceCharAbsent(s: string, x: char, y: char)
    requires x !in s
    ensures ReplaceChar(s, x, y) == s
  {
    var r := ReplaceChar(s, x, y);
    forall i | 0 <= i < |s|
      ensures r[i] == s[i]
    {
      assert s[i] in s;
    }
  }

  /** `s.substring(0, n)` for non-negative `n`: the first `n` characters, or
      the whole string when it is shorter. */
  function Take(s: string, n: nat): (r: string)
    ensures r <= s
    ensures |r| == if |s| < n then |s| else n
  {
    if |s| < n then s else s[..n]
  }

  /** `toLowerCase` on a single character, for the ASCII letters and the
      basic Cyrillic block (U+0400..U+042F); every other character is left
      alone. */
  function LowerChar(c: char): (r: char)
    ensures 'a' <= r <= 'z' <==> ('A' <= c <= 'Z' || 'a' <= c <= 'z')
    ensures !('A' <= c <= 'Z') && !('\U{400}' <= c <= '\U{42F}') ==> r == c
  {
    if 'A' <= c <= 'Z' then (c as int + 32) as char
    else if '\U{410}' <= c <= '\U{42F}' then (c as int + 32) as char
    else if '\U{400}' <= c <= '\U{40F}' then (c as int + 80) as char
    else c
  }

  /** Lowering an already lowered character changes nothing. */
  lemma LowerCharIdempotent(c: char)
    ensures LowerChar(LowerChar(c)) == LowerChar(c)
  {
  }

  /** `s.toLowerCase()`, character by character. */
  function Lower(s: string): (r: string)
    ensures |r| == |s|
    ensures forall i :: 0 <= i < |s| ==> r[i] == LowerChar(s[i])
  {
    seq(|s|, i requires 0 <= i < |s| => LowerChar(s[i]))
  }

  predicate IsDigitString(s: string) {
    forall i :: 0 <= i < |s| ==> '0' <= s[i] <= '9'
  }

  /** The number a string of decimal digits denotes. */
  function DigitsValue(s: string): nat
    requires IsDigitString(s)
    decreases |s|
  {
    if |s| == 0 then 0 else DigitsValue(s[..|s| - 1]) * 10 + (s[|s| - 1] as int - '0' as int)
  }

  /** `String(n)` for a non-negative integer: its decimal digits, without
      leading zeros, denoting `n`. */
  function NatToString(n: nat): (r: string)
    ensures |r| >= 1 && IsDigitString(r)
    ensures |r| > 1 ==> r[0] != '0'
    ensures DigitsValue(r) == n
    decreases n
  {
    var d := ('0' as int + n % 10) as char;
    if n < 10 then [d] else NatToString(n / 10) + [d]
  }
}
