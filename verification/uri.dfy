/** `encodeURIComponent` and `decodeURIComponent` of ECMAScript over the
    UTF-8 encoding form, and the two per-byte `%XX` rewritings the share
    link codec wraps around them. */
module UriCodec {
  import opened Wrappers
  import opened Base64
  import Seqs

  /** The UTF-8 encoding of one code point (RFC 3629). */
  function Utf8Char(c: char): (r: seq<byte>)
    ensures 1 <= |r| <= 4
    ensures |r| == 1 <==> c as int < 0x80
    ensures |r| == 1 ==> r[0] == c as int
  {
    var v := c as int;
    if v < 0x80 then [v]
    else if v < 0x800 then [0xC0 + v / 64, 0x80 + v % 64]
    else if v < 0x10000 then [0xE0 + v / 4096, 0x80 + v / 64 % 64, 0x80 + v % 64]
    else [0xF0 + v / 262144, 0x80 + v / 4096 % 64, 0x80 + v / 64 % 64, 0x80 + v % 64]
  }

  /** The UTF-8 encoding of a string. */
  function Utf8(s: string): (r: seq<byte>)
    ensures |r| >= |s|
    decreases |s|
  {
    if |s| == 0 then [] else Utf8Char(s[0]) + Utf8(s[1..])
  }

  /** The characters `encodeURIComponent` leaves as they are. */
  predicate IsUnreserved(c: char) {
    || ('A' <= c <= 'Z') || ('a' <= c <= 'z') || ('0' <= c <= '9')
    || c == '-' || c == '_' || c == '.' || c == '!' || c == '~' || c == '*'
    || c == '\'' || c == '(' || c == ')'
  }

  /** A hexadecimal digit, upper- or lower-case. */
  function HexDigit(d: int, upper: bool): (c: char)
    requires 0 <= d < 16
    ensures IsHexDigit(c) && HexValue(c) == d
    ensures upper ==> IsUpperHexDigit(c)
  {
    if d < 10 then ('0' as int + d) as char
    else if upper then ('A' as int + d - 10) as char
    else ('a' as int + d - 10) as char
  }

  predicate IsHexDigit(c: char) {
    ('0' <= c <= '9') || ('A' <= c <= 'F') || ('a' <= c <= 'f')
  }

  /** The digits the regular expression `%([0-9A-F]{2})` accepts. */
  predicate IsUpperHexDigit(c: char) {
    ('0' <= c <= '9') || ('A' <= c <= 'F')
  }

  function HexValue(c: char): (d: int)
    requires IsHexDigit(c)
    ensures 0 <= d < 16
  {
    if '0' <= c <= '9' then c as int - '0' as int
    else if 'A' <= c <= 'F' then c as int - 'A' as int + 10
    else c as int - 'a' as int + 10
  }

  /** `%XX` for one byte. */
  function Percent(b: byte, upper: bool): (r: string)
    ensures |r| == 3 && r[0] == '%' && IsHexDigit(r[1]) && IsHexDigit(r[2])
    ensures HexValue(r[1]) * 16 + HexValue(r[2]) == b
    ensures upper ==> IsUpperHexDigit(r[1]) && IsUpperHexDigit(r[2])
  {
    ['%', HexDigit(b / 16, upper), HexDigit(b % 16, upper)]
  }

  /** `%XX` for each byte in turn. */
  function Escape(bs: seq<byte>, upper: bool): (r: string)
    ensures |r| == 3 * |bs|
    decreases |bs|
  {
    if |bs| == 0 then [] else Percent(bs[0], upper) + Escape(bs[1..], upper)
  }

  lemma {:induction false} EscapeAppend(a: seq<byte>, b: seq<byte>, upper: bool)
    ensures Escape(a + b, upper) == Escape(a, upper) + Escape(b, upper)
    decreases |a|
  {
    if |a| > 0 {
      assert (a + b)[0] == a[0];
      assert (a + b)[1..] == a[1..] + b;
      EscapeAppend(a[1..], b, upper);
    } else {
      assert a + b == b;
    }
  }

  /** `encodeURIComponent`: unreserved characters stay, every other
      character becomes the `%XX` escapes of its UTF-8 bytes, in upper case. */
  function EncodeUriComponent(s: string): (r: string)
    ensures forall i :: 0 <= i < |r| ==> IsUnreserved(r[i]) || r[i] == '%' || IsUpperHexDigit(r[i])
    decreases |s|
  {
    if |s| == 0 then []
    else if IsUnreserved(s[0]) then [s[0]] + EncodeUriComponent(s[1..])
    else
      var e := Escape(Utf8Char(s[0]), true);
      assert forall i :: 0 <= i < |e| ==> e[i] == '%' || IsUpperHexDigit(e[i]) by {
        UpperEscapeChars(Utf8Char(s[0]));
      }
      e + EncodeUriComponent(s[1..])
  }

  lemma {:induction false} UpperEscapeChars(bs: seq<byte>)
    ensures forall i :: 0 <= i < |Escape(bs, true)| ==>
              Escape(bs, true)[i] == '%' || IsUpperHexDigit(Escape(bs, true)[i])
    decreases |bs|
  {
    if |bs| > 0 {
      UpperEscapeChars(bs[1..]);
      var p := Percent(bs[0], true);
      var e := Escape(bs, true);
      assert e == p + Escape(bs[1..], true);
      forall i | 0 <= i < |e|
        ensures e[i] == '%' || IsUpperHexDigit(e[i])
      {
        if i >= 3 { assert e[i] == Escape(bs[1..], true)[i - 3]; }
      }
    }
  }

  /** The `replace(/%([0-9A-F]{2})/g, ...)` of `urlState.ts:7`: every upper-case `%XX`
      becomes the character with that code, scanning left to right
      without rescanning what a replacement produced. */
  function CollapseUpperEscapes(t: string): string
    decreases |t|
  {
    if |t| == 0 then []
    else if |t| >= 3 && t[0] == '%' && IsUpperHexDigit(t[1]) && IsUpperHexDigit(t[2]) then
      [(HexValue(t[1]) * 16 + HexValue(t[2])) as char] + CollapseUpperEscapes(t[3..])
    else [t[0]] + CollapseUpperEscapes(t[1..])
  }

  lemma {:induction false} CollapseEscape(bs: seq<byte>, rest: string)
    ensures CollapseUpperEscapes(Escape(bs, true) + rest) == BinaryString(bs) + CollapseUpperEscapes(rest)
    decreases |bs|
  {
    if |bs| > 0 {
      CollapseEscape(bs[1..], rest);
      CollapseEscapeStep(bs, rest);
    } else {
      assert Escape(bs, true) + rest == rest;
    }
  }

  lemma CollapseEscapeStep(bs: seq<byte>, rest: string)
    requires |bs| > 0
    requires CollapseUpperEscapes(Escape(bs[1..], true) + rest) == BinaryString(bs[1..]) + CollapseUpperEscapes(rest)
    ensures CollapseUpperEscapes(Escape(bs, true) + rest) == BinaryString(bs) + CollapseUpperEscapes(rest)
  {
    var p := Percent(bs[0], true);
    var tail := Escape(bs[1..], true) + rest;
    var t := Escape(bs, true) + rest;
    assert t == p + tail by {
      Seqs.AppendAssociates(p, Escape(bs[1..], true), rest);
    }
    assert t[..3] == p && t[3..] == tail;
    assert CollapseUpperEscapes(t) == [bs[0] as char] + CollapseUpperEscapes(tail);
    assert BinaryString(bs) == [bs[0] as char] + BinaryString(bs[1..]);
    Seqs.AppendAssociates([bs[0] as char], BinaryString(bs[1..]), CollapseUpperEscapes(rest));
  }

  /** Encoding a string with `encodeURIComponent` and collapsing the
      escapes again yields its UTF-8 bytes, one character per byte. */
  lemma {:induction false} CollapseEncodeIsUtf8(s: string)
    ensures CollapseUpperEscapes(EncodeUriComponent(s)) == BinaryString(Utf8(s))
    decreases |s|
  {
    if |s| > 0 {
      CollapseEncodeIsUtf8(s[1..]);
      var rest := EncodeUriComponent(s[1..]);
      BinaryStringAppend(Utf8Char(s[0]), Utf8(s[1..]));
      if IsUnreserved(s[0]) {
        assert ([s[0]] + rest)[1..] == rest;
      } else {
        CollapseEscape(Utf8Char(s[0]), rest);
      }
    }
  }

  lemma BinaryStringAppend(a: seq<byte>, b: seq<byte>)
    ensures BinaryString(a + b) == BinaryString(a) + BinaryString(b)
  {
  }

  /** `urlState.ts:19`: each character as `%xx`, the last two lower-case hexadecimal
      digits of its code. */
  function EscapeLower(s: string): (r: string)
    ensures |r| == 3 * |s|
    decreases |s|
  {
    if |s| == 0 then [] else Percent(s[0] as int % 256, false) + EscapeLower(s[1..])
  }

  lemma {:induction false} EscapeLowerOfBinary(bs: seq<byte>)
    ensures EscapeLower(BinaryString(bs)) == Escape(bs, false)
    decreases |bs|
  {
    if |bs| > 0 {
      EscapeLowerOfBinary(bs[1..]);
      EscapeLowerStep(bs);
    }
  }

  lemma EscapeLowerStep(bs: seq<byte>)
    requires |bs| > 0
    ensures EscapeLower(BinaryString(bs)) == Percent(bs[0], false) + EscapeLower(BinaryString(bs[1..]))
  {
    var s := BinaryString(bs);
    assert s[1..] == BinaryString(bs[1..]);
    assert s[0] as int % 256 == bs[0];
  }

  /** The byte a `%XX` escape at the front of `t` denotes, if there is one. */
  function EscapedByte(t: string): (r: Option<byte>)
  {
    if |t| >= 3 && t[0] == '%' && IsHexDigit(t[1]) && IsHexDigit(t[2])
    then Some(HexValue(t[1]) * 16 + HexValue(t[2]))
    else None
  }

  /** The length of the UTF-8 sequence a lead byte announces; 0 for a byte
      that cannot lead one. */
  function LeadLength(b: byte): nat {
    if b < 0x80 then 1
    else if 0xC0 <= b < 0xE0 then 2
    else if 0xE0 <= b < 0xF0 then 3
    else if 0xF0 <= b < 0xF8 then 4
    else 0
  }

  predicate IsContinuation(b: byte) {
    0x80 <= b < 0xC0
  }

  /** `k` escaped continuation bytes at the front of `t`. */
  function ContinuationBytes(t: string, k: nat): (r: Option<seq<byte>>)
    ensures r.Some? ==> |r.value| == k && 3 * k <= |t|
    decreases k
  {
    if k == 0 then Some([])
    else match EscapedByte(t)
      case None => None
      case Some(b) =>
        if !IsContinuation(b) then None
        else match ContinuationBytes(t[3..], k - 1)
          case None => None
          case Some(r) => Some([b] + r)
  }

  /** The code point of a multi-byte sequence, if it is the shortest form
      of a Unicode scalar value. */
  function DecodeSequence(lead: byte, cont: seq<byte>): (r: Option<char>)
    requires 1 <= |cont| <= 3
    requires forall i :: 0 <= i < |cont| ==> IsContinuation(cont[i])
  {
    var l: int := lead;
    var v: int :=
      if |cont| == 1 then (l - 0xC0) * 64 + (cont[0] as int - 0x80)
      else if |cont| == 2 then (l - 0xE0) * 4096 + (cont[0] as int - 0x80) * 64 + (cont[1] as int - 0x80)
      else (l - 0xF0) * 262144 + (cont[0] as int - 0x80) * 4096 + (cont[1] as int - 0x80) * 64
           + (cont[2] as int - 0x80);
    var min := if |cont| == 1 then 0x80 else if |cont| == 2 then 0x800 else 0x10000;
    if min <= v < 0xD800 || (0xE000 <= v < 0x110000 && min <= v) then Some(v as char) else None
  }

  function Prepend(c: char, r: Option<string>): Option<string> {
    match r
    case None => None
    case Some(s) => Some([c] + s)
  }

  /** `decodeURIComponent`: `None` where it throws `URIError` (a `%` not
      followed by two hexadecimal digits, a malformed or over-long UTF-8
      sequence, a surrogate or a value beyond U+10FFFF). */
  function DecodeUriComponent(t: string): Option<string>
    decreases |t|
  {
    if |t| == 0 then Some([])
    else if t[0] != '%' then Prepend(t[0], DecodeUriComponent(t[1..]))
    else match EscapedByte(t)
      case None => None
      case Some(b) =>
        var n := LeadLength(b);
        if n == 1 then Prepend(b as char, DecodeUriComponent(t[3..]))
        else if n == 0 then None
        else match ContinuationBytes(t[3..], n - 1)
          case None => None
          case Some(cont) =>
            match DecodeSequence(b, cont)
            case None => None
            case Some(c) => Prepend(c, DecodeUriComponent(t[3 * n..]))
  }

  lemma EscapedBytePercent(b: byte, upper: bool, rest: string)
    ensures EscapedByte(Percent(b, upper) + rest) == Some(b)
  {
  }

  /** An escaped byte sequence starts with the escape of its first byte. */
  lemma EscapeFront(bs: seq<byte>, rest: string, upper: bool)
    requires |bs| > 0
    ensures var t := Escape(bs, upper) + rest;
            && t[0] == '%' && EscapedByte(t) == Some(bs[0])
            && t[3..] == Escape(bs[1..], upper) + rest
  {
    var p := Percent(bs[0], upper);
    var tail := Escape(bs[1..], upper) + rest;
    assert Escape(bs, upper) + rest == p + tail by {
      Seqs.AppendAssociates(p, Escape(bs[1..], upper), rest);
    }
    EscapedBytePercent(bs[0], upper, tail);
    assert (p + tail)[3..] == tail;
  }

  lemma {:induction false} ContinuationOfEscape(bs: seq<byte>, rest: string, upper: bool)
    requires forall i :: 0 <= i < |bs| ==> IsContinuation(bs[i])
    ensures ContinuationBytes(Escape(bs, upper) + rest, |bs|) == Some(bs)
    decreases |bs|
  {
    if |bs| > 0 {
      assert ContinuationBytes(Escape(bs[1..], upper) + rest, |bs| - 1) == Some(bs[1..]) by {
        ContinuationOfEscape(bs[1..], rest, upper);
      }
      assert ContinuationBytes(Escape(bs, upper) + rest, |bs|) == Some([bs[0]] + bs[1..]) by {
        EscapeFront(bs, rest, upper);
        ContinuationStep(Escape(bs, upper) + rest, |bs|, bs[0], bs[1..]);
      }
      assert bs == [bs[0]] + bs[1..];
    }
  }

  lemma ContinuationStep(t: string, k: nat, b: byte, more: seq<byte>)
    requires k > 0 && EscapedByte(t) == Some(b) && IsContinuation(b)
    requires 3 <= |t| && ContinuationBytes(t[3..], k - 1) == Some(more)
    ensures ContinuationBytes(t, k) == Some([b] + more)
  {
  }

  lemma SplitBy64(v: int)
    requires v >= 0
    ensures v == v / 64 * 64 + v % 64
    ensures v / 4096 == v / 64 / 64
    ensures v / 262144 == v / 4096 / 64
  {
  }

  lemma Utf8TwoBytes(c: char)
    requires 0x80 <= c as int < 0x800
    ensures var r := Utf8Char(c);
            && |r| == 2 && LeadLength(r[0]) == 2 && IsContinuation(r[1])
            && DecodeSequence(r[0], r[1..]) == Some(c)
  {
    var v := c as int;
    SplitBy64(v);
  }

  lemma Utf8ThreeBytes(c: char)
    requires 0x800 <= c as int < 0x10000
    ensures var r := Utf8Char(c);
            && |r| == 3 && LeadLength(r[0]) == 3 && IsContinuation(r[1]) && IsContinuation(r[2])
            && DecodeSequence(r[0], r[1..]) == Some(c)
  {
    var v := c as int;
    SplitBy64(v);
    SplitBy64(v / 64);
    var r: seq<int> := Utf8Char(c);
    assert (r[0] - 0xE0) * 4096 + (r[1] - 0x80) * 64 + (r[2] - 0x80) == v;
  }

  lemma Utf8FourBytes(c: char)
    requires 0x10000 <= c as int
    ensures var r := Utf8Char(c);
            && |r| == 4 && LeadLength(r[0]) == 4
            && IsContinuation(r[1]) && IsContinuation(r[2]) && IsContinuation(r[3])
            && DecodeSequence(r[0], r[1..]) == Some(c)
  {
    var v := c as int;
    SplitBy64(v);
    SplitBy64(v / 64);
    SplitBy64(v / 4096);
    var r: seq<int> := Utf8Char(c);
    assert (r[0] - 0xF0) * 262144 + (r[1] - 0x80) * 4096 + (r[2] - 0x80) * 64 + (r[3] - 0x80) == v;
  }

  /** The arithmetic of the three multi-byte forms: lead and continuation
      bytes reassemble into the code point, which is in the shortest form. */
  lemma Utf8Arithmetic(c: char)
    requires c as int >= 0x80
    ensures var r := Utf8Char(c);
            && LeadLength(r[0]) == |r|
            && (forall i :: 1 <= i < |r| ==> IsContinuation(r[i]))
            && DecodeSequence(r[0], r[1..]) == Some(c)
  {
    if c as int < 0x800 {
      Utf8TwoBytes(c);
    } else if c as int < 0x10000 {
      Utf8ThreeBytes(c);
    } else {
      Utf8FourBytes(c);
    }
  }

  /** One encoded character at the front decodes to that character. */
  lemma DecodeEscapedChar(c: char, rest: string, upper: bool)
    ensures DecodeUriComponent(Escape(Utf8Char(c), upper) + rest) == Prepend(c, DecodeUriComponent(rest))
  {
    var r := Utf8Char(c);
    EscapeFront(r, rest, upper);
    if c as int >= 0x80 {
      DecodeEscapedMultiByte(c, rest, upper);
    } else {
      assert Escape(r[1..], upper) == [];
      assert (Escape(r, upper) + rest)[3..] == rest;
    }
  }

  lemma DecodeEscapedMultiByte(c: char, rest: string, upper: bool)
    requires c as int >= 0x80
    ensures DecodeUriComponent(Escape(Utf8Char(c), upper) + rest) == Prepend(c, DecodeUriComponent(rest))
  {
    Utf8Arithmetic(c);
    DecodeSequenceFront(Utf8Char(c), c, rest, upper);
  }

  /** The escapes of a well-formed multi-byte sequence at the front decode
      to the character it encodes. */
  lemma DecodeSequenceFront(r: seq<byte>, c: char, rest: string, upper: bool)
    requires |r| >= 2 && LeadLength(r[0]) == |r|
    requires forall i :: 1 <= i < |r| ==> IsContinuation(r[i])
    requires DecodeSequence(r[0], r[1..]) == Some(c)
    ensures DecodeUriComponent(Escape(r, upper) + rest) == Prepend(c, DecodeUriComponent(rest))
  {
    var t := Escape(r, upper) + rest;
    assert EscapedByte(t) == Some(r[0]) && t[0] == '%' && t[3..] == Escape(r[1..], upper) + rest by {
      EscapeFront(r, rest, upper);
    }
    assert ContinuationBytes(t[3..], |r| - 1) == Some(r[1..]) by {
      assert forall i :: 0 <= i < |r[1..]| ==> IsContinuation(r[1..][i]);
      ContinuationOfEscape(r[1..], rest, upper);
    }
    assert t[3 * |r|..] == rest;
  }

  /** `urlState.ts:19` followed by `decodeURIComponent` inverts `urlState.ts:7` on every
      string: escaping the UTF-8 bytes of `s` and decoding gives back `s`. */
  lemma {:induction false} DecodeEscapedUtf8(s: string)
    ensures DecodeUriComponent(EscapeLower(BinaryString(Utf8(s)))) == Some(s)
    decreases |s|
  {
    EscapeLowerOfBinary(Utf8(s));
    if |s| > 0 {
      DecodeEscapedUtf8(s[1..]);
      EscapeLowerOfBinary(Utf8(s[1..]));
      EscapeAppend(Utf8Char(s[0]), Utf8(s[1..]), false);
      DecodeEscapedChar(s[0], Escape(Utf8(s[1..]), false), false);
      assert s == [s[0]] + s[1..];
    }
  }

  /** `decodeURIComponent` inverts `encodeURIComponent` on every string. */
  lemma {:induction false} DecodeEncodeUriComponent(s: string)
    ensures DecodeUriComponent(EncodeUriComponent(s)) == Some(s)
    decreases |s|
  {
    if |s| > 0 {
      DecodeEncodeUriComponent(s[1..]);
      var rest := EncodeUriComponent(s[1..]);
      if IsUnreserved(s[0]) {
        assert ([s[0]] + rest)[1..] == rest;
      } else {
        DecodeEscapedChar(s[0], rest, true);
      }
      assert s == [s[0]] + s[1..];
    }
  }
}
