/** The share-link codec (`urlState`): a mark list travels in the `s`
    query parameter as URL-safe Base64 of the UTF-8 bytes of its JSON text. */
module UrlState {
  import opened Wrappers
  import opened Text
  import opened Base64
  import opened UriCodec
  import opened ProductMarks
  import opened JsonCodec

  /** `replace(/=+$/g, '')`: every trailing `c` removed. */
  function StripTrailing(s: string, c: char): (r: string)
    ensures r <= s
    ensures forall i :: |r| <= i < |s| ==> s[i] == c
    ensures |r| > 0 ==> r[|r| - 1] != c
    decreases |s|
  {
    if |s| > 0 && s[|s| - 1] == c then StripTrailing(s[..|s| - 1], c) else s
  }

  function UrlSafeChar(c: char): char {
    if c == '+' then '-' else if c == '/' then '_' else c
  }

  function StandardChar(c: char): char {
    if c == '-' then '+' else if c == '_' then '/' else c
  }

  /** `replace(/\+/g, '-').replace(/\//g, '_')`. */
  function UrlSafeChars(s: string): (r: string)
    ensures |r| == |s| && forall i :: 0 <= i < |s| ==> r[i] == UrlSafeChar(s[i])
  {
    ReplaceChar(ReplaceChar(s, '+', '-'), '/', '_')
  }

  /** `replace(/-/g, '+').replace(/_/g, '/')`. */
  function StandardChars(s: string): (r: string)
    ensures |r| == |s| && forall i :: 0 <= i < |s| ==> r[i] == StandardChar(s[i])
  {
    ReplaceChar(ReplaceChar(s, '-', '+'), '_', '/')
  }

  /** `urlState.ts:10`: `+` becomes `-`, `/` becomes `_`, and the padding goes. */
  function ToUrlSafe(b64: string): (r: string)
    ensures '+' !in r && '/' !in r
    ensures |r| > 0 ==> r[|r| - 1] != '='
    ensures r <= UrlSafeChars(b64)
  {
    var swapped := UrlSafeChars(b64);
    var r := StripTrailing(swapped, '=');
    assert forall i :: 0 <= i < |r| ==> r[i] == swapped[i];
    r
  }

  /** The loop of `urlState.ts:17`: `=` appended until the length is a multiple of four. */
  function PadToQuad(s: string): (r: string)
    ensures |r| % 4 == 0
    ensures s <= r && |r| - |s| < 4
    ensures forall i :: |s| <= i < |r| ==> r[i] == '='
    decreases (4 - |s| % 4) % 4
  {
    if |s| % 4 == 0 then s else PadToQuad(s + "=")
  }

  /** `urlState.ts:16-17`: the Base64 alphabet restored and the padding put back. */
  function FromUrlSafe(param: string): (r: string)
    ensures |r| % 4 == 0
    ensures '-' !in r && '_' !in r
  {
    var restored := StandardChars(param);
    var r := PadToQuad(restored);
    assert forall i :: 0 <= i < |restored| ==> r[i] == restored[i];
    r
  }

  /** `encodeStateToParam`: the JSON text as `%XX` escapes of its UTF-8
      bytes, each escape collapsed to the character with that code, the
      resulting binary string Base64-encoded and made URL-safe. */
  function EncodeStateToParam(marks: seq<ProductMarkDetail>, codec: MarkListCodec): (param: string)
    ensures '+' !in param && '/' !in param && '=' !in param
  {
    var json := codec.stringify(marks);
    CollapseEncodeIsUtf8(json);
    var utf8 := CollapseUpperEscapes(EncodeUriComponent(json));
    UrlSafeHasNoPadding(Btoa(utf8).value);
    ToUrlSafe(Btoa(utf8).value)
  }

  /** `decodeStateFromParam`: `None` where the call catches an exception
      (the Base64 does not decode, the escapes do not form UTF-8, the text
      does not parse), and otherwise the list the JSON text parses to. */
  function DecodeStateFromParam(param: string, codec: MarkListCodec): (r: Option<seq<ProductMarkDetail>>)
    ensures Atob(FromUrlSafe(param)).None? ==> r.None?
    ensures Atob(FromUrlSafe(param)).Some? ==>
              DecodeUriComponent(EscapeLower(BinaryString(Atob(FromUrlSafe(param)).value))).None? ==> r.None?
    ensures Atob(FromUrlSafe(param)).Some? ==>
              DecodeUriComponent(EscapeLower(BinaryString(Atob(FromUrlSafe(param)).value))).Some? ==>
              r == codec.parse(DecodeUriComponent(EscapeLower(BinaryString(Atob(FromUrlSafe(param)).value))).value)
  {
    match Atob(FromUrlSafe(param))
    case None => None
    case Some(bytes) => ParseDecodedBytes(bytes, codec)
  }

  /** The second half of `decodeStateFromParam`: the decoded bytes are
      re-escaped as `%xx`, percent-decoded as UTF-8 and parsed. */
  function ParseDecodedBytes(bytes: seq<byte>, codec: MarkListCodec): Option<seq<ProductMarkDetail>> {
    match DecodeUriComponent(EscapeLower(BinaryString(bytes)))
    case None => None
    case Some(json) => codec.parse(json)
  }

  /** `extractStateFromLocation`, given the value of the `s` parameter:
      an absent or empty parameter gives `None` without decoding. */
  function ExtractStateFromLocation(s: Option<string>, codec: MarkListCodec): (r: Option<seq<ProductMarkDetail>>)
    ensures s.None? || s == Some("") ==> r.None?
    ensures s.Some? && s.value != "" ==> r == DecodeStateFromParam(s.value, codec)
  {
    match s
    case None => None
    case Some(param) => if param == "" then None else DecodeStateFromParam(param, codec)
  }

  // ---------------------------------------------------------------------
  // The round trip

  /** Where the padding of a padded encoding starts. */
  function PadStart(e: string): (k: nat)
    requires IsPaddedBase64(e)
    ensures |e| - 2 <= k <= |e| && AllBase64(e[..k])
    ensures forall i :: k <= i < |e| ==> e[i] == '='
  {
    if AllBase64(e) then
      assert e[..|e|] == e;
      |e|
    else if |e| >= 2 && AllBase64(e[..|e| - 2]) && e[|e| - 2..] == "==" then
      assert e[|e| - 2] == e[|e| - 2..][0] && e[|e| - 1] == e[|e| - 2..][1];
      |e| - 2
    else |e| - 1
  }

  function Pad(n: nat): (p: string)
    ensures |p| == n && forall i :: 0 <= i < n ==> p[i] == '='
  {
    seq(n, _ => '=')
  }

  lemma {:induction false} StripTrailingPadding(x: string, n: nat)
    requires |x| > 0 ==> x[|x| - 1] != '='
    ensures StripTrailing(x + Pad(n), '=') == x
    decreases n
  {
    var s := x + Pad(n);
    if n > 0 {
      assert s[..|s| - 1] == x + Pad(n - 1);
      StripTrailingPadding(x, n - 1);
    } else {
      assert s == x;
    }
  }

  lemma {:induction false} PadToQuadAdds(x: string, n: nat)
    requires n < 4 && (|x| + n) % 4 == 0
    ensures PadToQuad(x) == x + Pad(n)
    decreases n
  {
    if n > 0 {
      PadToQuadAdds(x + "=", n - 1);
      assert x + "=" + Pad(n - 1) == x + Pad(n);
    } else {
      assert x + Pad(n) == x;
    }
  }

  /** A padded encoding is its digits followed by `=`s. */
  lemma PaddedParts(e: string)
    requires IsPaddedBase64(e)
    ensures e == e[..PadStart(e)] + Pad(|e| - PadStart(e))
  {
  }

  lemma UrlSafeCharsOfParts(x: string, n: nat)
    ensures UrlSafeChars(x + Pad(n)) == UrlSafeChars(x) + Pad(n)
  {
  }

  lemma StandardUndoesUrlSafe(x: string)
    requires AllBase64(x)
    ensures StandardChars(UrlSafeChars(x)) == x
  {
    assert forall i :: 0 <= i < |x| ==> IsBase64Char(x[i]);
  }

  /** Making a padded encoding URL-safe keeps its digits, swapped, and
      drops its padding. */
  lemma ToUrlSafeDropsPadding(e: string)
    requires IsPaddedBase64(e)
    ensures ToUrlSafe(e) == UrlSafeChars(e[..PadStart(e)])
  {
    var k := PadStart(e);
    var n := |e| - k;
    var x := e[..k];
    var sx := UrlSafeChars(x);
    assert UrlSafeChars(e) == sx + Pad(n) by {
      PaddedParts(e);
      UrlSafeCharsOfParts(x, n);
    }
    assert |sx| > 0 ==> sx[|sx| - 1] != '=' by {
      if |sx| > 0 { assert IsBase64Char(x[|x| - 1]); }
    }
    StripTrailingPadding(sx, n);
  }

  /** Making a padded encoding URL-safe and restoring it gives it back. */
  lemma UrlSafeRoundTrip(e: string)
    requires IsPaddedBase64(e)
    ensures ToUrlSafe(e) == UrlSafeChars(e[..PadStart(e)])
    ensures FromUrlSafe(ToUrlSafe(e)) == e
  {
    var k := PadStart(e);
    var n := |e| - k;
    var x := e[..k];
    ToUrlSafeDropsPadding(e);
    assert StandardChars(UrlSafeChars(x)) == x by {
      StandardUndoesUrlSafe(x);
    }
    assert PadToQuad(x) == e by {
      PadToQuadAdds(x, n);
      PaddedParts(e);
    }
  }

  lemma UrlSafeHasNoPadding(e: string)
    requires IsPaddedBase64(e)
    ensures '=' !in ToUrlSafe(e)
  {
    ToUrlSafeDropsPadding(e);
    var x := e[..PadStart(e)];
    var sx := UrlSafeChars(x);
    forall i | 0 <= i < |sx|
      ensures sx[i] != '='
    {
      assert IsBase64Char(x[i]);
    }
  }

  /** The parameter of a list is the URL-safe encoding of the UTF-8
      bytes of its JSON text. */
  lemma ParamIsEncodedUtf8(marks: seq<ProductMarkDetail>, codec: MarkListCodec)
    ensures EncodeStateToParam(marks, codec) == ToUrlSafe(Encode(Utf8(codec.stringify(marks))))
  {
    var json := codec.stringify(marks);
    var b := Utf8(json);
    CollapseEncodeIsUtf8(json);
    var utf8 := CollapseUpperEscapes(EncodeUriComponent(json));
    assert Bytes(utf8) == b;
  }

  /** Decoding the URL-safe encoding of a text's UTF-8 bytes parses that
      text. */
  lemma DecodeOfEncodedUtf8(json: string, codec: MarkListCodec)
    ensures DecodeStateFromParam(ToUrlSafe(Encode(Utf8(json))), codec) == codec.parse(json)
  {
    var b := Utf8(json);
    var e := Encode(b);
    assert FromUrlSafe(ToUrlSafe(e)) == e by {
      UrlSafeRoundTrip(e);
    }
    assert Atob(e) == Some(b) by {
      AtobInvertsEncode(b);
    }
    assert DecodeUriComponent(EscapeLower(BinaryString(b))) == Some(json) by {
      DecodeEscapedUtf8(json);
    }
  }

  /** The encoding of at least one byte leaves a non-empty parameter. */
  lemma ParamNotEmpty(b: seq<byte>)
    requires |b| > 0
    ensures |ToUrlSafe(Encode(b))| >= 2
  {
    var e := Encode(b);
    var q := (|b| + 2) / 3;
    assert q >= 1 && |e| == q * 4;
    var k := PadStart(e);
    assert ToUrlSafe(e) == UrlSafeChars(e[..k]) by {
      ToUrlSafeDropsPadding(e);
    }
    assert |UrlSafeChars(e[..k])| == k;
  }

  /** Decoding the parameter of a list gives the list back, provided the
      JSON text round-trips; so does reading it from a location whose `s`
      parameter holds it. */
  lemma ShareLinkRoundTrip(marks: seq<ProductMarkDetail>, codec: MarkListCodec)
    requires IsFaithful(codec)
    ensures DecodeStateFromParam(EncodeStateToParam(marks, codec), codec) == Some(marks)
    ensures ExtractStateFromLocation(Some(EncodeStateToParam(marks, codec)), codec) == Some(marks)
  {
    var json := codec.stringify(marks);
    assert codec.parse(json) == Some(marks) && |json| > 0;
    var param := EncodeStateToParam(marks, codec);
    assert param == ToUrlSafe(Encode(Utf8(json))) by {
      ParamIsEncodedUtf8(marks, codec);
    }
    assert DecodeStateFromParam(param, codec) == Some(marks) by {
      DecodeOfEncodedUtf8(json, codec);
    }
    assert param != "" by {
      ParamNotEmpty(Utf8(json));
    }
  }
}
