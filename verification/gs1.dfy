/** GS1 group separators in entered codes. A code may carry the separator
    itself (U+001D), the six-character escape text `\u001D` / `\u001d`
    typed in its place, or `#` as a stand-in; before a code is sent to the
    barcode service the escapes are turned into the real character. The
    `replace` calls with global regular expressions are modelled as the
    left-to-right scan they perform. */
module Gs1 {
  import opened Text

  /** The escape text, a backslash followed by `u001D` or `u001d`. */
  const EscUpper: string := "\\u001D"
  const EscLower: string := "\\u001d"

  /** The text starts with an escape of either case (`/\\u001[dD]/`). */
  predicate StartsWithEscape(t: string) {
    EscUpper <= t || EscLower <= t
  }

  /** `replace(/\\u001[dD]/g, GS)`. */
  function ReplaceEscapes(s: string): (r: string)
    ensures |r| <= |s|
    decreases |s|
  {
    if |s| == 0 then []
    else if StartsWithEscape(s) then [GS] + ReplaceEscapes(s[6..])
    else [s[0]] + ReplaceEscapes(s[1..])
  }

  /** `replace(/pat/g, [c])` for a literal, non-empty pattern. */
  function ReplaceAll(s: string, pat: string, c: char): (r: string)
    requires |pat| > 0
    decreases |s|
  {
    if |s| == 0 then []
    else if pat <= s then [c] + ReplaceAll(s[|pat|..], pat, c)
    else [s[0]] + ReplaceAll(s[1..], pat, c)
  }

  /** A text without the pattern is left alone by the replacement. */
  lemma {:induction false} ReplaceAllAbsent(s: string, pat: string, c: char)
    requires |pat| > 0 && !Contains(s, pat)
    ensures ReplaceAll(s, pat, c) == s
    decreases |s|
  {
    if |s| > 0 {
      ReplaceAllAbsent(s[1..], pat, c);
      assert s == [s[0]] + s[1..];
    }
  }

  /** A GS-free prefix of the output was already a prefix of the input:
      the scan only ever writes GS where it changed something. */
  lemma {:induction false} PrefixReflected(w: string, t: string)
    ensures GS !in w && w <= ReplaceEscapes(t) ==> w <= t
    decreases |t|
  {
    if |w| > 0 && |t| > 0 {
      var r := ReplaceEscapes(t);
      if StartsWithEscape(t) {
        assert w <= r ==> w[0] == GS;
        assert w[0] in w;
      } else {
        PrefixReflected(w[1..], t[1..]);
        assert w <= r <==> w[0] == t[0] && w[1..] <= r[1..];
        assert w <= t <==> w[0] == t[0] && w[1..] <= t[1..];
        assert forall c :: c in w[1..] ==> c in w;
        assert GS !in w ==> GS !in w[1..];
      }
    }
  }

  /** After the scan no escape of either case is left. */
  lemma {:induction false} EscapesGone(s: string)
    ensures !Contains(ReplaceEscapes(s), EscUpper)
    ensures !Contains(ReplaceEscapes(s), EscLower)
    decreases |s|
  {
    var r := ReplaceEscapes(s);
    if |s| > 0 {
      if StartsWithEscape(s) {
        EscapesGone(s[6..]);
        assert r[1..] == ReplaceEscapes(s[6..]);
      } else {
        EscapesGone(s[1..]);
        assert r[1..] == ReplaceEscapes(s[1..]);
        PrefixReflected(EscUpper[1..], s[1..]);
        PrefixReflected(EscLower[1..], s[1..]);
        assert EscUpper <= r <==> EscUpper[0] == s[0] && EscUpper[1..] <= r[1..];
        assert EscLower <= r <==> EscLower[0] == s[0] && EscLower[1..] <= r[1..];
        assert EscUpper <= s <==> EscUpper[0] == s[0] && EscUpper[1..] <= s[1..];
        assert EscLower <= s <==> EscLower[0] == s[0] && EscLower[1..] <= s[1..];
      }
    }
  }

  /** A text holding no escape is left alone by the scan. */
  lemma {:induction false} ReplaceEscapesAbsent(s: string)
    requires !Contains(s, EscUpper) && !Contains(s, EscLower)
    ensures ReplaceEscapes(s) == s
    decreases |s|
  {
    if |s| > 0 {
      ReplaceEscapesAbsent(s[1..]);
      assert s == [s[0]] + s[1..];
    }
  }

  /** Scanning twice is scanning once. */
  lemma ReplaceEscapesIdempotent(s: string)
    ensures ReplaceEscapes(ReplaceEscapes(s)) == ReplaceEscapes(s)
  {
    EscapesGone(s);
    ReplaceEscapesAbsent(ReplaceEscapes(s));
  }

  /** Where the input has a separator or an escape of either case, the
      output has a separator. */
  lemma {:induction false} SeparatorsAppear(s: string)
    ensures (Contains(s, EscUpper) || Contains(s, EscLower) || GS in s) ==> GS in ReplaceEscapes(s)
    decreases |s|
  {
    if |s| > 0 && !StartsWithEscape(s) {
      SeparatorsAppear(s[1..]);
      assert GS in s ==> s[0] == GS || GS in s[1..];
      assert ReplaceEscapes(s)[1..] == ReplaceEscapes(s[1..]);
    } else if |s| > 0 {
      assert ReplaceEscapes(s)[0] == GS;
    }
  }

  /** A character that is neither the separator nor part of an escape is
      in the output exactly when it is in the input (where each character
      lands is stated by the segment lemmas below). */
  lemma {:induction false} OtherCharsKept(s: string, c: char)
    requires c != GS && c !in EscUpper && c !in EscLower
    ensures c in ReplaceEscapes(s) <==> c in s
    decreases |s|
  {
    if |s| > 0 {
      if StartsWithEscape(s) {
        OtherCharsKept(s[6..], c);
        assert s == s[..6] + s[6..];
        assert s[..6] == EscUpper || s[..6] == EscLower;
      } else {
        OtherCharsKept(s[1..], c);
        assert s == [s[0]] + s[1..];
      }
    }
  }

  /** Text before the first backslash is copied as it is, and the scan
      carries on after it. */
  lemma {:induction false} PlainPrefixKept(a: string, b: string)
    requires '\\' !in a
    ensures ReplaceEscapes(a + b) == a + ReplaceEscapes(b)
    decreases |a|
  {
    if |a| > 0 {
      var t := a + b;
      assert t[0] == a[0] && t[1..] == a[1..] + b;
      assert a[0] in a;
      NonEscapeStep(t);
      assert '\\' !in a[1..] by {
        assert forall c :: c in a[1..] ==> c in a;
      }
      PlainPrefixKept(a[1..], b);
      assert [a[0]] + (a[1..] + ReplaceEscapes(b)) == a + ReplaceEscapes(b);
    } else {
      assert a + b == b;
    }
  }

  /** A character other than a backslash is copied and the scan moves on
      by one. */
  lemma NonEscapeStep(t: string)
    requires |t| > 0 && t[0] != '\\'
    ensures ReplaceEscapes(t) == [t[0]] + ReplaceEscapes(t[1..])
  {
    assert !(EscUpper <= t) by { assert EscUpper[0] == '\\'; }
    assert !(EscLower <= t) by { assert EscLower[0] == '\\'; }
  }

  /** Text without a backslash is left alone by the scan. */
  lemma PlainTextKept(a: string)
    requires '\\' !in a
    ensures ReplaceEscapes(a) == a
  {
    PlainPrefixKept(a, []);
    assert a + [] == a;
  }

  /** Each escape, of either case, becomes exactly one separator: the text
      before it is kept and the scan resumes right after its six
      characters. */
  lemma EscapeSegment(a: string, m: string, b: string)
    requires m == EscUpper || m == EscLower
    requires '\\' !in a
    ensures ReplaceEscapes(a + m + b) == a + [GS] + ReplaceEscapes(b)
  {
    assert a + m + b == a + (m + b);
    PlainPrefixKept(a, m + b);
    assert m <= m + b;
    assert (m + b)[6..] == b;
  }

  /** A backslash that does not open an escape is kept as it is. */
  lemma LoneBackslashSegment(a: string, b: string)
    requires '\\' !in a
    requires !StartsWithEscape("\\" + b)
    ensures ReplaceEscapes(a + "\\" + b) == a + "\\" + ReplaceEscapes(b)
  {
    var t := "\\" + b;
    assert a + "\\" + b == a + t;
    assert ReplaceEscapes(a + t) == a + ReplaceEscapes(t) by {
      PlainPrefixKept(a, t);
    }
    assert ReplaceEscapes(t) == "\\" + ReplaceEscapes(b) by {
      assert |t| > 0 && t[1..] == b;
    }
  }

  /** Replacing `x` by `y` cannot create a pattern that holds neither. */
  lemma ReplaceCharKeepsAbsence(s: string, x: char, y: char, pat: string)
    requires x !in pat && y !in pat
    ensures Contains(ReplaceChar(s, x, y), pat) ==> Contains(s, pat)
  {
    var r := ReplaceChar(s, x, y);
    ContainsIffOccurs(r, pat);
    ContainsIffOccurs(s, pat);
    forall i | OccursAt(r, pat, i)
      ensures OccursAt(s, pat, i)
    {
      forall k | 0 <= k < |pat|
        ensures s[i + k] == pat[k]
      {
        assert r[i..i + |pat|][k] == pat[k];
        assert pat[k] in pat;
      }
      assert s[i..i + |pat|] == pat;
    }
  }

  /** An escape between two element strings becomes a single separator. */
  lemma EscapeBecomesSeparator()
    ensures ReplaceEscapes("01" + EscLower + "21") == "01" + [GS] + "21"
  {
    var s := "01" + EscLower + "21";
    assert ReplaceEscapes("21") == "21" by {
      assert ReplaceEscapes("1") == "1";
    }
    assert ReplaceEscapes(s[2..]) == [GS] + "21" by {
      assert s[2..] == EscLower + "21";
      assert s[2..][6..] == "21";
    }
    assert ReplaceEscapes(s[1..]) == "1" + [GS] + "21" by {
      assert s[1..] == "1" + EscLower + "21";
      assert s[1..][1..] == s[2..];
    }
  }
}

/** The TEC-IT barcode service the application draws code images with:
    an image is requested by a URL whose query lists `name=value`
    parameters joined by `&`. */
module BarcodeService {
  import opened Text

  const Endpoint: string := "https://barcode.tec-it.com/barcode.ashx"

  /** One image request: the text to encode and the query parameters. */
  datatype ImageRequest = ImageRequest(payload: string, params: seq<string>) {
    function Query(): string
      requires |params| >= 1
    {
      Join(params, '&')
    }
  }
}
