/** The code image shown in the table (`CodeDisplay`): every mark is drawn
    as a DataMatrix by the barcode service; for КМЧЗ marks the text is first
    given its GS1 separators. */
module CodeDisplay {
  import opened Wrappers
  import opened Text
  import opened Gs1
  import opened BarcodeService
  import opened UriCodec
  import opened ProductMarks

  /** The test of `CodeDisplay.tsx:20`: the upper-case escape text, the separator itself
      (checked twice in the source, once per spelling) or `#`. A lower-case
      escape alone does not count. */
  predicate HasGs1(data: string) {
    Contains(data, EscUpper) || Contains(data, [GS]) || Contains(data, "#")
  }

  /** The chain of replacements of `CodeDisplay.tsx:29-33`: escapes of either case,
      then the upper-case and lower-case escapes again, then `#`, all
      becoming the separator. */
  function ProcessGs1(data: string): (p: string)
    ensures !Contains(p, EscUpper) && !Contains(p, EscLower) && '#' !in p
    ensures HasGs1(data) ==> GS in p
    ensures !Contains(data, EscUpper) && !Contains(data, EscLower) && '#' !in data ==> p == data
  {
    ChainFacts(data);
    ReplaceChar(ReplaceAll(ReplaceAll(ReplaceEscapes(data), EscUpper, GS), EscLower, GS), '#', GS)
  }

  lemma ChainFacts(data: string)
    ensures var p := ReplaceChar(ReplaceAll(ReplaceAll(ReplaceEscapes(data), EscUpper, GS), EscLower, GS), '#', GS);
            && !Contains(p, EscUpper) && !Contains(p, EscLower) && '#' !in p
            && (HasGs1(data) ==> GS in p)
            && (!Contains(data, EscUpper) && !Contains(data, EscLower) && '#' !in data ==> p == data)
  {
    var scanned := ReplaceEscapes(data);
    assert ReplaceAll(ReplaceAll(scanned, EscUpper, GS), EscLower, GS) == scanned by {
      RepeatedReplacementsIdle(data);
    }
    HashReplaceClean(data);
    HashReplaceMarks(data);
    HashReplaceIdentity(data);
  }

  /** After the escapes of either case are replaced, the two further
      escape replacements find nothing. */
  lemma RepeatedReplacementsIdle(data: string)
    ensures var scanned := ReplaceEscapes(data);
            ReplaceAll(ReplaceAll(scanned, EscUpper, GS), EscLower, GS) == scanned
  {
    var scanned := ReplaceEscapes(data);
    EscapesGone(data);
    ReplaceAllAbsent(scanned, EscUpper, GS);
    ReplaceAllAbsent(scanned, EscLower, GS);
  }

  /** No escape of either case and no `#` survives the chain. */
  lemma HashReplaceClean(data: string)
    ensures var q := ReplaceChar(ReplaceEscapes(data), '#', GS);
            !Contains(q, EscUpper) && !Contains(q, EscLower) && '#' !in q
  {
    var scanned := ReplaceEscapes(data);
    EscapesGone(data);
    ReplaceCharKeepsAbsence(scanned, '#', GS, EscUpper);
    ReplaceCharKeepsAbsence(scanned, '#', GS, EscLower);
  }

  /** Text showing any GS1 marker comes out holding a separator. */
  lemma HashReplaceMarks(data: string)
    ensures HasGs1(data) ==> GS in ReplaceChar(ReplaceEscapes(data), '#', GS)
  {
    var scanned := ReplaceEscapes(data);
    var q := ReplaceChar(scanned, '#', GS);
    SeparatorsAppear(data);
    OtherCharsKept(data, '#');
    ContainsChar(data, GS);
    ContainsChar(data, '#');
    if '#' in scanned {
      var i :| 0 <= i < |scanned| && scanned[i] == '#';
      assert q[i] == GS;
    }
    if GS in scanned {
      var i :| 0 <= i < |scanned| && scanned[i] == GS;
      assert q[i] == GS;
    }
  }

  /** Text without escapes and without `#` goes through unchanged. */
  lemma HashReplaceIdentity(data: string)
    ensures !Contains(data, EscUpper) && !Contains(data, EscLower) && '#' !in data ==>
              ReplaceChar(ReplaceEscapes(data), '#', GS) == data
  {
    if !Contains(data, EscUpper) && !Contains(data, EscLower) && '#' !in data {
      ReplaceEscapesAbsent(data);
      var q := ReplaceChar(data, '#', GS);
      assert forall i :: 0 <= i < |data| ==> q[i] == data[i];
    }
  }

  /** The chain amounts to the escape scan followed by the `#` replacement. */
  lemma ChainIsScanThenHash(data: string)
    ensures ProcessGs1(data) == ReplaceChar(ReplaceEscapes(data), '#', GS)
  {
    RepeatedReplacementsIdle(data);
  }

  /** Text holding neither a backslash nor `#` goes through unchanged. */
  lemma PlainTextPasses(a: string)
    requires '\\' !in a && '#' !in a
    ensures ProcessGs1(a) == a
  {
    ChainIsScanThenHash(a);
    PlainTextKept(a);
    ReplaceCharAbsent(a, '#', GS);
  }

  /** Each GS1 marker (an escape of either case, or `#`) becomes exactly one
      separator: the plain text before it is kept in order and processing
      resumes right after the marker. */
  lemma MarkerSegment(a: string, m: string, b: string)
    requires m == EscUpper || m == EscLower || m == "#"
    requires '\\' !in a && '#' !in a
    ensures ProcessGs1(a + m + b) == a + [GS] + ProcessGs1(b)
  {
    ChainIsScanThenHash(a + m + b);
    ChainIsScanThenHash(b);
    var tail := ReplaceEscapes(b);
    var mid: char := if m == "#" then '#' else GS;
    assert ReplaceEscapes(a + m + b) == a + [mid] + tail by {
      if m == "#" {
        assert '\\' !in a + "#";
        PlainPrefixKept(a + "#", b);
      } else {
        EscapeSegment(a, m, b);
      }
    }
    HashedSegment(a, mid, tail);
  }

  /** A backslash that does not open an escape is kept as it is. */
  lemma LoneBackslashPasses(a: string, b: string)
    requires '\\' !in a && '#' !in a
    requires !StartsWithEscape("\\" + b)
    ensures ProcessGs1(a + "\\" + b) == a + "\\" + ProcessGs1(b)
  {
    ChainIsScanThenHash(a + "\\" + b);
    ChainIsScanThenHash(b);
    var tail := ReplaceEscapes(b);
    assert ReplaceEscapes(a + "\\" + b) == a + ['\\'] + tail by {
      LoneBackslashSegment(a, b);
    }
    HashedSegment(a, '\\', tail);
  }

  /** The `#` replacement over `a`, one character and the rest. */
  lemma HashedSegment(a: string, mid: char, tail: string)
    requires '#' !in a
    ensures ReplaceChar(a + [mid] + tail, '#', GS) ==
              a + [if mid == '#' then GS else mid] + ReplaceChar(tail, '#', GS)
  {
    var hashed := [if mid == '#' then GS else mid];
    assert ReplaceChar(a + [mid], '#', GS) == a + hashed by {
      ReplaceCharAppend(a, [mid], '#', GS);
      ReplaceCharAbsent(a, '#', GS);
      assert ReplaceChar([mid], '#', GS) == hashed;
    }
    ReplaceCharAppend(a + [mid], tail, '#', GS);
  }

  /** `DataMatrixDisplay`: the text sent and the query parameters. With
      separators, text that already shows GS1 markers has them turned into
      the separator, and other text is wrapped in a separator on each side;
      without, the text goes as it is. `translate-esc=on` is sent exactly
      when separators are asked for. */
  function DataMatrixDisplay(data: string, withSeparators: bool): (r: ImageRequest)
    ensures |r.params| == if withSeparators then 4 else 3
    ensures r.params[0] == "data=" + EncodeUriComponent(r.payload)
    ensures DecodeUriComponent(r.params[0][5..]) == Some(r.payload)
    ensures r.params[1] == "code=DataMatrix" && r.params[|r.params| - 1] == "eclevel=L"
    ensures "translate-esc=on" in r.params <==> withSeparators
    ensures !withSeparators ==> r.payload == data
    ensures withSeparators ==> GS in r.payload
    ensures withSeparators && HasGs1(data) ==> r.payload == ProcessGs1(data)
    ensures withSeparators && HasGs1(data) ==>
              !Contains(r.payload, EscUpper) && !Contains(r.payload, EscLower) && '#' !in r.payload
    ensures withSeparators && !HasGs1(data) ==> r.payload == [GS] + data + [GS]
  {
    var payload := Payload(data, withSeparators);
    ImageRequest(payload, RequestParams(payload, withSeparators))
  }

  /** The text sent to the barcode service. */
  function Payload(data: string, withSeparators: bool): (p: string)
    ensures !withSeparators ==> p == data
    ensures withSeparators ==> GS in p
    ensures withSeparators && HasGs1(data) ==> p == ProcessGs1(data)
    ensures withSeparators && HasGs1(data) ==>
              !Contains(p, EscUpper) && !Contains(p, EscLower) && '#' !in p
    ensures withSeparators && !HasGs1(data) ==> p == [GS] + data + [GS]
  {
    if withSeparators && HasGs1(data) then ProcessGs1(data)
    else if withSeparators then [GS] + data + [GS]
    else data
  }

  /** The query parameters of the image URL for a text. */
  function RequestParams(payload: string, withSeparators: bool): (ps: seq<string>)
    ensures |ps| == if withSeparators then 4 else 3
    ensures ps[0] == "data=" + EncodeUriComponent(payload)
    ensures DecodeUriComponent(ps[0][5..]) == Some(payload)
    ensures ps[1] == "code=DataMatrix" && ps[|ps| - 1] == "eclevel=L"
    ensures "translate-esc=on" in ps <==> withSeparators
  {
    var encoded := "data=" + EncodeUriComponent(payload);
    assert encoded[5..] == EncodeUriComponent(payload);
    DecodeEncodeUriComponent(payload);
    var flags := if withSeparators then ["translate-esc=on"] else [];
    assert encoded[0] != "translate-esc=on"[0];
    [encoded, "code=DataMatrix"] + flags + ["eclevel=L"]
  }

  /** `CodeDisplay`: КМЧЗ marks are drawn with separators, КМДМ marks
      without. */
  function ShowCode(data: string, brandType: BrandType): (r: ImageRequest)
    ensures brandType == Kmdm ==> r.payload == data && "translate-esc=on" !in r.params
    ensures brandType == Kmchz ==> GS in r.payload && "translate-esc=on" in r.params
    ensures brandType == Kmchz ==>
              r.payload == if HasGs1(data) then ProcessGs1(data) else [GS] + data + [GS]
  {
    DataMatrixDisplay(data, brandType == Kmchz)
  }

  /** The full request URL. */
  function DisplayUrl(r: ImageRequest): string
    requires |r.params| >= 1
  {
    Endpoint + "?" + r.Query()
  }

  /** A lower-case escape alone is not recognised as a GS1 marker: the text
      is wrapped in separators and the escape text is sent as it is. */
  lemma LowerCaseEscapeIsWrapped()
    ensures !HasGs1(EscLower)
    ensures DataMatrixDisplay(EscLower, true).payload == [GS] + EscLower + [GS]
  {
    assert !Contains(EscLower, EscUpper) by {
      assert EscUpper[5] != EscLower[5];
      ContainsIffOccurs(EscLower, EscUpper);
    }
    ContainsChar(EscLower, GS);
    ContainsChar(EscLower, '#');
  }
}
