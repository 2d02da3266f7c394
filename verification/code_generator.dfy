/** `CodeGenerator`: the code images of printouts. КМДМ marks become QR
    codes drawn locally; КМЧЗ marks become DataMatrix images requested from
    the barcode service through a CORS proxy. */
module CodeGenerator {
  import opened Wrappers
  import opened Text
  import opened Gs1
  import opened BarcodeService
  import opened UriCodec
  import opened ProductMarks
  import CodeDisplay

  /** The test of `codeGenerator.ts:30`, made on the untrimmed text: the upper-case escape
      text or the separator itself. Neither `#` nor a lower-case escape
      alone counts. */
  predicate HasGs1Escape(data: string) {
    Contains(data, EscUpper) || Contains(data, [GS])
  }

  /** `codeGenerator.ts:31-39`: the trimmed text, with escapes of either case turned
      into the separator when `HasGs1Escape` held. */
  function ProcessedData(data: string): (p: string)
    ensures HasGs1Escape(data) ==> p == ReplaceEscapes(Trim(data))
    ensures HasGs1Escape(data) ==> !Contains(p, EscUpper) && !Contains(p, EscLower)
    ensures !HasGs1Escape(data) ==> p == Trim(data)
    ensures !Contains(Trim(data), EscUpper) && !Contains(Trim(data), EscLower) ==> p == Trim(data)
  {
    var t := Trim(data);
    if HasGs1Escape(data) then
      EscapesGone(t);
      ReplaceAllAbsent(ReplaceEscapes(t), EscUpper, GS);
      ReplaceAllAbsent(ReplaceEscapes(t), EscLower, GS);
      ReplaceEscapesPreserves(t);
      ReplaceAll(ReplaceAll(ReplaceEscapes(t), EscUpper, GS), EscLower, GS)
    else t
  }

  /** With `HasGs1Escape` holding, each escape in the trimmed text becomes
      exactly one separator, the text before it being kept in order. */
  lemma ProcessedSegment(data: string, a: string, m: string, b: string)
    requires HasGs1Escape(data)
    requires Trim(data) == a + m + b
    requires m == EscUpper || m == EscLower
    requires '\\' !in a
    ensures ProcessedData(data) == a + [GS] + ReplaceEscapes(b)
  {
    EscapeSegment(a, m, b);
  }

  lemma ReplaceEscapesPreserves(t: string)
    ensures !Contains(t, EscUpper) && !Contains(t, EscLower) ==> ReplaceEscapes(t) == t
  {
    if !Contains(t, EscUpper) && !Contains(t, EscLower) {
      ReplaceEscapesAbsent(t);
    }
  }

  /** The parameters every DataMatrix request carries after `data`. */
  const FixedParams: seq<string> :=
    ["code=DataMatrix", "unit=Fit", "dpi=96", "imagetype=Png", "rotation=0",
     "color=%23000000", "bgcolor=%23ffffff", "qunit=Mm", "quiet=0"]

  const CorsProxy: string := "https://cors-anywhere.herokuapp.com/"

  /** `generateDataMatrix`, up to the request it makes: the processed text,
      the nine fixed parameters, and `translate-esc=on` and `eclevel=L` only
      when `HasGs1Escape` held. */
  function DataMatrixRequest(data: string): (r: ImageRequest)
    ensures r.payload == ProcessedData(data)
    ensures |r.params| == if HasGs1Escape(data) then 12 else 10
    ensures r.params[0] == "data=" + EncodeUriComponent(r.payload) && r.params[1..10] == FixedParams
    ensures DecodeUriComponent(r.params[0][5..]) == Some(r.payload)
    ensures HasGs1Escape(data) ==> r.params[10..] == ["translate-esc=on", "eclevel=L"]
  {
    var payload := ProcessedData(data);
    var encoded := "data=" + EncodeUriComponent(payload);
    assert encoded[5..] == EncodeUriComponent(payload);
    DecodeEncodeUriComponent(payload);
    var flags := if HasGs1Escape(data) then ["translate-esc=on", "eclevel=L"] else [];
    ImageRequest(payload, [encoded] + FixedParams + flags)
  }

  /** The URL `codeGenerator.ts:66` builds: proxy, service, and the joined parameters. */
  function DataMatrixUrl(data: string): string {
    CorsProxy + Endpoint + "?" + DataMatrixRequest(data).Query()
  }

  /** What `generateCode` produces: a QR code of the text as given, or a
      DataMatrix request. */
  datatype GeneratedCode = QrCode(text: string) | DataMatrix(request: ImageRequest)

  /** `generateCode`: КМДМ marks get a QR code, all others a DataMatrix. */
  function GenerateCode(data: string, brandType: BrandType): (g: GeneratedCode)
    ensures g.QrCode? <==> brandType == Kmdm
    ensures g.QrCode? ==> g.text == data
    ensures g.DataMatrix? ==> g.request.payload == ProcessedData(data)
  {
    if brandType == Kmdm then QrCode(data) else DataMatrix(DataMatrixRequest(data))
  }

  /** Whatever the generator recognises as GS1 data, the table's display
      recognises too. */
  lemma GeneratorTestImpliesDisplayTest(data: string)
    ensures HasGs1Escape(data) ==> CodeDisplay.HasGs1(data)
  {
  }

  /** The two tests differ on `#`: a code whose only marker is `#` gets
      separators on screen but is sent to the service unchanged, without
      `translate-esc`, when printed. */
  lemma HashMarkedOnlyOnScreen()
    ensures CodeDisplay.HasGs1("01#21")
    ensures !HasGs1Escape("01#21")
    ensures DataMatrixRequest("01#21").payload == "01#21"
    ensures |DataMatrixRequest("01#21").params| == 10
  {
    var d := "01#21";
    assert d[2..5] == "#21";
    assert "#" <= d[2..];
    assert d[1..][1..] == d[2..];
    assert !(EscUpper <= d);
    ContainsIffOccurs(d, EscUpper);
    ContainsChar(d, GS);
    assert !IsJsWhitespace(d[0]) && !IsJsWhitespace(d[|d| - 1]);
    TrimFixesTrimmed(d);
  }
}
