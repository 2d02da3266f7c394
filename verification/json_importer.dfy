/** Import of a product/mark-code listing (`jsonImporter`): validating the
    parsed JSON, deciding each mark's type from its text, and flattening
    products into one mark record per mark code. */
module JsonImporter {
  import opened Wrappers
  import opened Text
  import opened Gs1
  import opened Base64
  import opened ProductMarks
  import CodeDisplay
  import opened Chains

  /** A parsed JSON value (numbers are not used by the importer and are
      kept as integers). */
  datatype JsValue =
    | JNull
    | JBool(b: bool)
    | JNumber(n: int)
    | JString(s: string)
    | JArray(items: seq<JsValue>)
    | JObject(fields: map<string, JsValue>)

  /** The field holds a string (`typeof v[key] === 'string'`; a missing
      field is `undefined`). */
  predicate StringField(fields: map<string, JsValue>, key: string) {
    key in fields && fields[key].JString?
  }

  /** The field holds an array (`Array.isArray(v[key])`). */
  predicate ArrayField(fields: map<string, JsValue>, key: string) {
    key in fields && fields[key].JArray?
  }

  /** The per-product test of `jsonImporter.ts:109-114`, for a value that is an object. */
  predicate HasProductShape(fields: map<string, JsValue>) {
    && StringField(fields, "id") && StringField(fields, "productCode")
    && ArrayField(fields, "barcodes") && StringField(fields, "vendorCode")
    && ArrayField(fields, "markcodes")
  }

  predicate IsValidProduct(v: JsValue) {
    v.JObject? && HasProductShape(v.fields)
  }

  /** A call that returns a boolean or throws. */
  datatype Validation = Returns(valid: bool) | Throws

  /** The `every` of `jsonImporter.ts:108-115`. It stops at the first element that
      fails; `null` passes `typeof === 'object'` and then throws on the
      property read, other non-objects (arrays among them) fail a test. */
  function EveryProduct(items: seq<JsValue>): (r: Validation)
    ensures r == Returns(true) <==> forall i :: 0 <= i < |items| ==> IsValidProduct(items[i])
    ensures r.Throws? <==>
              exists i :: 0 <= i < |items| && items[i].JNull? && forall j :: 0 <= j < i ==> IsValidProduct(items[j])
    decreases |items|
  {
    if |items| == 0 then Returns(true)
    else
      var v := items[0];
      if v.JNull? then Throws
      else if !IsValidProduct(v) then Returns(false)
      else
        var rest := EveryProduct(items[1..]);
        assert forall i :: 1 <= i < |items| ==> items[i] == items[1..][i - 1];
        assert rest.Throws? ==> exists i :: 1 <= i < |items| && items[i].JNull? && forall j :: 0 <= j < i ==> IsValidProduct(items[j]) by {
          if rest.Throws? {
            var i :| 0 <= i < |items[1..]| && items[1..][i].JNull? && forall j :: 0 <= j < i ==> IsValidProduct(items[1..][j]);
            assert forall j :: 0 <= j < i + 1 ==> IsValidProduct(items[j]) by {
              forall j | 0 <= j < i + 1 ensures IsValidProduct(items[j]) {
                if j > 0 { assert items[j] == items[1..][j - 1]; }
              }
            }
          }
        }
        rest
  }

  /** `validateImportData`: an object whose `products` is an array of
      well-formed products. A value that is not an object, or an object
      without a `products` array, is refused. */
  function ValidateImportData(data: JsValue): (r: Validation)
    ensures !data.JObject? ==> r == Returns(false)
    ensures data.JObject? && !ArrayField(data.fields, "products") ==> r == Returns(false)
    ensures r == Returns(true) <==>
              data.JObject? && ArrayField(data.fields, "products")
              && forall i :: 0 <= i < |data.fields["products"].items| ==>
                   IsValidProduct(data.fields["products"].items[i])
  {
    match data
    case JObject(fields) =>
      if ArrayField(fields, "products") then EveryProduct(fields["products"].items) else Returns(false)
    case _ => Returns(false)
  }

  /** `ImportedProduct`: the fields the conversion reads. */
  datatype ImportedProduct = ImportedProduct(
    id: string,
    productCode: string,
    barcodes: seq<string>,
    vendorCode: string,
    markcodes: seq<string>,
    brand: Option<string>)

  predicate AllStrings(items: seq<JsValue>) {
    forall i :: 0 <= i < |items| ==> items[i].JString?
  }

  function Strings(items: seq<JsValue>): (r: seq<string>)
    requires AllStrings(items)
    ensures |r| == |items| && forall i :: 0 <= i < |items| ==> items[i] == JString(r[i])
  {
    seq(|items|, i requires 0 <= i < |items| => items[i].s)
  }

  /** The optional `brand`: absent (or null) or a string. */
  predicate BrandReadable(fields: map<string, JsValue>) {
    "brand" !in fields || fields["brand"].JNull? || fields["brand"].JString?
  }

  predicate IsReadableProduct(v: JsValue) {
    && IsValidProduct(v)
    && AllStrings(v.fields["barcodes"].items) && AllStrings(v.fields["markcodes"].items)
    && BrandReadable(v.fields)
  }

  /** A product as the conversion sees it. */
  function ReadProduct(v: JsValue): (p: ImportedProduct)
    requires IsReadableProduct(v)
    ensures JString(p.id) == v.fields["id"] && JString(p.productCode) == v.fields["productCode"]
    ensures JString(p.vendorCode) == v.fields["vendorCode"]
    ensures |p.barcodes| == |v.fields["barcodes"].items|
    ensures forall i :: 0 <= i < |p.barcodes| ==> v.fields["barcodes"].items[i] == JString(p.barcodes[i])
    ensures |p.markcodes| == |v.fields["markcodes"].items|
    ensures forall i :: 0 <= i < |p.markcodes| ==> v.fields["markcodes"].items[i] == JString(p.markcodes[i])
    ensures p.brand.Some? <==> StringField(v.fields, "brand")
    ensures p.brand.Some? ==> v.fields["brand"] == JString(p.brand.value)
  {
    var f := v.fields;
    ImportedProduct(
      f["id"].s, f["productCode"].s, Strings(f["barcodes"].items), f["vendorCode"].s,
      Strings(f["markcodes"].items),
      if "brand" in f && f["brand"].JString? then Some(f["brand"].s) else None)
  }

  predicate AllReadable(items: seq<JsValue>) {
    forall i :: 0 <= i < |items| ==> IsReadableProduct(items[i])
  }

  /** The `products` array as the conversion sees it, element by element. */
  function ReadProducts(items: seq<JsValue>): (ps: seq<ImportedProduct>)
    requires AllReadable(items)
    ensures |ps| == |items|
    ensures forall i :: 0 <= i < |items| ==> ps[i] == ReadProduct(items[i])
  {
    seq(|items|, i requires 0 <= i < |items| => ReadProduct(items[i]))
  }

  /** `determineBrandType`: КМЧЗ when the text holds the separator, the
      upper-case escape text, or `#`; КМДМ otherwise. */
  function DetermineBrandType(decoded: string): (t: BrandType)
    ensures t == Kmchz <==> GS in decoded || Contains(decoded, EscUpper) || '#' in decoded
  {
    ContainsChar(decoded, GS);
    ContainsChar(decoded, '#');
    if Contains(decoded, [GS]) || Contains(decoded, EscUpper) || Contains(decoded, "#") then Kmchz else Kmdm
  }

  /** An imported КМЧЗ mark is exactly a mark the table draws with GS1
      processing rather than with a separator on each side. */
  lemma ImportedTypeMatchesDisplay(decoded: string)
    ensures DetermineBrandType(decoded) == Kmchz <==> CodeDisplay.HasGs1(decoded)
  {
    ContainsChar(decoded, GS);
    ContainsChar(decoded, '#');
  }

  /** An imported mark is drawn by the table with the type the import gave
      it: a КМЧЗ mark always goes through the GS1 marker replacement, never
      the separator wrapping, and a КМДМ mark is sent as it is. */
  lemma ImportedMarkDisplay(decoded: string)
    ensures var t := DetermineBrandType(decoded);
            var r := CodeDisplay.ShowCode(decoded, t);
            && (t == Kmchz ==> r.payload == CodeDisplay.ProcessGs1(decoded) && GS in r.payload)
            && (t == Kmdm ==> r.payload == decoded)
  {
    ImportedTypeMatchesDisplay(decoded);
  }

  /** The clock readings taken while converting, by the position of the
      mark in the output: `Date.now()` in milliseconds and
      `new Date().toISOString()`. */
  datatype Clock = Clock(millis: int -> nat, iso: int -> string)

  /** `barcodes[0] || ''`. */
  function FirstBarcode(barcodes: seq<string>): string {
    if |barcodes| > 0 then barcodes[0] else ""
  }

  /** `brand || 'Unknown'`. */
  function BrandOrUnknown(brand: Option<string>): (b: string)
    ensures |b| > 0
    ensures brand.Some? && brand.value != "" ==> b == brand.value
  {
    if brand.Some? && brand.value != "" then brand.value else "Unknown"
  }

  /** The record of the `index`-th mark code of a product (`jsonImporter.ts:49-65`). */
  function MarkOf(p: ImportedProduct, index: nat, millis: nat, createdAt: string): ProductMarkDetail
    requires index < |p.markcodes|
  {
    var decoded := DecodeOrKeep(p.markcodes[index]);
    ProductMarkDetail(
      p.id + "_" + NatToString(index) + "_" + NatToString(millis),
      p.productCode, FirstBarcode(p.barcodes), p.vendorCode,
      DetermineBrandType(decoded), BrandOrUnknown(p.brand), decoded, InCirculation, createdAt)
  }

  /** The fields of one imported mark: the decoded code, the type decided
      from it, an id from the product id, the code's index and the clock,
      the product's codes, its first barcode, its brand or `Unknown`. */
  lemma MarkFields(p: ImportedProduct, index: nat, millis: nat, createdAt: string)
    requires index < |p.markcodes|
    ensures var m := MarkOf(p, index, millis, createdAt);
            && m.datamatrix == DecodeOrKeep(p.markcodes[index])
            && m.brandType == DetermineBrandType(m.datamatrix)
            && m.id == p.id + "_" + NatToString(index) + "_" + NatToString(millis)
            && m.product == p.productCode && m.supplierCode == p.vendorCode
            && m.barcode == FirstBarcode(p.barcodes) && m.brand == BrandOrUnknown(p.brand)
            && m.status == InCirculation && m.createdAt == createdAt
            && |m.brand| > 0
  {
  }

  /** The number of mark codes of all products. */
  function TotalCodes(products: seq<ImportedProduct>): nat
    decreases |products|
  {
    if |products| == 0 then 0 else |products[0].markcodes| + TotalCodes(products[1..])
  }

  /** The marks of one product, the first taking clock position `start`. */
  function ProductMarksOf(p: ImportedProduct, clock: Clock, start: nat): (r: seq<ProductMarkDetail>)
    ensures |r| == |p.markcodes|
  {
    seq(|p.markcodes|, i requires 0 <= i < |p.markcodes| =>
          MarkOf(p, i, clock.millis(start + i), clock.iso(start + i)))
  }

  /** Each product's marks as a function of the clock position they start at. */
  function ProductBlocks(clock: Clock): (ImportedProduct, nat) -> seq<ProductMarkDetail> {
    (p: ImportedProduct, start: nat) => ProductMarksOf(p, clock, start)
  }

  /** `convertToProductMarks`, from clock position `start`: each product's
      mark codes in turn, in order, the clock advancing once per mark. */
  function ConvertToProductMarks(products: seq<ImportedProduct>, clock: Clock, start: nat)
    : (r: seq<ProductMarkDetail>)
    ensures |r| == TotalCodes(products)
  {
    BlocksCount(products, clock, start);
    Chain(products, ProductBlocks(clock), start)
  }

  /** The index of product `j`'s first mark in the output. */
  function Offset(products: seq<ImportedProduct>, j: nat): nat
    requires j <= |products|
  {
    TotalCodes(products[..j])
  }

  lemma ProductMarkAt(p: ImportedProduct, clock: Clock, start: nat, k: nat)
    requires k < |p.markcodes|
    ensures ProductMarksOf(p, clock, start)[k] == MarkOf(p, k, clock.millis(start + k), clock.iso(start + k))
  {
  }

  lemma OffsetStep(products: seq<ImportedProduct>, j: nat)
    requires 0 < j <= |products|
    ensures Offset(products, j) == |products[0].markcodes| + Offset(products[1..], j - 1)
  {
    assert products[..j][1..] == products[1..][..j - 1];
  }

  /** The marks before product `j` are one per mark code of the products
      before it. */
  lemma {:induction false} BlocksOffset(products: seq<ImportedProduct>, clock: Clock, start: nat, j: nat)
    requires j <= |products|
    ensures ChainOffset(products, ProductBlocks(clock), start, j) == Offset(products, j)
    decreases j
  {
    if j == 0 {
      assert products[..0] == [];
    } else {
      BlocksOffset(products[1..], clock, start + |products[0].markcodes|, j - 1);
      OffsetStep(products, j);
    }
  }

  /** One mark per mark code. */
  lemma BlocksCount(products: seq<ImportedProduct>, clock: Clock, start: nat)
    ensures |Chain(products, ProductBlocks(clock), start)| == TotalCodes(products)
  {
    ChainLength(products, ProductBlocks(clock), start);
    BlocksOffset(products, clock, start, |products|);
    assert products[..|products|] == products;
  }

  /** Mark code `i` of product `j` becomes the mark at the product's offset
      plus `i`, with clock reading of that position. */
  lemma ConvertPlacesEveryCode(products: seq<ImportedProduct>, clock: Clock, start: nat, j: nat, i: nat)
    requires j < |products| && i < |products[j].markcodes|
    ensures Offset(products, j) + i < TotalCodes(products)
    ensures ConvertToProductMarks(products, clock, start)[Offset(products, j) + i]
            == ProductMarksOf(products[j], clock, start + Offset(products, j))[i]
  {
    var offset := Offset(products, j);
    BlocksOffset(products, clock, start, j);
    assert ProductBlocks(clock)(products[j], start + offset) == ProductMarksOf(products[j], clock, start + offset);
    ChainPlaces(products, ProductBlocks(clock), start, j, i);
    BlocksCount(products, clock, start);
  }

  /** Mark code `i` of product `j` becomes, at the product's offset plus
      `i`, the record built from that code with the clock readings of that
      position: its text decoded, its type decided from the decoded text,
      the product's fields copied. */
  lemma ImportedMarkAt(products: seq<ImportedProduct>, clock: Clock, j: nat, i: nat)
    requires j < |products| && i < |products[j].markcodes|
    ensures Offset(products, j) + i < TotalCodes(products)
    ensures ConvertToProductMarks(products, clock, 0)[Offset(products, j) + i]
            == MarkOf(products[j], i, clock.millis(Offset(products, j) + i), clock.iso(Offset(products, j) + i))
  {
    var offset := Offset(products, j);
    var atOffset := ProductMarksOf(products[j], clock, offset);
    assert ConvertToProductMarks(products, clock, 0)[offset + i] == atOffset[i] by {
      ConvertPlacesEveryCode(products, clock, 0, j, i);
    }
    assert atOffset[i] == MarkOf(products[j], i, clock.millis(offset + i), clock.iso(offset + i)) by {
      ProductMarkAt(products[j], clock, offset, i);
    }
  }


  /** The reasons `importFromJson` throws. */
  datatype ImportError =
    | ProductsNotFound   // "Invalid JSON format: products array not found"
    | UnreadableData     // a property read of `null` or `undefined` fails

  /** `importFromJson`: the marks of every product, or the error the call
      throws. `jsonData.products` fails on `null`; a missing, falsy or
      non-array `products` is refused; a product whose fields cannot be
      read as an `ImportedProduct` makes the conversion fail. */
  function ImportFromJson(data: JsValue, clock: Clock): (r: Result<seq<ProductMarkDetail>, ImportError>)
    ensures data.JNull? ==> r == Err(UnreadableData)
    ensures !data.JNull? && !(data.JObject? && ArrayField(data.fields, "products")) ==> r == Err(ProductsNotFound)
    ensures r.Ok? <==>
              data.JObject? && ArrayField(data.fields, "products") && AllReadable(data.fields["products"].items)
    ensures r.Ok? ==>
              r.value == ConvertToProductMarks(ReadProducts(data.fields["products"].items), clock, 0)
  {
    match data
    case JNull => Err(UnreadableData)
    case JObject(fields) =>
      if !ArrayField(fields, "products") then Err(ProductsNotFound)
      else if AllReadable(fields["products"].items) then
        Ok(ConvertToProductMarks(ReadProducts(fields["products"].items), clock, 0))
      else Err(UnreadableData)
    case _ => Err(ProductsNotFound)
  }

  /** Data that passes validation and whose arrays hold strings imports
      without error into the conversion of its products: one mark per mark
      code (where each lands is stated by `ImportedMarkAt`). */
  lemma ValidDataImports(data: JsValue, clock: Clock)
    requires ValidateImportData(data) == Returns(true)
    requires forall i :: 0 <= i < |data.fields["products"].items| ==>
               var f := data.fields["products"].items[i].fields;
               AllStrings(f["barcodes"].items) && AllStrings(f["markcodes"].items) && BrandReadable(f)
    ensures AllReadable(data.fields["products"].items)
    ensures var r := ImportFromJson(data, clock);
            var products := ReadProducts(data.fields["products"].items);
            && r == Ok(ConvertToProductMarks(products, clock, 0))
            && |r.value| == TotalCodes(products)
  {
  }

  /** A mark code stored as the Base64 text of some bytes is imported as
      the text those bytes spell. */
  lemma EncodedCodeIsDecoded(p: ImportedProduct, index: nat, millis: nat, createdAt: string, b: seq<byte>)
    requires index < |p.markcodes| && p.markcodes[index] == Encode(b)
    ensures MarkOf(p, index, millis, createdAt).datamatrix == BinaryString(b)
  {
    AtobInvertsEncode(b);
  }
}
