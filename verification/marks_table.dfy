/** The table screen's logic (`ProductMarksTable`): parsing pasted codes,
    the bulk add that filters them against the displayed marks before
    handing them to the store, inline edit, delete, the brand-type cell
    and the per-row show/hide toggle of the code image. */
module MarksTable {
  import opened Wrappers
  import opened Text
  import opened Seqs
  import opened Base64
  import opened ProductMarks
  import opened Storage

  // ---------------------------------------------------------------------
  // Parsing pasted text

  /** One non-blank line of the paste as it enters the preview: trimmed,
      and when the "decode Base64" switch is on, decoded if it decodes. */
  function CleanLine(line: string, decode: bool): string {
    if decode then DecodeOrKeep(Trim(line)) else Trim(line)
  }

  predicate IsContentLine(line: string) {
    !IsBlank(line)
  }

  /** The lines of the paste that are not blank, in order. */
  function ContentLines(lines: seq<string>): seq<string> {
    Filter(lines, IsContentLine)
  }

  /** The cleaning applied to every kept line. */
  function Cleaner(decode: bool): string -> string {
    line => CleanLine(line, decode)
  }

  /** The `forEach` over the lines: blank lines are skipped, the others
      cleaned, in order. */
  function ParseLines(lines: seq<string>, decode: bool): (codes: seq<string>)
    ensures |codes| <= |lines|
  {
    FilterMap(lines, IsContentLine, Cleaner(decode))
  }

  /** The parsed codes are the non-blank lines, each cleaned, in order. */
  lemma ParseLinesCleansContent(lines: seq<string>, decode: bool)
    ensures |ParseLines(lines, decode)| == |ContentLines(lines)|
    ensures forall k :: 0 <= k < |ContentLines(lines)| ==>
              ParseLines(lines, decode)[k] == CleanLine(ContentLines(lines)[k], decode)
  {
    FilterMapIsMapOfFilter(lines, IsContentLine, Cleaner(decode));
  }

  /** Without decoding, every preview entry is a trimmed, non-empty piece
      of a line: no line feed inside, no whitespace at either end. */
  lemma PlainLinesShape(lines: seq<string>)
    ensures forall k :: 0 <= k < |ParseLines(lines, false)| ==>
              var c := ParseLines(lines, false)[k];
              && |c| > 0 && !IsJsWhitespace(c[0]) && !IsJsWhitespace(c[|c| - 1])
              && ((forall i :: 0 <= i < |lines| ==> '\n' !in lines[i]) ==> '\n' !in c)
  {
    var parsed := ParseLines(lines, false);
    ParseLinesCleansContent(lines, false);
    forall k | 0 <= k < |parsed|
      ensures |parsed[k]| > 0
      ensures (forall i :: 0 <= i < |lines| ==> '\n' !in lines[i]) ==> '\n' !in parsed[k]
    {
      var line := ContentLines(lines)[k];
      assert line in ContentLines(lines);
      assert line in lines;
      var a :| SlicedWithBlankMargins(line, Trim(line), a);
      assert forall c :: c in Trim(line) ==> c in line;
    }
  }

  datatype ParseOutcome =
    | BlankInput           // "Please enter data to parse"
    | NoValidData          // "No valid data found to parse"
    | Parsed(codes: seq<string>)

  /** `parseBulkData`: blank input is refused; otherwise the trimmed text is
      split at line feeds and its non-blank lines become the preview. */
  function ParseBulkData(bulk: string, decode: bool): (r: ParseOutcome)
    ensures r.BlankInput? <==> AllWhitespace(bulk)
    ensures r.Parsed? ==> |r.codes| > 0
    ensures r.Parsed? ==> r.codes == ParseLines(Split(Trim(bulk), '\n'), decode)
    ensures r.NoValidData? <==> !AllWhitespace(bulk) && ParseLines(Split(Trim(bulk), '\n'), decode) == []
    ensures r.Parsed? ==> |r.codes| <= |Split(Trim(bulk), '\n')|
    ensures r.Parsed? && !decode ==>
              forall k :: 0 <= k < |r.codes| ==>
                && |r.codes[k]| > 0 && '\n' !in r.codes[k]
                && !IsJsWhitespace(r.codes[k][0]) && !IsJsWhitespace(r.codes[k][|r.codes[k]| - 1])
  {
    if IsBlank(bulk) then BlankInput
    else
      PlainLinesShape(Split(Trim(bulk), '\n'));
      if ParseLines(Split(Trim(bulk), '\n'), decode) == [] then NoValidData
      else Parsed(ParseLines(Split(Trim(bulk), '\n'), decode))
  }

  /** The "no valid data" branch cannot be reached: text that is not blank
      always has a first line that is not blank. */
  lemma NonBlankInputParses(bulk: string, decode: bool)
    requires !AllWhitespace(bulk)
    ensures ParseBulkData(bulk, decode).Parsed?
  {
    var t := Trim(bulk);
    var lines := Split(t, '\n');
    SplitEnds(t, '\n');
    assert !IsJsWhitespace(lines[0][0]);
    assert !IsBlank(lines[0]);
    assert lines[0] in ContentLines(lines);
    ParseLinesCleansContent(lines, decode);
  }

  /** A single pasted line holding the Base64 encoding of some bytes is
      parsed, with decoding switched on, into the text those bytes spell. */
  lemma EncodedLineDecodes(b: seq<byte>)
    requires |b| > 0
    ensures ParseBulkData(Encode(b), true) == Parsed([BinaryString(b)])
  {
    var e := Encode(b);
    assert Trim(e) == e && Split(e, '\n') == [e] by {
      NoSpaceInBase64(e);
      TrimFixesTrimmed(e);
      SplitEnds(e, '\n');
    }
    assert CleanLine(e, true) == BinaryString(b) by {
      AtobInvertsEncode(b);
    }
    assert ParseLines([e], true) == [BinaryString(b)] by {
      assert !IsBlank(e);
    }
    var r := ParseBulkData(e, true);
    assert !r.BlankInput? && !r.NoValidData?;
  }

  /** Base64 text holds neither whitespace nor line feeds. */
  lemma NoSpaceInBase64(e: string)
    requires IsPaddedBase64(e)
    ensures forall i :: 0 <= i < |e| ==> !IsJsWhitespace(e[i]) && e[i] != '\n'
  {
    forall i | 0 <= i < |e|
      ensures IsBase64Char(e[i]) || e[i] == '='
    {
      if !AllBase64(e) {
        if |e| >= 2 && AllBase64(e[..|e| - 2]) && e[|e| - 2..] == "==" {
          if i < |e| - 2 { assert e[..|e| - 2][i] == e[i]; } else { assert e[|e| - 2..][i - (|e| - 2)] == e[i]; }
        } else if i < |e| - 1 {
          assert e[..|e| - 1][i] == e[i];
        }
      }
    }
  }

  // ---------------------------------------------------------------------
  // Bulk add

  /** The component's own duplicate filter: a code is dropped when its
      13-character prefix is the brand of a displayed mark. Codes repeating
      each other inside the batch are not dropped here. */
  function PreFilter(parsed: seq<string>, shown: seq<ProductMarkDetail>): (r: seq<string>)
    ensures IsSubsequence(r, parsed)
    ensures forall c :: c in r <==> c in parsed && BulkBrand(c) !in BrandSet(shown)
    ensures forall c :: multiset(r)[c] == if BulkBrand(c) in BrandSet(shown) then 0 else multiset(parsed)[c]
  {
    FilterCounts(parsed, (c: string) => BulkBrand(c) !in BrandSet(shown));
    Filter(parsed, (c: string) => BulkBrand(c) !in BrandSet(shown))
  }

  datatype BulkOutcome =
    | NoData                      // "No data to add"
    | AllExist                    // "All provided marks already exist in the table"
    | AddedMarks(skipped: nat, shown: seq<ProductMarkDetail>, stored: seq<ProductMarkDetail>,
            added: seq<ProductMarkDetail>)

  /** `handleBulkAdd`: the preview is filtered against the displayed marks;
      when something is left it goes to the store's bulk add, whose new
      records are appended to the displayed list. `skipped` is the count
      the "Skipped … duplicate marks" notice reports (zero when no notice
      is shown). */
  method HandleBulkAdd(shown: seq<ProductMarkDetail>, store: seq<ProductMarkDetail>,
                       parsed: seq<string>, stamps: Stamps)
    returns (r: BulkOutcome)
    ensures r.NoData? <==> |parsed| == 0
    ensures r.AllExist? <==> |parsed| > 0 && forall c :: c in parsed ==> BulkBrand(c) in BrandSet(shown)
    ensures r.AddedMarks? ==>
              && r.skipped == |parsed| - |PreFilter(parsed, shown)|
              && (r.skipped > 0 <==> exists c :: c in parsed && BulkBrand(c) in BrandSet(shown))
              && r.shown == shown + r.added
              && r.stored == store + r.added
              && r.added == BulkMarks(KeptCodes(PreFilter(parsed, shown), BrandSet(store)), stamps)
              && (forall k :: 0 <= k < |r.added| ==>
                    r.added[k].brand !in BrandSet(shown) && r.added[k].brand !in BrandSet(store))
  {
    if |parsed| == 0 {
      return NoData;
    }
    var newCodes := PreFilter(parsed, shown);
    if |newCodes| == 0 {
      assert forall c :: c in parsed ==> BulkBrand(c) in BrandSet(shown);
      return AllExist;
    }
    assert newCodes[0] in newCodes;
    var stored, added := AddProductMarksBulk(store, newCodes, stamps);
    var kept := KeptCodes(newCodes, BrandSet(store));
    KeptCodesProperties(newCodes, BrandSet(store));
    forall k | 0 <= k < |added|
      ensures added[k].brand !in BrandSet(shown)
    {
      assert added[k].brand == BulkBrand(kept[k]);
      assert BulkBrand(kept[k]) in BulkBrands(kept);
      var j :| 0 <= j < |newCodes| && BulkBrand(newCodes[j]) == added[k].brand;
      assert newCodes[j] in newCodes;
    }
    r := AddedMarks(|parsed| - |newCodes|, shown + added, stored, added);
  }

  /** The component's filter lets a code pasted twice through; the store's
      bulk add then keeps only the first. */
  lemma RepeatedCodeKeptOnce(c: string, existing: set<string>, shown: seq<ProductMarkDetail>)
    requires BulkBrand(c) !in BrandSet(shown) && BulkBrand(c) !in existing
    ensures PreFilter([c, c], shown) == [c, c]
    ensures KeptCodes([c, c], existing) == [c]
  {
    assert [c, c][..1] == [c];
    assert [c][..0] == [];
  }

  // ---------------------------------------------------------------------
  // Inline edit, save, delete

  /** `handleEdit`: the editable fields of the row, copied into the edit
      buffer (id and creation time are not among them). */
  function EditData(m: ProductMarkDetail): (u: MarkUpdate)
    ensures u.id.None? && u.createdAt.None?
    ensures Merge(m, u) == m
  {
    MarkUpdate(None, Some(m.product), Some(m.barcode), Some(m.supplierCode),
               Some(m.brandType), Some(m.brand), Some(m.datamatrix), Some(m.status), None)
  }

  /** The displayed list after a successful save: every row with the id is
      replaced by the record the store returned. */
  function ReplaceById(shown: seq<ProductMarkDetail>, id: string, updated: ProductMarkDetail)
    : (r: seq<ProductMarkDetail>)
    ensures |r| == |shown|
    ensures forall i :: 0 <= i < |shown| ==> r[i] == if shown[i].id == id then updated else shown[i]
  {
    seq(|shown|, i requires 0 <= i < |shown| => if shown[i].id == id then updated else shown[i])
  }

  predicate UniqueIds(store: seq<ProductMarkDetail>) {
    forall i, j :: 0 <= i < j < |store| ==> store[i].id != store[j].id
  }

  datatype Lists = Lists(shown: seq<ProductMarkDetail>, stored: seq<ProductMarkDetail>)

  /** `handleSave`: the store merges the edits into the first record with
      the id; on success the displayed list is patched to match, and an
      unknown id changes neither list. */
  function HandleSave(shown: seq<ProductMarkDetail>, store: seq<ProductMarkDetail>, id: string, edits: MarkUpdate)
    : (r: Lists)
    ensures !HasId(store, id) ==> r == Lists(shown, store)
    ensures HasId(store, id) ==> r.stored == UpdateProductMark(store, id, edits).store
    ensures HasId(store, id) ==>
              UpdateProductMark(store, id, edits).mark.Some? &&
              r.shown == ReplaceById(shown, id, UpdateProductMark(store, id, edits).mark.value)
    ensures |r.shown| == |shown|
    ensures forall i :: 0 <= i < |shown| && shown[i].id != id ==> r.shown[i] == shown[i]
  {
    var u := UpdateProductMark(store, id, edits);
    match u.mark
    case None => Lists(shown, store)
    case Some(m) => Lists(ReplaceById(shown, id, m), u.store)
  }

  /** While the displayed list is the stored list and ids are unique, a save
      leaves the two equal. */
  lemma SaveKeepsListsInStep(store: seq<ProductMarkDetail>, id: string, edits: MarkUpdate)
    requires UniqueIds(store)
    ensures HandleSave(store, store, id, edits).shown == HandleSave(store, store, id, edits).stored
  {
    var u := UpdateProductMark(store, id, edits);
    if u.mark.Some? {
      var i :| 0 <= i < |store| && store[i].id == id
               && (forall j :: 0 <= j < i ==> store[j].id != id)
               && u.mark.value == Merge(store[i], edits)
               && u.store == store[i := u.mark.value];
      assert forall j :: 0 <= j < |store| && j != i ==> store[j].id != id;
    }
  }

  /** Saving a row whose edit buffer was never touched changes nothing. */
  lemma UntouchedSaveIsIdentity(store: seq<ProductMarkDetail>, i: nat)
    requires UniqueIds(store) && i < |store|
    ensures HandleSave(store, store, store[i].id, EditData(store[i])) == Lists(store, store)
  {
    var id := store[i].id;
    assert HasId(store, id);
    var u := UpdateProductMark(store, id, EditData(store[i]));
    var j :| 0 <= j < |store| && store[j].id == id
             && (forall k :: 0 <= k < j ==> store[k].id != id)
             && u.mark.value == Merge(store[j], EditData(store[i]))
             && u.store == store[j := u.mark.value];
    assert j == i;
    SaveKeepsListsInStep(store, id, EditData(store[i]));
  }

  /** `handleDelete`: when the store reports a deletion, the displayed list
      drops every row with the id as well. */
  function HandleDelete(shown: seq<ProductMarkDetail>, store: seq<ProductMarkDetail>, id: string): (r: Lists)
    ensures !HasId(store, id) ==> r == Lists(shown, store)
    ensures HasId(store, id) ==>
              && r.stored == DeleteProductMark(store, id).store
              && IsSubsequence(r.shown, shown)
              && (forall m :: multiset(r.shown)[m] == if m.id == id then 0 else multiset(shown)[m])
              && (forall m :: m in r.shown <==> m in shown && m.id != id)
              && (forall m :: m in r.stored <==> m in store && m.id != id)
  {
    var d := DeleteProductMark(store, id);
    if d.deleted then
      FilterCounts(shown, (m: ProductMarkDetail) => m.id != id);
      Lists(Filter(shown, (m: ProductMarkDetail) => m.id != id), d.store)
    else Lists(shown, store)
  }

  /** While the displayed list is the stored list, a delete leaves the two
      equal. */
  lemma DeleteKeepsListsInStep(store: seq<ProductMarkDetail>, id: string)
    ensures HandleDelete(store, store, id).shown == HandleDelete(store, store, id).stored
  {
  }

  // ---------------------------------------------------------------------
  // Cells

  /** `getBrandType`: the pending edit's type when this row is being edited
      and the buffer holds one of the two known names, else the record's. */
  function GetBrandType(editingRow: Option<string>, pendingType: Option<string>, mark: ProductMarkDetail)
    : (t: BrandType)
    ensures editingRow != Some(mark.id) ==> t == mark.brandType
    ensures (editingRow == Some(mark.id) && pendingType.Some? && BrandTypeFromName(pendingType.value).Some?)
              ==> t.Name() == pendingType.value
    ensures (pendingType.None? || BrandTypeFromName(pendingType.value).None?) ==> t == mark.brandType
  {
    if editingRow == Some(mark.id) && pendingType.Some? && pendingType.value != "" then
      BrandTypeFromName(pendingType.value).GetOr(mark.brandType)
    else mark.brandType
  }

  /** `toggleCodeVisibility`: the row's code image is shown if it was
      hidden and hidden if it was shown; other rows are unaffected. */
  function ToggleCodeVisibility(visible: set<string>, id: string): (r: set<string>)
    ensures id in r <==> id !in visible
    ensures forall x :: x != id ==> (x in r <==> x in visible)
  {
    if id in visible then visible - {id} else visible + {id}
  }

  /** Toggling the same row twice restores the visible set. */
  lemma ToggleTwice(visible: set<string>, id: string)
    ensures ToggleCodeVisibility(ToggleCodeVisibility(visible, id), id) == visible
  {
  }
}
