/** The record store (`storage`): the mark list persisted under one key of
    the browser's local storage. Each operation reads the list, changes
    it and writes it back; here the list is a value and every operation
    returns the list it would write. */
module Storage {
  import opened Wrappers
  import opened Text
  import opened Seqs
  import opened ProductMarks
  import opened JsonCodec

  /** `getProductMarks`: the persisted text parsed, or the empty list when
      nothing (or the empty string) is stored or the text does not parse. */
  function GetProductMarks(raw: Option<string>, codec: MarkListCodec): (marks: seq<ProductMarkDetail>)
    ensures raw.None? || raw == Some("") ==> marks == []
    ensures raw.Some? && raw.value != "" && codec.parse(raw.value).None? ==> marks == []
    ensures raw.Some? && raw.value != "" && codec.parse(raw.value).Some? ==> marks == codec.parse(raw.value).value
  {
    match raw
    case None => []
    case Some(text) => if text == "" then [] else codec.parse(text).GetOr([])
  }

  /** `saveProductMarks`: the text written under the storage key. */
  function SaveProductMarks(marks: seq<ProductMarkDetail>, codec: MarkListCodec): Option<string> {
    Some(codec.stringify(marks))
  }

  /** `clearAll`: the key is removed. */
  function ClearAll(): Option<string> {
    None
  }

  /** After clearing, the store reads as empty. */
  lemma LoadAfterClear(codec: MarkListCodec)
    ensures GetProductMarks(ClearAll(), codec) == []
  {
  }

  /** Reading back what was saved gives the same list. */
  lemma LoadAfterSave(marks: seq<ProductMarkDetail>, codec: MarkListCodec)
    requires IsFaithful(codec)
    ensures GetProductMarks(SaveProductMarks(marks, codec), codec) == marks
  {
    assert codec.parse(codec.stringify(marks)) == Some(marks) && |codec.stringify(marks)| > 0;
  }

  predicate HasId(store: seq<ProductMarkDetail>, id: string) {
    exists j :: 0 <= j < |store| && store[j].id == id
  }

  /** The complete record a draft becomes once the store gives it an id
      and a creation time. */
  function WithIdentity(d: MarkDraft, id: string, createdAt: string): ProductMarkDetail {
    ProductMarkDetail(id, d.product, d.barcode, d.supplierCode, d.brandType, d.brand,
                      d.datamatrix, d.status, createdAt)
  }

  datatype Added = Added(store: seq<ProductMarkDetail>, mark: ProductMarkDetail)

  /** `addProductMark`: the draft, completed with the fresh `id` and
      `createdAt` the caller supplies, is appended and returned. */
  function AddProductMark(store: seq<ProductMarkDetail>, draft: MarkDraft, id: string, createdAt: string): (r: Added)
    ensures |r.store| == |store| + 1 && r.store[..|store|] == store && r.store[|store|] == r.mark
    ensures r.mark.id == id && r.mark.createdAt == createdAt
    ensures r.mark.product == draft.product && r.mark.barcode == draft.barcode
    ensures r.mark.supplierCode == draft.supplierCode && r.mark.brandType == draft.brandType
    ensures r.mark.brand == draft.brand && r.mark.datamatrix == draft.datamatrix
    ensures r.mark.status == draft.status
  {
    var m := WithIdentity(draft, id, createdAt);
    Added(store + [m], m)
  }

  /** `findIndex(mark => mark._id === id)`: the first position holding the id. */
  function FindIndex(store: seq<ProductMarkDetail>, id: string): (r: Option<nat>)
    ensures r.Some? ==> r.value < |store| && store[r.value].id == id
    ensures r.Some? ==> forall j :: 0 <= j < r.value ==> store[j].id != id
    ensures r.None? <==> !HasId(store, id)
    decreases |store|
  {
    if |store| == 0 then None
    else if store[0].id == id then Some(0)
    else match FindIndex(store[1..], id)
      case None => None
      case Some(i) => Some(i + 1)
  }

  datatype Updated = Updated(store: seq<ProductMarkDetail>, mark: Option<ProductMarkDetail>)

  /** `updateProductMark`: the first record with the id is merged with the
      edits and returned; an unknown id answers `null` and the store is
      not written. */
  function UpdateProductMark(store: seq<ProductMarkDetail>, id: string, updates: MarkUpdate): (r: Updated)
    ensures r.mark.None? <==> !HasId(store, id)
    ensures r.mark.None? ==> r.store == store
    ensures |r.store| == |store|
    ensures r.mark.Some? ==>
              exists i :: 0 <= i < |store| && store[i].id == id
                          && (forall j :: 0 <= j < i ==> store[j].id != id)
                          && r.mark.value == Merge(store[i], updates)
                          && r.store == store[i := r.mark.value]
  {
    match FindIndex(store, id)
    case None => Updated(store, None)
    case Some(i) =>
      var m := Merge(store[i], updates);
      Updated(store[i := m], Some(m))
  }

  datatype Deleted = Deleted(store: seq<ProductMarkDetail>, deleted: bool)

  /** `deleteProductMark`: every record with the id is dropped; the answer
      says whether there was one (when there was not, nothing is written). */
  function DeleteProductMark(store: seq<ProductMarkDetail>, id: string): (r: Deleted)
    ensures r.deleted <==> HasId(store, id)
    ensures !r.deleted ==> r.store == store
    ensures forall m :: m in r.store <==> m in store && m.id != id
    ensures IsSubsequence(r.store, store)
    ensures forall m :: multiset(r.store)[m] == if m.id == id then 0 else multiset(store)[m]
  {
    var kept := Filter(store, (m: ProductMarkDetail) => m.id != id);
    FilterCounts(store, (m: ProductMarkDetail) => m.id != id);
    if |kept| == |store| then
      assert forall j :: 0 <= j < |store| ==> store[j] in store;
      Deleted(store, false)
    else
      Deleted(kept, true)
  }

  /** Deleting the record just added with a new id restores the store. */
  lemma DeleteUndoesAdd(store: seq<ProductMarkDetail>, draft: MarkDraft, id: string, createdAt: string)
    requires !HasId(store, id)
    ensures DeleteProductMark(AddProductMark(store, draft, id, createdAt).store, id) == Deleted(store, true)
  {
    var p := (m: ProductMarkDetail) => m.id != id;
    var m := WithIdentity(draft, id, createdAt);
    FilterAppend(store, [m], p);
    assert forall x :: x in store ==> p(x) by {
      forall x | x in store
        ensures p(x)
      {
        var j :| 0 <= j < |store| && store[j] == x;
      }
    }
    assert Filter([m], p) == [];
    assert HasId(store + [m], id) by {
      assert (store + [m])[|store|].id == id;
    }
  }

  // ---------------------------------------------------------------------
  // Bulk add

  /** The brand a bulk-added code is filed under: `substring(0, 13)`. */
  function BulkBrand(code: string): string {
    Take(code, 13)
  }

  /** The brands already present in the store. */
  function BrandSet(store: seq<ProductMarkDetail>): set<string> {
    set m | m in store :: m.brand
  }

  /** Code `i` is the first of the batch to carry its brand, and that brand
      is not among `existing`. */
  predicate IsFirstNew(codes: seq<string>, existing: set<string>, i: int)
    requires 0 <= i < |codes|
  {
    BulkBrand(codes[i]) !in existing && forall j :: 0 <= j < i ==> BulkBrand(codes[j]) != BulkBrand(codes[i])
  }

  /** The codes of a batch that bulk add keeps: the first new code of each
      brand, in input order. */
  function KeptCodes(codes: seq<string>, existing: set<string>): (kept: seq<string>)
    ensures |kept| <= |codes|
    decreases |codes|
  {
    if |codes| == 0 then []
    else
      var n := |codes| - 1;
      KeptCodes(codes[..n], existing) + (if IsFirstNew(codes, existing, n) then [codes[n]] else [])
  }

  /** The brands of a list of codes. */
  function BulkBrands(codes: seq<string>): set<string> {
    set j | 0 <= j < |codes| :: BulkBrand(codes[j])
  }

  lemma BulkBrandsAppend(a: seq<string>, x: string)
    ensures BulkBrands(a + [x]) == BulkBrands(a) + {BulkBrand(x)}
  {
    var ax := a + [x];
    forall b | b in BulkBrands(ax)
      ensures b in BulkBrands(a) + {BulkBrand(x)}
    {
      var j :| 0 <= j < |ax| && BulkBrand(ax[j]) == b;
      if j < |a| { assert ax[j] == a[j]; }
    }
    forall b | b in BulkBrands(a)
      ensures b in BulkBrands(ax)
    {
      var j :| 0 <= j < |a| && BulkBrand(a[j]) == b;
      assert ax[j] == a[j];
    }
    assert BulkBrand(ax[|a|]) in BulkBrands(ax);
  }

  /** One more code of the batch: kept exactly when its brand is neither
      pre-existing nor carried by an earlier code. */
  lemma KeptCodesStep(codes: seq<string>, existing: set<string>, i: int)
    requires 0 <= i < |codes|
    ensures BulkBrands(codes[..i + 1]) == BulkBrands(codes[..i]) + {BulkBrand(codes[i])}
    ensures KeptCodes(codes[..i + 1], existing) ==
            KeptCodes(codes[..i], existing)
              + (if BulkBrand(codes[i]) !in existing + BulkBrands(codes[..i]) then [codes[i]] else [])
  {
    var pre := codes[..i + 1];
    assert pre[..i] == codes[..i];
    assert pre == codes[..i] + [codes[i]];
    BulkBrandsAppend(codes[..i], codes[i]);
    var brand := BulkBrand(codes[i]);
    if brand in BulkBrands(codes[..i]) {
      var j :| 0 <= j < i && BulkBrand(codes[..i][j]) == brand;
      assert BulkBrand(pre[j]) == brand;
    }
    if brand !in existing && !IsFirstNew(pre, existing, i) {
      var j :| 0 <= j < i && BulkBrand(pre[j]) == brand;
      assert BulkBrand(codes[..i][j]) in BulkBrands(codes[..i]);
    }
  }

  lemma {:induction false} IsSubsequenceExtend<T>(a: seq<T>, b: seq<T>, x: T, keep: bool)
    requires IsSubsequence(a, b)
    ensures IsSubsequence(a + (if keep then [x] else []), b + [x])
    decreases |b|
  {
    if |b| == 0 {
      assert |a| == 0;
      if keep { assert IsSubsequence([x][1..], [x][1..]); }
    } else if |a| > 0 && a[0] == b[0] && IsSubsequence(a[1..], b[1..]) {
      IsSubsequenceExtend(a[1..], b[1..], x, keep);
      assert (a + (if keep then [x] else []))[1..] == a[1..] + (if keep then [x] else []);
      assert (b + [x])[1..] == b[1..] + [x];
    } else if |a| > 0 {
      IsSubsequenceExtend(a, b[1..], x, keep);
      assert (b + [x])[1..] == b[1..] + [x];
    } else if keep {
      assert IsSubsequence([x], [x]) by { assert IsSubsequence([x][1..], [x][1..]); }
      IsSubsequenceSkipPrefix([x], b, [x]);
      assert a + [x] == [x];
    }
  }

  lemma {:induction false} IsSubsequenceSkipPrefix<T>(a: seq<T>, p: seq<T>, b: seq<T>)
    requires IsSubsequence(a, b)
    ensures IsSubsequence(a, p + b)
    decreases |p|
  {
    if |p| > 0 {
      IsSubsequenceSkipPrefix(a, p[1..], b);
      assert (p + b)[1..] == p[1..] + b;
    } else {
      assert p + b == b;
    }
  }

  /** What bulk add promises of the codes `kept` from a batch `codes`: they
      are in input order, each has a brand the store did not have, no two
      share a brand, and every brand of the batch ends up either
      pre-existing or carried by a kept code. */
  ghost predicate KeptWell(codes: seq<string>, existing: set<string>, kept: seq<string>) {
    && IsSubsequence(kept, codes)
    && (forall k :: 0 <= k < |kept| ==> BulkBrand(kept[k]) !in existing)
    && (forall k, l :: 0 <= k < l < |kept| ==> BulkBrand(kept[k]) != BulkBrand(kept[l]))
    && BulkBrands(codes) <= existing + BulkBrands(kept)
    && BulkBrands(kept) <= BulkBrands(codes)
  }

  /** Appending a code whose brand is new keeps the promise when the code
      is kept. */
  lemma KeptWellKeep(codes: seq<string>, existing: set<string>, kept: seq<string>, x: string)
    requires KeptWell(codes, existing, kept)
    requires BulkBrand(x) !in existing + BulkBrands(codes)
    ensures KeptWell(codes + [x], existing, kept + [x])
  {
    IsSubsequenceExtend(kept, codes, x, true);
    BulkBrandsAppend(codes, x);
    BulkBrandsAppend(kept, x);
    var ky := kept + [x];
    forall k | 0 <= k < |kept|
      ensures BulkBrand(ky[k]) != BulkBrand(ky[|kept|])
    {
      assert ky[k] == kept[k];
      assert BulkBrand(kept[k]) in BulkBrands(kept);
    }
  }

  /** Appending a code whose brand is already known keeps the promise when
      the code is dropped. */
  lemma KeptWellSkip(codes: seq<string>, existing: set<string>, kept: seq<string>, x: string)
    requires KeptWell(codes, existing, kept)
    requires BulkBrand(x) in existing + BulkBrands(codes)
    ensures KeptWell(codes + [x], existing, kept)
  {
    IsSubsequenceExtend(kept, codes, x, false);
    assert kept + [] == kept;
    BulkBrandsAppend(codes, x);
  }

  /** Bulk add keeps codes in input order, each with a brand the store did
      not have, no two with the same brand; every brand of the batch ends
      up either pre-existing or carried by a kept code. */
  lemma {:induction false} KeptCodesProperties(codes: seq<string>, existing: set<string>)
    ensures IsSubsequence(KeptCodes(codes, existing), codes)
    ensures forall k :: 0 <= k < |KeptCodes(codes, existing)| ==>
              BulkBrand(KeptCodes(codes, existing)[k]) !in existing
    ensures forall k, l :: 0 <= k < l < |KeptCodes(codes, existing)| ==>
              BulkBrand(KeptCodes(codes, existing)[k]) != BulkBrand(KeptCodes(codes, existing)[l])
    ensures BulkBrands(codes) <= existing + BulkBrands(KeptCodes(codes, existing))
    ensures BulkBrands(KeptCodes(codes, existing)) <= BulkBrands(codes)
    decreases |codes|
  {
    assert KeptWell(codes, existing, KeptCodes(codes, existing)) by {
      KeptCodesWell(codes, existing);
    }
  }

  lemma {:induction false} KeptCodesWell(codes: seq<string>, existing: set<string>)
    ensures KeptWell(codes, existing, KeptCodes(codes, existing))
    decreases |codes|
  {
    if |codes| == 0 {
      assert BulkBrands(codes) == {};
      assert IsSubsequence<string>([], []);
    } else {
      var n := |codes| - 1;
      KeptCodesWell(codes[..n], existing);
      KeptCodesStep(codes, existing, n);
      assert codes[..n + 1] == codes == codes[..n] + [codes[n]];
      KeptWellStep(codes[..n], existing, KeptCodes(codes[..n], existing), codes[n]);
    }
  }

  /** Appending a code keeps the promise: the code is kept exactly when its
      brand is new. */
  lemma KeptWellStep(codes: seq<string>, existing: set<string>, kept: seq<string>, x: string)
    requires KeptWell(codes, existing, kept)
    ensures KeptWell(codes + [x], existing,
                     kept + (if BulkBrand(x) !in existing + BulkBrands(codes) then [x] else []))
  {
    if BulkBrand(x) !in existing + BulkBrands(codes) {
      KeptWellKeep(codes, existing, kept, x);
    } else {
      assert kept + [] == kept;
      KeptWellSkip(codes, existing, kept, x);
    }
  }

  /** A code is kept exactly when it is the first new code of its brand. */
  lemma {:induction false} KeptCodesAreFirstNew(codes: seq<string>, existing: set<string>)
    ensures forall i :: 0 <= i < |codes| && IsFirstNew(codes, existing, i) ==> codes[i] in KeptCodes(codes, existing)
    ensures forall x :: x in KeptCodes(codes, existing) ==>
              exists i :: 0 <= i < |codes| && IsFirstNew(codes, existing, i) && codes[i] == x
    decreases |codes|
  {
    if |codes| > 0 {
      var n := |codes| - 1;
      var pre := codes[..n];
      var prev := KeptCodes(pre, existing);
      KeptCodesAreFirstNew(pre, existing);
      forall i | 0 <= i < n
        ensures IsFirstNew(codes, existing, i) <==> IsFirstNew(pre, existing, i)
      {
        assert forall j :: 0 <= j <= i ==> pre[j] == codes[j];
      }
      if IsFirstNew(codes, existing, n) {
        assert KeptCodes(codes, existing) == prev + [codes[n]];
      } else {
        assert KeptCodes(codes, existing) == prev by { assert prev + [] == prev; }
      }
    }
  }

  lemma {:induction false} NoFirstNewKeepsNothing(codes: seq<string>, existing: set<string>)
    requires forall i :: 0 <= i < |codes| ==> !IsFirstNew(codes, existing, i)
    ensures KeptCodes(codes, existing) == []
    decreases |codes|
  {
    if |codes| > 0 {
      var n := |codes| - 1;
      var pre := codes[..n];
      forall i | 0 <= i < n
        ensures !IsFirstNew(pre, existing, i)
      {
        assert forall j :: 0 <= j <= i ==> pre[j] == codes[j];
        assert !IsFirstNew(codes, existing, i);
      }
      NoFirstNewKeepsNothing(pre, existing);
    }
  }

  /** Feeding the same batch again, against a store that now holds what
      the first run added, adds nothing. */
  lemma BulkAddIsIdempotent(codes: seq<string>, existing: set<string>)
    ensures KeptCodes(codes, existing + BulkBrands(KeptCodes(codes, existing))) == []
  {
    var again := existing + BulkBrands(KeptCodes(codes, existing));
    KeptCodesProperties(codes, existing);
    KeptCodesAreFirstNew(codes, again);
    forall i | 0 <= i < |codes|
      ensures !IsFirstNew(codes, again, i)
    {
      assert BulkBrand(codes[i]) in BulkBrands(codes);
    }
    NoFirstNewKeepsNothing(codes, again);
  }

  /** The fresh ids and creation times the browser would generate, by the
      position of the new record in the batch. */
  datatype Stamps = Stamps(ids: nat -> string, times: nat -> string)

  /** The record bulk add makes of a kept code: the code is the datamatrix,
      its first 13 characters the brand, type КМДМ, status "В обороте",
      and empty product, barcode and supplier code. */
  function NewBulkMark(code: string, id: string, createdAt: string): ProductMarkDetail {
    ProductMarkDetail(id, "", "", "", Kmdm, BulkBrand(code), code, InCirculation, createdAt)
  }

  function BulkMarks(kept: seq<string>, stamps: Stamps): (r: seq<ProductMarkDetail>)
    ensures |r| == |kept|
  {
    seq(|kept|, k requires 0 <= k < |kept| => NewBulkMark(kept[k], stamps.ids(k), stamps.times(k)))
  }

  lemma BulkMarksAppend(kept: seq<string>, code: string, stamps: Stamps)
    ensures BulkMarks(kept + [code], stamps)
            == BulkMarks(kept, stamps) + [NewBulkMark(code, stamps.ids(|kept|), stamps.times(|kept|))]
  {
  }

  /** The records made of codes with new, pairwise distinct brands carry
      those brands, the batch positions' stamps and the fixed fields. */
  lemma BulkMarksFields(kept: seq<string>, existing: set<string>, stamps: Stamps)
    requires forall k :: 0 <= k < |kept| ==> BulkBrand(kept[k]) !in existing
    requires forall k, l :: 0 <= k < l < |kept| ==> BulkBrand(kept[k]) != BulkBrand(kept[l])
    ensures forall k :: 0 <= k < |kept| ==>
              && BulkMarks(kept, stamps)[k].brand == Take(BulkMarks(kept, stamps)[k].datamatrix, 13)
              && BulkMarks(kept, stamps)[k].brand !in existing
              && BulkMarks(kept, stamps)[k].brandType == Kmdm
              && BulkMarks(kept, stamps)[k].status == InCirculation
              && BulkMarks(kept, stamps)[k].product == ""
              && BulkMarks(kept, stamps)[k].barcode == ""
              && BulkMarks(kept, stamps)[k].supplierCode == ""
              && BulkMarks(kept, stamps)[k].id == stamps.ids(k)
              && BulkMarks(kept, stamps)[k].createdAt == stamps.times(k)
    ensures forall k, l :: 0 <= k < l < |kept| ==>
              BulkMarks(kept, stamps)[k].brand != BulkMarks(kept, stamps)[l].brand
  {
    forall k | 0 <= k < |kept|
      ensures BulkMarks(kept, stamps)[k] == NewBulkMark(kept[k], stamps.ids(k), stamps.times(k))
    {
    }
  }

  /** `addProductMarksBulk`: walks the batch with the set of brands seen so
      far, seeded with the store's brands, appends a new record for every
      code whose 13-character prefix is not yet in the set, and returns the
      new records. */
  method AddProductMarksBulk(store: seq<ProductMarkDetail>, codes: seq<string>, stamps: Stamps)
    returns (stored: seq<ProductMarkDetail>, added: seq<ProductMarkDetail>)
    ensures stored == store + added
    ensures added == BulkMarks(KeptCodes(codes, BrandSet(store)), stamps)
    ensures forall k :: 0 <= k < |added| ==>
              && added[k].brand == Take(added[k].datamatrix, 13)
              && added[k].brand !in BrandSet(store)
              && added[k].brandType == Kmdm && added[k].status == InCirculation
              && added[k].product == "" && added[k].barcode == "" && added[k].supplierCode == ""
              && added[k].id == stamps.ids(k) && added[k].createdAt == stamps.times(k)
    ensures forall k, l :: 0 <= k < l < |added| ==> added[k].brand != added[l].brand
  {
    var existing := BrandSet(store);
    var seen := existing;
    var kept: seq<string> := [];
    added := [];
    var i := 0;
    while i < |codes|
      invariant 0 <= i <= |codes|
      invariant seen == existing + BulkBrands(codes[..i])
      invariant kept == KeptCodes(codes[..i], existing)
      invariant added == BulkMarks(kept, stamps)
    {
      var brand := BulkBrand(codes[i]);
      KeptCodesStep(codes, existing, i);
      if brand !in seen {
        BulkMarksAppend(kept, codes[i], stamps);
        added := added + [NewBulkMark(codes[i], stamps.ids(|kept|), stamps.times(|kept|))];
        kept := kept + [codes[i]];
        seen := seen + {brand};
      }
      i := i + 1;
    }
    assert codes[..i] == codes;
    stored := store + added;
    KeptCodesProperties(codes, existing);
    BulkMarksFields(kept, existing, stamps);
  }
}
