/** The record the whole application manages: one product mark (a
    regulatory tracking code attached to one unit of goods), with its two
    closed enumerations. */
module ProductMarks {
  import opened Wrappers

  /** The mark type: a simple mark rendered as a QR code, or a GS1 mark
      rendered as a DataMatrix code with group separators. */
  datatype BrandType = Kmdm | Kmchz {
    /** The literal the application stores and displays. */
    function Name(): string {
      match this
      case Kmdm => "КМДМ"
      case Kmchz => "КМЧЗ"
    }
  }

  /** The lifecycle state of a mark. */
  datatype MarkStatus = Retired | InCirculation | Broken {
    function Name(): string {
      match this
      case Retired => "Выбыла"
      case InCirculation => "В обороте"
      case Broken => "Сломана"
    }
  }

  /** `BRAND_TYPES`, the options of the mark-type selector. */
  const BrandTypes: seq<BrandType> := [Kmdm, Kmchz]

  /** `MARK_STATUSES`, the options of the status selector. */
  const MarkStatuses: seq<MarkStatus> := [Retired, InCirculation, Broken]

  /** The stored literal back to the mark type it names, if any. */
  function BrandTypeFromName(s: string): (r: Option<BrandType>)
    ensures r.Some? ==> r.value.Name() == s
    ensures r.None? <==> forall t: BrandType :: t.Name() != s
  {
    if s == Kmdm.Name() then Some(Kmdm)
    else if s == Kmchz.Name() then Some(Kmchz)
    else None
  }

  /** The stored literal back to the status it names, if any. */
  function MarkStatusFromName(s: string): (r: Option<MarkStatus>)
    ensures r.Some? ==> r.value.Name() == s
    ensures r.None? <==> forall t: MarkStatus :: t.Name() != s
  {
    if s == Retired.Name() then Some(Retired)
    else if s == InCirculation.Name() then Some(InCirculation)
    else if s == Broken.Name() then Some(Broken)
    else None
  }

  /** The selector lists enumerate each enumeration exactly once, and the
      literals of distinct values are distinct. */
  lemma EnumerationsAreExact()
    ensures |BrandTypes| == 2 && BrandTypes[0] != BrandTypes[1]
    ensures forall t: BrandType :: t in BrandTypes
    ensures |MarkStatuses| == 3
    ensures forall i, j :: 0 <= i < j < |MarkStatuses| ==> MarkStatuses[i] != MarkStatuses[j]
    ensures forall s: MarkStatus :: s in MarkStatuses
    ensures forall t: BrandType, u: BrandType :: t.Name() == u.Name() ==> t == u
    ensures forall s: MarkStatus, u: MarkStatus :: s.Name() == u.Name() ==> s == u
  {
    forall t: BrandType
      ensures t in BrandTypes
    {
      if t.Kmdm? { assert BrandTypes[0] == t; } else { assert BrandTypes[1] == t; }
    }
    forall s: MarkStatus
      ensures s in MarkStatuses
    {
      match s
      case Retired => assert MarkStatuses[0] == s;
      case InCirculation => assert MarkStatuses[1] == s;
      case Broken => assert MarkStatuses[2] == s;
    }
  }

  /** One stored mark (`ProductMarkDetail`). `brand` is the text the code
      image encodes and the key duplicates are detected by; `datamatrix`
      is the full code as entered. */
  datatype ProductMarkDetail = ProductMarkDetail(
    id: string,
    product: string,
    barcode: string,
    supplierCode: string,
    brandType: BrandType,
    brand: string,
    datamatrix: string,
    status: MarkStatus,
    createdAt: string)

  /** A mark before the store has given it an id and a creation time
      (`Omit<ProductMarkDetail, '_id' | 'createdAt'>`). */
  datatype MarkDraft = MarkDraft(
    product: string,
    barcode: string,
    supplierCode: string,
    brandType: BrandType,
    brand: string,
    datamatrix: string,
    status: MarkStatus)

  /** A set of field edits (`Partial<ProductMarkDetail>`): `None` leaves a
      field alone. */
  datatype MarkUpdate = MarkUpdate(
    id: Option<string>,
    product: Option<string>,
    barcode: Option<string>,
    supplierCode: Option<string>,
    brandType: Option<BrandType>,
    brand: Option<string>,
    datamatrix: Option<string>,
    status: Option<MarkStatus>,
    createdAt: Option<string>)

  const NoUpdate := MarkUpdate(None, None, None, None, None, None, None, None, None)

  /** `{ ...mark, ...updates }`: every field the update carries wins. */
  function Merge(m: ProductMarkDetail, u: MarkUpdate): ProductMarkDetail {
    ProductMarkDetail(
      u.id.GetOr(m.id), u.product.GetOr(m.product), u.barcode.GetOr(m.barcode),
      u.supplierCode.GetOr(m.supplierCode), u.brandType.GetOr(m.brandType),
      u.brand.GetOr(m.brand), u.datamatrix.GetOr(m.datamatrix),
      u.status.GetOr(m.status), u.createdAt.GetOr(m.createdAt))
  }

  /** The fields of a mark as `updates` would carry them. */
  function AsUpdate(m: ProductMarkDetail): MarkUpdate {
    MarkUpdate(Some(m.id), Some(m.product), Some(m.barcode), Some(m.supplierCode),
               Some(m.brandType), Some(m.brand), Some(m.datamatrix), Some(m.status),
               Some(m.createdAt))
  }

  /** Merging nothing is the identity; merging a whole mark replaces the
      record by that mark; merging twice with the same edits is merging once. */
  lemma MergeLaws(m: ProductMarkDetail, n: ProductMarkDetail, u: MarkUpdate)
    ensures Merge(m, NoUpdate) == m
    ensures Merge(m, AsUpdate(n)) == n
    ensures Merge(Merge(m, u), u) == Merge(m, u)
  {
  }
}
