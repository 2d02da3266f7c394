/** The column-settings dialog of the marks table: which of the seven
    columns are shown and how wide the brand column is, edited in a local
    copy and handed to the table on save. */
module TableSettings {

  /** The seven columns that can be hidden. */
  datatype Column = Product | Barcode | SupplierCode | BrandType | Brand | Datamatrix | Status

  const Columns: seq<Column> := [Product, Barcode, SupplierCode, BrandType, Brand, Datamatrix, Status]

  /** The position of a column in `Columns`. */
  function Position(c: Column): (i: nat)
    ensures i < |Columns| && Columns[i] == c
  {
    match c
    case Product => 0
    case Barcode => 1
    case SupplierCode => 2
    case BrandType => 3
    case Brand => 4
    case Datamatrix => 5
    case Status => 6
  }

  lemma ColumnsAreExact()
    ensures forall c: Column :: c in Columns
    ensures forall i, j :: 0 <= i < j < |Columns| ==> Columns[i] != Columns[j]
  {
    forall c: Column ensures c in Columns {
      assert Columns[Position(c)] == c;
    }
  }

  datatype Settings = Settings(
    showProduct: bool,
    showBarcode: bool,
    showSupplierCode: bool,
    showBrandType: bool,
    showBrand: bool,
    showDatamatrix: bool,
    showStatus: bool,
    brandColumnWidth: int)
  {
    function Shows(c: Column): bool {
      match c
      case Product => showProduct
      case Barcode => showBarcode
      case SupplierCode => showSupplierCode
      case BrandType => showBrandType
      case Brand => showBrand
      case Datamatrix => showDatamatrix
      case Status => showStatus
    }
  }

  /** Every column shown and a 200-wide brand column. */
  const Defaults: Settings := Settings(true, true, true, true, true, true, true, 200)

  lemma DefaultsShowEverything()
    ensures forall c: Column :: Defaults.Shows(c)
    ensures Defaults.brandColumnWidth == 200
  {
  }

  /** `handleToggleColumn`: flip one column's flag. */
  function ToggleColumn(s: Settings, c: Column): (r: Settings)
    ensures r.Shows(c) == !s.Shows(c)
    ensures forall d: Column :: d != c ==> r.Shows(d) == s.Shows(d)
    ensures r.brandColumnWidth == s.brandColumnWidth
  {
    match c
    case Product => s.(showProduct := !s.showProduct)
    case Barcode => s.(showBarcode := !s.showBarcode)
    case SupplierCode => s.(showSupplierCode := !s.showSupplierCode)
    case BrandType => s.(showBrandType := !s.showBrandType)
    case Brand => s.(showBrand := !s.showBrand)
    case Datamatrix => s.(showDatamatrix := !s.showDatamatrix)
    case Status => s.(showStatus := !s.showStatus)
  }

  /** Two settings that agree on every column and on the width are equal. */
  lemma SettingsExtensionality(a: Settings, b: Settings)
    requires forall c: Column :: a.Shows(c) == b.Shows(c)
    requires a.brandColumnWidth == b.brandColumnWidth
    ensures a == b
  {
    assert a.Shows(Product) == b.Shows(Product);
    assert a.Shows(Barcode) == b.Shows(Barcode);
    assert a.Shows(SupplierCode) == b.Shows(SupplierCode);
    assert a.Shows(BrandType) == b.Shows(BrandType);
    assert a.Shows(Brand) == b.Shows(Brand);
    assert a.Shows(Datamatrix) == b.Shows(Datamatrix);
    assert a.Shows(Status) == b.Shows(Status);
  }

  lemma ToggleColumnTwice(s: Settings, c: Column)
    ensures ToggleColumn(ToggleColumn(s, c), c) == s
  {
    var t := ToggleColumn(s, c);
    var r := ToggleColumn(t, c);
    forall d: Column ensures r.Shows(d) == s.Shows(d) {
      if d != c {
        assert r.Shows(d) == t.Shows(d) == s.Shows(d);
      }
    }
    SettingsExtensionality(r, s);
  }

  /** `Math.max(50, Math.min(500, width))`. */
  function ClampWidth(width: int): (w: int)
    ensures 50 <= w <= 500
    ensures 50 <= width <= 500 ==> w == width
    ensures width < 50 ==> w == 50
    ensures width > 500 ==> w == 500
  {
    if 500 < width then 500 else if width < 50 then 50 else width
  }

  lemma ClampIdempotent(width: int)
    ensures ClampWidth(ClampWidth(width)) == ClampWidth(width)
  {
  }

  /** `handleWidthChange`: set the clamped width, keep the columns. */
  function ChangeWidth(s: Settings, width: int): (r: Settings)
    ensures forall c: Column :: r.Shows(c) == s.Shows(c)
    ensures 50 <= r.brandColumnWidth <= 500
    ensures 50 <= width <= 500 ==> r.brandColumnWidth == width
  {
    s.(brandColumnWidth := ClampWidth(width))
  }

  function CountShown(s: Settings, cs: seq<Column>): (n: nat)
    ensures n <= |cs|
  {
    if |cs| == 0 then 0
    else (if s.Shows(cs[0]) then 1 else 0) + CountShown(s, cs[1..])
  }

  /** `visibleColumnsCount`: how many of the seven flags are set. */
  function VisibleCount(s: Settings): (n: nat)
    ensures n <= 7
    ensures n == 7 <==> forall c: Column :: s.Shows(c)
    ensures n == 0 <==> forall c: Column :: !s.Shows(c)
  {
    CountAll(s);
    CountShown(s, Columns)
  }

  lemma CountAll(s: Settings)
    ensures CountShown(s, Columns) == 7 <==> forall c: Column :: s.Shows(c)
    ensures CountShown(s, Columns) == 0 <==> forall c: Column :: !s.Shows(c)
  {
    CountEvery(s, Columns);
    if CountShown(s, Columns) == 7 {
      forall c: Column ensures s.Shows(c) {
        assert s.Shows(Columns[Position(c)]);
      }
    }
    if CountShown(s, Columns) == 0 {
      forall c: Column ensures !s.Shows(c) {
        assert !s.Shows(Columns[Position(c)]);
      }
    }
  }

  lemma {:induction false} CountEvery(s: Settings, cs: seq<Column>)
    ensures CountShown(s, cs) == |cs| <==> forall i :: 0 <= i < |cs| ==> s.Shows(cs[i])
    ensures CountShown(s, cs) == 0 <==> forall i :: 0 <= i < |cs| ==> !s.Shows(cs[i])
  {
    if |cs| > 0 {
      CountEvery(s, cs[1..]);
      assert forall i :: 1 <= i < |cs| ==> cs[i] == cs[1..][i - 1];
    }
  }

  /** Toggling a column moves the visible count by exactly one. */
  lemma {:induction false} ToggleMovesCountByOne(s: Settings, c: Column)
    ensures s.Shows(c) ==> VisibleCount(ToggleColumn(s, c)) == VisibleCount(s) - 1
    ensures !s.Shows(c) ==> VisibleCount(ToggleColumn(s, c)) == VisibleCount(s) + 1
  {
    ColumnsAreExact();
    ToggleCount(s, c, Columns);
  }

  lemma ToggleCount(s: Settings, c: Column, cs: seq<Column>)
    requires forall i, j :: 0 <= i < j < |cs| ==> cs[i] != cs[j]
    ensures c !in cs ==> CountShown(ToggleColumn(s, c), cs) == CountShown(s, cs)
    ensures c in cs && s.Shows(c) ==> CountShown(ToggleColumn(s, c), cs) == CountShown(s, cs) - 1
    ensures c in cs && !s.Shows(c) ==> CountShown(ToggleColumn(s, c), cs) == CountShown(s, cs) + 1
  {
    CountDiffersAt(s, ToggleColumn(s, c), c, cs);
  }

  /** Two settings that differ in column `c` only have counts one apart
      on any list of distinct columns holding `c`, and equal counts on any
      list without it. */
  lemma {:induction false} CountDiffersAt(s: Settings, r: Settings, c: Column, cs: seq<Column>)
    requires forall i, j :: 0 <= i < j < |cs| ==> cs[i] != cs[j]
    requires r.Shows(c) == !s.Shows(c)
    requires forall d: Column :: d != c ==> r.Shows(d) == s.Shows(d)
    ensures c !in cs ==> CountShown(r, cs) == CountShown(s, cs)
    ensures c in cs && s.Shows(c) ==> CountShown(r, cs) == CountShown(s, cs) - 1
    ensures c in cs && !s.Shows(c) ==> CountShown(r, cs) == CountShown(s, cs) + 1
    decreases |cs|
  {
    if |cs| > 0 {
      DistinctTail(cs, c);
      CountDiffersAt(s, r, c, cs[1..]);
      CountDiffersStep(s, r, c, cs);
    }
  }

  /** The tail of a list of distinct columns is distinct, and holds `c`
      exactly when the list does and `c` is not its head. */
  lemma DistinctTail(cs: seq<Column>, c: Column)
    requires |cs| > 0
    requires forall i, j :: 0 <= i < j < |cs| ==> cs[i] != cs[j]
    ensures forall i, j :: 0 <= i < j < |cs[1..]| ==> cs[1..][i] != cs[1..][j]
    ensures c in cs[1..] <==> c in cs && c != cs[0]
  {
    var tail := cs[1..];
    forall i, j | 0 <= i < j < |tail| ensures tail[i] != tail[j] {
      assert tail[i] == cs[i + 1] && tail[j] == cs[j + 1];
    }
    assert forall i :: 1 <= i < |cs| ==> cs[i] == tail[i - 1];
    assert forall x :: x in cs <==> x == cs[0] || x in tail;
  }

  lemma CountDiffersStep(s: Settings, r: Settings, c: Column, cs: seq<Column>)
    requires |cs| > 0
    requires r.Shows(c) == !s.Shows(c)
    requires forall d: Column :: d != c ==> r.Shows(d) == s.Shows(d)
    requires c in cs[1..] <==> c in cs && c != cs[0]
    requires c !in cs[1..] ==> CountShown(r, cs[1..]) == CountShown(s, cs[1..])
    requires c in cs[1..] && s.Shows(c) ==> CountShown(r, cs[1..]) == CountShown(s, cs[1..]) - 1
    requires c in cs[1..] && !s.Shows(c) ==> CountShown(r, cs[1..]) == CountShown(s, cs[1..]) + 1
    ensures c !in cs ==> CountShown(r, cs) == CountShown(s, cs)
    ensures c in cs && s.Shows(c) ==> CountShown(r, cs) == CountShown(s, cs) - 1
    ensures c in cs && !s.Shows(c) ==> CountShown(r, cs) == CountShown(s, cs) + 1
  {
    assert c in cs <==> c == cs[0] || c in cs[1..];
    var head := if s.Shows(cs[0]) then 1 else 0;
    assert CountShown(s, cs) == head + CountShown(s, cs[1..]);
    if cs[0] == c {
      assert CountShown(r, cs) == 1 - head + CountShown(r, cs[1..]);
    } else {
      assert r.Shows(cs[0]) == s.Shows(cs[0]);
      assert CountShown(r, cs) == head + CountShown(r, cs[1..]);
    }
  }

  /** The dialog: the settings being edited, the settings the table uses
      and whether the dialog is open. */
  datatype Dialog = Dialog(local: Settings, applied: Settings, open: bool)

  /** `TableSettings.tsx:44-52` and `59-61`: editing inside the dialog. */
  datatype Edit = Toggle(column: Column) | Width(width: int) | Reset

  function ApplyEdit(d: Dialog, e: Edit): (r: Dialog)
    ensures r.applied == d.applied && r.open == d.open
    ensures e.Reset? ==> r.local == Defaults
    ensures e.Toggle? ==> r.local == ToggleColumn(d.local, e.column)
    ensures e.Width? ==> r.local == ChangeWidth(d.local, e.width)
  {
    match e
    case Toggle(c) => d.(local := ToggleColumn(d.local, c))
    case Width(w) => d.(local := ChangeWidth(d.local, w))
    case Reset => d.(local := Defaults)
  }

  function ApplyEdits(d: Dialog, es: seq<Edit>): Dialog
    decreases |es|
  {
    if |es| == 0 then d else ApplyEdits(ApplyEdit(d, es[0]), es[1..])
  }

  /** No sequence of edits changes what the table uses. */
  lemma {:induction false} EditsStayLocal(d: Dialog, es: seq<Edit>)
    ensures ApplyEdits(d, es).applied == d.applied
    ensures ApplyEdits(d, es).open == d.open
    decreases |es|
  {
    if |es| > 0 {
      EditsStayLocal(ApplyEdit(d, es[0]), es[1..]);
    }
  }

  /** `handleSave`: hand the local settings to the table and close. */
  function Save(d: Dialog): (r: Dialog)
    ensures r.applied == d.local && r.local == d.local && !r.open
  {
    Dialog(d.local, d.local, false)
  }

  /** The effect at `TableSettings.tsx:40-42`: new settings from the table replace the
      local copy, discarding unsaved edits. */
  function ExternalChange(d: Dialog, settings: Settings): (r: Dialog)
    ensures r.local == settings && r.applied == settings && r.open == d.open
  {
    Dialog(settings, settings, d.open)
  }

  /** Edits then a save apply exactly the edited settings. */
  lemma SaveAppliesEdits(d: Dialog, es: seq<Edit>)
    ensures Save(ApplyEdits(d, es)).applied == ApplyEdits(d, es).local
    ensures (ApplyEdits(d, es + [Reset])).local == Defaults
  {
    ApplyEditsAppend(d, es, [Reset]);
  }

  lemma {:induction false} ApplyEditsAppend(d: Dialog, a: seq<Edit>, b: seq<Edit>)
    ensures ApplyEdits(d, a + b) == ApplyEdits(ApplyEdits(d, a), b)
    decreases |a|
  {
    if |a| > 0 {
      assert (a + b)[1..] == a[1..] + b;
      ApplyEditsAppend(ApplyEdit(d, a[0]), a[1..], b);
    } else {
      assert a + b == b;
    }
  }
}
