/** The two printable reports (`PDFExportService`): a landscape summary
    table and a portrait list with each mark's code text. Drawing calls are
    not modelled; what is modelled is the text of each cell and line and
    where on which page each row or item lands. */
module PdfExport {
  import opened Text
  import opened ProductMarks

  /** `value || fallback` for a string field: an empty value is replaced
      by the fallback (`'-'` in the summary table, `'N/A'` in the detailed
      list). */
  function OrElse(value: string, fallback: string): (r: string)
    requires fallback != ""
    ensures r != ""
    ensures value != "" ==> r == value
    ensures value == "" ==> r == fallback
  {
    if value == "" then fallback else value
  }

  /** A brand cut to `n` characters with `...` appended when it was
      longer: `pdfExport.ts:36` with `n = 20`, `pdfExport.ts:145` with `n = 30`. */
  function Ellipsize(brand: string, n: nat): (r: string)
    ensures |brand| <= n ==> r == brand
    ensures |brand| > n ==> |r| == n + 3 && r[..n] == brand[..n] && r[n..] == "..."
  {
    Take(brand, n) + (if |brand| > n then "..." else "")
  }

  /** `pdfExport.ts:145` spells the cut differently from `pdfExport.ts:36`; both give the same. */
  lemma EllipsizeSpellings(brand: string)
    ensures (if |brand| > 30 then Take(brand, 30) + "..." else brand) == Ellipsize(brand, 30)
  {
  }

  /** `pdfExport.ts:31-39`: the cells of one summary row. Dates are formatted by the
      browser's locale, passed in as `formatDate`. */
  function SummaryRow(m: ProductMarkDetail, formatDate: string -> string): (row: seq<string>)
    ensures |row| == 7
    ensures forall i :: 0 <= i < 7 ==> row[i] != "" || (i == 4 && m.brand == "") || i == 6
    ensures row[0] == OrElse(m.product, "-") && row[1] == OrElse(m.barcode, "-")
    ensures row[2] == OrElse(m.supplierCode, "-")
    ensures row[3] == m.brandType.Name() && row[5] == m.status.Name()
    ensures row[4] == Ellipsize(m.brand, 20) && |row[4]| <= 23
    ensures row[6] == formatDate(m.createdAt)
  {
    [OrElse(m.product, "-"), OrElse(m.barcode, "-"), OrElse(m.supplierCode, "-"), m.brandType.Name(),
     Ellipsize(m.brand, 20), m.status.Name(), formatDate(m.createdAt)]
  }

  /** `pdfExport.ts:135-146`: the text lines of one detailed item. */
  function DetailedLines(m: ProductMarkDetail): (lines: seq<string>)
    ensures |lines| == 6
    ensures lines[0] == "Product: " + OrElse(m.product, "N/A")
    ensures lines[1] == "Barcode: " + OrElse(m.barcode, "N/A")
    ensures lines[2] == "Supplier Code: " + OrElse(m.supplierCode, "N/A")
    ensures lines[3] == "Brand Type: " + m.brandType.Name()
    ensures lines[4] == "Status: " + m.status.Name()
    ensures lines[5] == "Brand: " + Ellipsize(m.brand, 30)
  {
    ["Product: " + OrElse(m.product, "N/A"),
     "Barcode: " + OrElse(m.barcode, "N/A"),
     "Supplier Code: " + OrElse(m.supplierCode, "N/A"),
     "Brand Type: " + m.brandType.Name(),
     "Status: " + m.status.Name(),
     "Brand: " + Ellipsize(m.brand, 30)]
  }

  /** The summary row and the detailed item show the same fields: a
      non-empty field as it is, an empty one as `-` in the row and `N/A` in
      the item; a brand of up to 20 characters in full in both, one of 21
      to 30 cut in the row only. */
  lemma SummaryAndDetailAgree(m: ProductMarkDetail, formatDate: string -> string)
    ensures var row := SummaryRow(m, formatDate);
            var lines := DetailedLines(m);
            && (m.product != "" ==> row[0] == m.product && lines[0] == "Product: " + m.product)
            && (m.product == "" ==> row[0] == "-" && lines[0] == "Product: N/A")
            && (m.barcode != "" ==> row[1] == m.barcode && lines[1] == "Barcode: " + m.barcode)
            && (m.barcode == "" ==> row[1] == "-" && lines[1] == "Barcode: N/A")
            && (m.supplierCode != "" ==> row[2] == m.supplierCode && lines[2] == "Supplier Code: " + m.supplierCode)
            && (m.supplierCode == "" ==> row[2] == "-" && lines[2] == "Supplier Code: N/A")
            && (|m.brand| <= 20 ==> row[4] == m.brand && lines[5] == "Brand: " + m.brand)
            && (20 < |m.brand| <= 30 ==>
                  row[4] == m.brand[..20] + "..." && lines[5] == "Brand: " + m.brand)
  {
    var row := SummaryRow(m, formatDate);
    if 20 < |m.brand| {
      assert row[4] == row[4][..20] + row[4][20..];
    }
  }

  // ---------------------------------------------------------------------
  // Code text split into lines

  /** `pdfExport.ts:154`: the width of one printed line of code text. */
  const LineWidth: nat := 25

  /** `pdfExport.ts:153-158`: the code text in consecutive pieces of `LineWidth`
      characters. */
  function Chunks(s: string): (pieces: seq<string>)
    ensures forall k :: 0 <= k < |pieces| ==> 0 < |pieces[k]| <= LineWidth
    ensures forall k :: 0 <= k < |pieces| - 1 ==> |pieces[k]| == LineWidth
    ensures |pieces| == (|s| + LineWidth - 1) / LineWidth
    decreases |s|
  {
    if |s| == 0 then []
    else if |s| <= LineWidth then [s]
    else [s[..LineWidth]] + Chunks(s[LineWidth..])
  }

  function Concat(pieces: seq<string>): string
    decreases |pieces|
  {
    if |pieces| == 0 then "" else pieces[0] + Concat(pieces[1..])
  }

  /** The pieces put back together are the code text. */
  lemma {:induction false} ChunksConcat(s: string)
    ensures Concat(Chunks(s)) == s
    decreases |s|
  {
    if |s| > LineWidth {
      ChunksConcat(s[LineWidth..]);
      assert s[..LineWidth] + s[LineWidth..] == s;
    }
  }

  /** The first `k` pieces (or all, when there are fewer) spell the first
      `k` lines' worth of the code text. */
  lemma {:induction false} FirstPieces(s: string, k: nat)
    ensures Concat(Chunks(s)[..if k < |Chunks(s)| then k else |Chunks(s)|]) == Take(s, LineWidth * k)
    decreases k
  {
    if k == 0 || |s| == 0 {
      assert Chunks(s)[..0] == [];
    } else if |s| <= LineWidth {
      assert Chunks(s)[..1] == [s];
      assert Concat([s]) == s + Concat([]);
    } else {
      FirstPieces(s[LineWidth..], k - 1);
      FirstPiecesStep(s, k, Chunks(s), Chunks(s[LineWidth..]));
    }
  }

  lemma FirstPiecesStep(s: string, k: nat, pieces: seq<string>, rest: seq<string>)
    requires |s| > LineWidth && k >= 1
    requires pieces == [s[..LineWidth]] + rest
    requires Concat(rest[..if k - 1 < |rest| then k - 1 else |rest|]) == Take(s[LineWidth..], LineWidth * (k - 1))
    ensures Concat(pieces[..if k < |pieces| then k else |pieces|]) == Take(s, LineWidth * k)
  {
    var n := if k - 1 < |rest| then k - 1 else |rest|;
    assert pieces[..n + 1] == [s[..LineWidth]] + rest[..n];
    ConcatCons(s[..LineWidth], rest[..n]);
    TakeAfter(s, LineWidth, LineWidth * (k - 1));
  }

  lemma ConcatCons(head: string, tail: seq<string>)
    ensures Concat([head] + tail) == head + Concat(tail)
  {
    assert ([head] + tail)[1..] == tail;
  }

  /** Taking `w + m` characters of a text of at least `w` is its first `w`
      followed by `m` of the remainder. */
  lemma TakeAfter(s: string, w: nat, m: nat)
    requires w <= |s|
    ensures Take(s, w + m) == s[..w] + Take(s[w..], m)
  {
    if |s| >= w + m {
      assert s[..w + m] == s[..w] + s[w..][..m];
    } else {
      assert s == s[..w] + s[w..];
    }
  }

  /** `pdfExport.ts:160`: only the first six pieces are printed, so an item shows the
      first 150 characters of its code. */
  lemma PrintedCodeText(s: string)
    ensures Concat(Chunks(s)[..if 6 < |Chunks(s)| then 6 else |Chunks(s)|]) == Take(s, 150)
  {
    FirstPieces(s, 6);
  }

  // ---------------------------------------------------------------------
  // Page layout

  /** Where a row or item is drawn: the page (from 1) and the top edge. */
  datatype Placement = Placement(page: nat, y: int)

  /** The page-break test: a block of `height` starting at `y` that would
      reach below `bottom` goes to the top (`y = 20`) of a new page. */
  function Fit(page: nat, y: int, height: nat, bottom: int): (p: Placement)
    requires 20 + height <= bottom
    ensures 20 <= p.y || p.y == y
    ensures p.y + height <= bottom
  {
    if y + height > bottom then Placement(page + 1, 20) else Placement(page, y)
  }

  /** The placement of the `i`-th block of a loop that starts at `first`
      on page 1 and advances `step` after each block. */
  function BlockPlacement(i: nat, first: int, step: nat, height: nat, bottom: int): (p: Placement)
    requires 20 <= first && 20 + height <= bottom
    ensures 20 <= p.y && p.y + height <= bottom && p.page >= 1
    decreases i
  {
    if i == 0 then Fit(1, first, height, bottom)
    else
      var q := BlockPlacement(i - 1, first, step, height, bottom);
      Fit(q.page, q.y + step, height, bottom)
  }

  /** Summary rows (`pdfExport.ts:42-75`): the header row at 45, data rows from 53,
      8 apart, a new page when a row would start below 180. */
  function SummaryRowPlacement(i: nat): (p: Placement)
    ensures 20 <= p.y <= 180
  {
    BlockPlacement(i, 45 + 8, 8, 0, 180)
  }

  /** Detailed items (`pdfExport.ts:105-165`): from 50, 70 apart, a new page when a
      60-high item would pass 270. */
  function DetailedItemPlacement(i: nat): (p: Placement)
    ensures 20 <= p.y && p.y + 60 <= 270
  {
    BlockPlacement(i, 20 + 15 + 15, 60 + 10, 60, 270)
  }

  lemma ModStep21(j: nat)
    ensures (j + 1) % 21 == if j % 21 == 20 then 0 else j % 21 + 1
    ensures (j + 1) / 21 == if j % 21 == 20 then j / 21 + 1 else j / 21
  {
  }

  lemma ModStep3(j: nat)
    ensures (j + 1) % 3 == if j % 3 == 2 then 0 else j % 3 + 1
    ensures (j + 1) / 3 == if j % 3 == 2 then j / 3 + 1 else j / 3
  {
  }

  /** The first page holds 16 summary rows and each later page 21: row `i`
      lands where this closed form says. */
  lemma {:induction false} SummaryLayoutClosedForm(i: nat)
    ensures SummaryRowPlacement(i) ==
            if i < 16 then Placement(1, 53 + 8 * i)
            else Placement(2 + (i - 16) / 21, 20 + 8 * ((i - 16) % 21))
  {
    if i > 0 {
      SummaryLayoutClosedForm(i - 1);
      if i > 16 {
        ModStep21(i - 17);
      }
    }
  }

  /** Every page of the detailed report holds three items: item `i` lands
      where this closed form says. */
  lemma {:induction false} DetailedLayoutClosedForm(i: nat)
    ensures DetailedItemPlacement(i) ==
            if i < 3 then Placement(1, 50 + 70 * i)
            else Placement(2 + (i - 3) / 3, 20 + 70 * ((i - 3) % 3))
  {
    if i > 0 {
      DetailedLayoutClosedForm(i - 1);
      if i > 3 {
        ModStep3(i - 4);
      }
    }
  }
}
