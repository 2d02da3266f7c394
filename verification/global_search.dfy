/** The search box above the table (`GlobalSearch`): a case-insensitive
    substring search over seven fields of every mark, of which the first
    ten hits are listed. */
module GlobalSearch {
  import opened Text
  import opened Seqs
  import opened ProductMarks

  /** The fields searched, as the table shows them. */
  function SearchedFields(m: ProductMarkDetail): (f: seq<string>)
    ensures |f| == 7
  {
    [m.product, m.barcode, m.supplierCode, m.brandType.Name(), m.brand, m.datamatrix, m.status.Name()]
  }

  /** `GlobalSearch.tsx:26-34`: some field, lowered, includes the lowered query. */
  predicate Matches(m: ProductMarkDetail, query: string) {
    exists i :: 0 <= i < 7 && Contains(Lower(SearchedFields(m)[i]), query)
  }

  /** `searchResults`: every mark for a blank query; otherwise the marks
      that match the lowered query (untrimmed), in their order. */
  function SearchResults(marks: seq<ProductMarkDetail>, searchQuery: string): (r: seq<ProductMarkDetail>)
    ensures AllWhitespace(searchQuery) ==> r == marks
    ensures IsSubsequence(r, marks)
    ensures !AllWhitespace(searchQuery) ==>
              forall m :: m in r <==> m in marks && Matches(m, Lower(searchQuery))
    ensures !AllWhitespace(searchQuery) ==>
              forall m :: multiset(r)[m] == if Matches(m, Lower(searchQuery)) then multiset(marks)[m] else 0
  {
    if IsBlank(searchQuery) then
      IsSubsequenceReflexive(marks);
      marks
    else
      FilterCounts(marks, (m: ProductMarkDetail) => Matches(m, Lower(searchQuery)));
      Filter(marks, (m: ProductMarkDetail) => Matches(m, Lower(searchQuery)))
  }

  /** `handleSearch`: the result list is shown once anything is typed,
      spaces included. */
  function IsSearching(query: string): (b: bool)
    ensures b <==> query != ""
  {
    |query| > 0
  }

  /** `GlobalSearch.tsx:113`: the hits listed. */
  function Displayed(results: seq<ProductMarkDetail>): (d: seq<ProductMarkDetail>)
    ensures d <= results && |d| <= 10
    ensures |results| <= 10 ==> d == results
  {
    if |results| <= 10 then results else results[..10]
  }

  /** `GlobalSearch.tsx:176`: the "first 10 results" notice. */
  function ShowsMoreNotice(results: seq<ProductMarkDetail>): (b: bool)
    ensures b <==> Displayed(results) != results
  {
    |results| > 10
  }

  lemma LowerCharKeepsWhitespace(c: char)
    ensures IsJsWhitespace(LowerChar(c)) <==> IsJsWhitespace(c)
  {
  }

  lemma LowerAppend(a: string, b: string)
    ensures Lower(a + b) == Lower(a) + Lower(b)
  {
  }

  /** A query of spaces still opens the result list, and lists every mark. */
  lemma BlankQueryListsAll(marks: seq<ProductMarkDetail>)
    ensures IsSearching(" ") && SearchResults(marks, " ") == marks
  {
  }

  /** The search ignores case: a query and its lowered form find the same
      marks. */
  lemma SearchIgnoresCase(marks: seq<ProductMarkDetail>, q: string)
    ensures SearchResults(marks, Lower(q)) == SearchResults(marks, q)
  {
    forall i | 0 <= i < |q| ensures IsJsWhitespace(Lower(q)[i]) <==> IsJsWhitespace(q[i]) {
      LowerCharKeepsWhitespace(q[i]);
    }
    assert AllWhitespace(Lower(q)) <==> AllWhitespace(q);
    assert Lower(Lower(q)) == Lower(q) by {
      forall i | 0 <= i < |q| ensures Lower(Lower(q))[i] == Lower(q)[i] {
        LowerCharIdempotent(q[i]);
      }
    }
  }

  lemma ContainsPrefixOfNeedle(hay: string, a: string, b: string)
    ensures Contains(hay, a + b) ==> Contains(hay, a)
  {
    ContainsIffOccurs(hay, a + b);
    ContainsIffOccurs(hay, a);
    if Contains(hay, a + b) {
      var i :| OccursAt(hay, a + b, i);
      assert hay[i..i + |a|] == (a + b)[..|a|];
      assert OccursAt(hay, a, i);
    }
  }

  /** Typing more narrows the results: every mark found for the longer
      query was found for the shorter one. */
  lemma TypingMoreNarrows(marks: seq<ProductMarkDetail>, q: string, more: string)
    requires !AllWhitespace(q)
    ensures forall m :: m in SearchResults(marks, q + more) ==> m in SearchResults(marks, q)
  {
    assert !AllWhitespace(q + more) by {
      var i :| 0 <= i < |q| && !IsJsWhitespace(q[i]);
      assert (q + more)[i] == q[i];
    }
    LowerAppend(q, more);
    forall m | m in SearchResults(marks, q + more)
      ensures m in SearchResults(marks, q)
    {
      var i :| 0 <= i < 7 && Contains(Lower(SearchedFields(m)[i]), Lower(q) + Lower(more));
      ContainsPrefixOfNeedle(Lower(SearchedFields(m)[i]), Lower(q), Lower(more));
    }
  }
}
