/**
 * The text of the table showcase
 * (src/components/utils/development-tools/TanStackTableDevelopmentToolsShowcase.tsx):
 * the sort glyph in a column header, the "Showing X to Y of Z results" line,
 * the page label and the sorting and filter summaries. The row count after
 * filtering and the page count come from the table library and are
 * parameters here.
 */
module TableShowcase {
  import opened Wrappers
  import opened JsString

  // ---------------------------------------------------------------------------
  // Sort glyph
  // ---------------------------------------------------------------------------

  /** `column.getIsSorted()`: false, "asc" or "desc". */
  datatype SortDirection = Unsorted | Asc | Desc

  /** The value used as a key into the glyph table (`false` reads as "false"). */
  function SortKey(d: SortDirection): string
  {
    match d
    case Unsorted => "false"
    case Asc => "asc"
    case Desc => "desc"
  }

  const UpArrow := "\U{2191}"
  const DownArrow := "\U{2193}"
  const UpDownArrow := "\U{2195}"

  /** `{asc: "↑", desc: "↓"}[key] ?? "↕"` */
  function SortGlyph(key: string): (g: string)
    ensures g == UpArrow <==> key == "asc"
    ensures g == DownArrow <==> key == "desc"
    ensures g == UpDownArrow <==> key != "asc" && key != "desc"
  {
    if key == "asc" then UpArrow else if key == "desc" then DownArrow else UpDownArrow
  }

  /** Each direction has its own glyph. */
  lemma GlyphsDistinguishDirections(d1: SortDirection, d2: SortDirection)
    requires SortGlyph(SortKey(d1)) == SortGlyph(SortKey(d2))
    ensures d1 == d2
  {
  }

  // ---------------------------------------------------------------------------
  // Pagination text
  // ---------------------------------------------------------------------------

  datatype PaginationState = PaginationState(pageIndex: nat, pageSize: nat)

  /** The pagination the page starts with: the first page of five rows. */
  const InitialPagination := PaginationState(0, 5)

  /** The number of the first row on the page, counting from one. */
  function RangeStart(p: PaginationState): nat
  {
    p.pageIndex * p.pageSize + 1
  }

  /** The number of the last row on the page, never past the filtered rows. */
  function RangeEnd(p: PaginationState, filteredCount: nat): nat
  {
    if (p.pageIndex + 1) * p.pageSize < filteredCount then (p.pageIndex + 1) * p.pageSize else filteredCount
  }

  /**
   * The end never passes the total, the range never holds more than a page,
   * and it is non-empty exactly when rows lie beyond the previous pages; then
   * it holds the rest of the rows or a full page, whichever is less.
   */
  lemma RangeBounds(p: PaginationState, filteredCount: nat)
    requires p.pageSize > 0
    ensures RangeEnd(p, filteredCount) <= filteredCount
    ensures RangeEnd(p, filteredCount) - RangeStart(p) + 1 <= p.pageSize
    ensures RangeStart(p) <= RangeEnd(p, filteredCount) <==> p.pageIndex * p.pageSize < filteredCount
    ensures RangeStart(p) <= RangeEnd(p, filteredCount) ==>
      var rows := RangeEnd(p, filteredCount) - RangeStart(p) + 1;
      rows == if filteredCount - p.pageIndex * p.pageSize < p.pageSize then filteredCount - p.pageIndex * p.pageSize else p.pageSize
  {
    assert (p.pageIndex + 1) * p.pageSize == p.pageIndex * p.pageSize + p.pageSize;
  }

  /** "Showing X to Y of Z results" */
  function RangeText(p: PaginationState, filteredCount: nat): string
  {
    "Showing " + NatToString(RangeStart(p)) + " to " + NatToString(RangeEnd(p, filteredCount))
      + " of " + NatToString(filteredCount) + " results"
  }

  const ShowingPrefix := "Showing "

  /** The first number in the range line reads back as the range start. */
  lemma RangeTextStart(p: PaginationState, filteredCount: nat)
    ensures StartsWith(RangeText(p, filteredCount), ShowingPrefix)
    ensures ParseInt(RangeText(p, filteredCount)[|ShowingPrefix|..]) == Some(RangeStart(p) as int)
  {
    var rest := " to " + NatToString(RangeEnd(p, filteredCount)) + " of " + NatToString(filteredCount) + " results";
    assert RangeText(p, filteredCount) == ShowingPrefix + (NatToString(RangeStart(p)) + rest);
    assert RangeText(p, filteredCount)[|ShowingPrefix|..] == NatToString(RangeStart(p)) + rest;
    ParseIntOfNatString(RangeStart(p), rest);
  }

  /** With no rows on the first page the line reads "1 to 0 of 0". */
  lemma ZeroRows()
    ensures RangeText(InitialPagination, 0) == "Showing 1 to 0 of 0 results"
  {
    assert RangeStart(InitialPagination) == 1;
    assert RangeEnd(InitialPagination, 0) == 0;
    assert NatToString(1) == "1";
    assert NatToString(0) == "0";
  }

  /** "Page N of M", numbering pages from one. */
  function PageLabel(p: PaginationState, pageCount: nat): string
  {
    "Page " + NatToString(p.pageIndex + 1) + " of " + NatToString(pageCount)
  }

  const PagePrefix := "Page "

  /** The page label reads back as the page number, one more than the index. */
  lemma PageLabelNumber(p: PaginationState, pageCount: nat)
    ensures StartsWith(PageLabel(p, pageCount), PagePrefix)
    ensures ParseInt(PageLabel(p, pageCount)[|PagePrefix|..]) == Some(p.pageIndex + 1)
  {
    var rest := " of " + NatToString(pageCount);
    assert PageLabel(p, pageCount) == PagePrefix + (NatToString(p.pageIndex + 1) + rest);
    assert PageLabel(p, pageCount)[|PagePrefix|..] == NatToString(p.pageIndex + 1) + rest;
    ParseIntOfNatString(p.pageIndex + 1, rest);
  }

  /** The initial page is labelled as page 1. */
  lemma InitialPageLabel(pageCount: nat)
    ensures PageLabel(InitialPagination, pageCount) == "Page 1 of " + NatToString(pageCount)
  {
    assert NatToString(1) == "1";
  }

  // ---------------------------------------------------------------------------
  // Sorting and filter summaries
  // ---------------------------------------------------------------------------

  /** One entry of the table's sorting state. */
  datatype ColumnSort = ColumnSort(id: string, desc: bool)

  /** One entry of the table's column filter state; the filter inputs hold text. */
  datatype ColumnFilter = ColumnFilter(id: string, value: string)

  const NoSorting := "No sorting applied"
  const NoFilters := "No filters applied"
  const ListSeparator := ", "

  /** "id (desc)" or "id (asc)" */
  function SortEntry(s: ColumnSort): (r: string)
    ensures EndsWith(r, ")")
  {
    var r := s.id + " (" + (if s.desc then "desc" else "asc") + ")";
    EndsWithAppended(s.id + " (" + (if s.desc then "desc" else "asc"), ")");
    r
  }

  /** "id: value" */
  function FilterEntry(f: ColumnFilter): (r: string)
    ensures Contains(r, ": ")
  {
    ContainsAt(": ", ": ", 0);
    ContainsInConcat(f.id, ": ", f.value, ": ");
    f.id + ": " + f.value
  }

  function SortEntries(sorting: seq<ColumnSort>): (r: seq<string>)
    ensures |r| == |sorting| && forall k :: 0 <= k < |sorting| ==> r[k] == SortEntry(sorting[k])
  {
    seq(|sorting|, k requires 0 <= k < |sorting| => SortEntry(sorting[k]))
  }

  function FilterEntries(filters: seq<ColumnFilter>): (r: seq<string>)
    ensures |r| == |filters| && forall k :: 0 <= k < |filters| ==> r[k] == FilterEntry(filters[k])
  {
    seq(|filters|, k requires 0 <= k < |filters| => FilterEntry(filters[k]))
  }

  /** The sorting summary: the entries in state order, or a placeholder. */
  function SortingSummary(sorting: seq<ColumnSort>): string
  {
    if |sorting| > 0 then Join(SortEntries(sorting), ListSeparator) else NoSorting
  }

  /** The filter summary: the entries in state order, or a placeholder. */
  function FilterSummary(filters: seq<ColumnFilter>): string
  {
    if |filters| > 0 then Join(FilterEntries(filters), ListSeparator) else NoFilters
  }

  /**
   * The placeholder appears exactly when nothing is sorted, and otherwise
   * every entry appears in the summary.
   */
  lemma SortingSummarySpec(sorting: seq<ColumnSort>)
    ensures SortingSummary(sorting) == NoSorting <==> sorting == []
    ensures forall k :: 0 <= k < |sorting| ==> Contains(SortingSummary(sorting), SortEntry(sorting[k]))
  {
    var entries := SortEntries(sorting);
    if |sorting| > 0 {
      JoinEndsWithLast(entries, ListSeparator);
      var j := Join(entries, ListSeparator);
      var last := entries[|entries| - 1];
      assert EndsWith(last, ")");
      assert j[|j| - 1] == last[|last| - 1];
      assert NoSorting[|NoSorting| - 1] == 'd';
    }
    forall k | 0 <= k < |sorting|
      ensures Contains(SortingSummary(sorting), SortEntry(sorting[k]))
    {
      JoinContainsEach(entries, ListSeparator, k);
    }
  }

  /**
   * The placeholder appears exactly when no filter is set, and otherwise
   * every entry appears in the summary.
   */
  lemma FilterSummarySpec(filters: seq<ColumnFilter>)
    ensures FilterSummary(filters) == NoFilters <==> filters == []
    ensures forall k :: 0 <= k < |filters| ==> Contains(FilterSummary(filters), FilterEntry(filters[k]))
  {
    var entries := FilterEntries(filters);
    forall k | 0 <= k < |filters|
      ensures Contains(FilterSummary(filters), FilterEntry(filters[k]))
    {
      JoinContainsEach(entries, ListSeparator, k);
    }
    if |filters| > 0 {
      NotContainsFirstChar(NoFilters, ": ");
      JoinContainsEach(entries, ListSeparator, 0);
      var j := Join(entries, ListSeparator);
      ContainsOfContains(j, entries[0], ": ");
    }
  }

  /** Containment is transitive. */
  lemma ContainsOfContains(s: string, t: string, u: string)
    requires Contains(s, t) && Contains(t, u)
    ensures Contains(s, u)
  {
    var i := IndexOf(s, t);
    var j := IndexOf(t, u);
    assert s[i..i + |t|] == t;
    assert t[j..j + |u|] == u;
    assert s[i + j..i + j + |u|] == u;
    ContainsAt(s, u, i + j);
  }

  /** Sorting one more column extends the summary by that entry. */
  lemma SortingSummaryAppend(sorting: seq<ColumnSort>, s: ColumnSort)
    ensures SortingSummary(sorting + [s]) ==
      if sorting == [] then SortEntry(s) else SortingSummary(sorting) + ListSeparator + SortEntry(s)
  {
    assert SortEntries(sorting + [s]) == SortEntries(sorting) + [SortEntry(s)];
    if sorting != [] {
      JoinAppend(SortEntries(sorting), SortEntry(s), ListSeparator);
    }
  }

  /** Filtering one more column extends the summary by that entry. */
  lemma FilterSummaryAppend(filters: seq<ColumnFilter>, f: ColumnFilter)
    ensures FilterSummary(filters + [f]) ==
      if filters == [] then FilterEntry(f) else FilterSummary(filters) + ListSeparator + FilterEntry(f)
  {
    assert FilterEntries(filters + [f]) == FilterEntries(filters) + [FilterEntry(f)];
    if filters != [] {
      JoinAppend(FilterEntries(filters), FilterEntry(f), ListSeparator);
    }
  }
}
