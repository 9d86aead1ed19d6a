/**
 * The plain arithmetic of `create_invoice_pdf`'s layout on an A4 page (in
 * points, origin at the bottom left): the line-item row heights, the
 * vertical cursor as it passes the header, the split table, the payment and
 * tax summary box and the bank-details heading, with a page break wherever
 * the source takes one, and the baselines of the text in the summary box.
 *
 * Line counts produced by `textwrap` and the heights of the table parts
 * produced by `Table.split` are inputs.
 */
module Layout {
  import opened Text

  const Margin: real := 30.0
  /** The height of an A4 page: 297 mm at 72 points per inch. */
  const PageHeight: real := 297.0 * 72.0 / 25.4

  // ---------------------------------------------------------------------
  // Line-item table rows.
  // ---------------------------------------------------------------------

  const TableFontSize: int := 8
  const HeaderRowHeight: int := 20

  /** `wrap_table_cell`, given the wrapped lines of a description: the lines joined by newlines. */
  function DescriptionCell(lines: seq<string>): string
  {
    Join(lines, '\n')
  }

  /** The height of a service row whose description cell is `cell`. */
  function RowHeight(cell: string): (h: int)
    ensures h >= 21 && (h - 10) % 11 == 0
  {
    (Count(cell, '\n') + 1) * (TableFontSize + 3) + 10
  }

  /** The loop that builds `row_heights`: the header row, then one row per service. */
  method RowHeights(cells: seq<string>) returns (heights: seq<int>)
    ensures |heights| == |cells| + 1
    ensures heights[0] == HeaderRowHeight
    ensures forall i :: 0 <= i < |cells| ==> heights[i + 1] == RowHeight(cells[i])
    ensures forall i :: 1 <= i < |heights| ==> heights[i] >= 21
  {
    heights := [HeaderRowHeight];
    var i := 0;
    while i < |cells|
      invariant 0 <= i <= |cells|
      invariant |heights| == i + 1 && heights[0] == HeaderRowHeight
      invariant forall j :: 0 <= j < i ==> heights[j + 1] == RowHeight(cells[j])
      invariant forall j :: 1 <= j < |heights| ==> heights[j] >= 21
    {
      var descLines := Count(cells[i], '\n') + 1;
      heights := heights + [descLines * (TableFontSize + 3) + 10];
      i := i + 1;
    }
  }

  /**
   * A description wrapped into k lines (textwrap lines never contain a
   * newline) gets a row of 11 points per line plus 10; an empty
   * description still gets one line.
   */
  lemma WrappedRowHeight(lines: seq<string>)
    requires forall j, i :: 0 <= j < |lines| && 0 <= i < |lines[j]| ==> lines[j][i] != '\n'
    ensures RowHeight(DescriptionCell(lines)) == 11 * (if lines == [] then 1 else |lines|) + 10
  {
    CountJoin(lines, '\n');
  }

  // ---------------------------------------------------------------------
  // The payment and tax summary box.
  // ---------------------------------------------------------------------

  const SectionFloor: real := Margin + 100.0
  /** Where the cursor restarts on a page opened for the summary or the bank details. */
  const FreshPageY: real := PageHeight - Margin - 32.0

  /** `section_height` for the wrapped lines of the VAT note and the exchange-rate note. */
  function SummaryHeight(noteLines: nat): (h: real)
    ensures h >= 104.0
  {
    (5 + noteLines) as real * 16.0 + 24.0
  }

  /** Whether the summary box opens a new page, and the bottom edge (`section_y`) it gets. */
  datatype Placement = Placement(newPage: bool, bottom: real)

  /** The box hangs 20 points above the cursor's line; it moves to a new page when its bottom would pass the floor. */
  function PlaceSummary(y: real, height: real): (p: Placement)
    ensures p.newPage <==> y - height + 20.0 < SectionFloor
    ensures !p.newPage ==> p.bottom == y - height + 20.0 && p.bottom >= SectionFloor
    ensures p.newPage ==> p.bottom == FreshPageY - height + 20.0
    ensures p.newPage && y <= FreshPageY ==> p.bottom >= y - height + 20.0
  {
    var bottom := y - height + 20.0;
    if bottom < SectionFloor then Placement(true, FreshPageY - height + 20.0)
    else Placement(false, bottom)
  }

  /** A box that fits on a fresh page never ends below the floor, on whichever page it lands. */
  lemma SummaryAboveFloor(y: real, noteLines: nat)
    requires FreshPageY - SummaryHeight(noteLines) + 20.0 >= SectionFloor
    ensures PlaceSummary(y, SummaryHeight(noteLines)).bottom >= SectionFloor
  {
  }

  /**
   * The baselines the summary box's text is drawn at, top to bottom: five
   * label rows 16 points apart starting 16 below the top edge, then, 20
   * further down, the lines of the VAT note and of the exchange-rate note
   * 14 points apart. The box is sized for `sizedLines` note lines; the
   * document draws `vatLines + exchLines`, which in French come from other
   * texts than those measured.
   */
  method SummaryBaselines(bottom: real, sizedLines: nat, vatLines: nat, exchLines: nat) returns (ys: seq<real>)
    ensures |ys| == 5 + vatLines + exchLines
    ensures forall i, j :: 0 <= i < j < |ys| ==> ys[j] < ys[i]
    ensures forall i :: 0 <= i < |ys| ==> ys[i] < bottom + SummaryHeight(sizedLines)
    ensures (forall i :: 0 <= i < |ys| ==> bottom < ys[i])
            <==> 14 * (vatLines + exchLines) < 16 * sizedLines + 18
    ensures vatLines + exchLines <= sizedLines + 1 ==> forall i :: 0 <= i < |ys| ==> bottom < ys[i]
  {
    var top := bottom + SummaryHeight(sizedLines);
    var textY := top - 16.0;
    ys := [];
    var row := 0;
    while row < 5
      invariant 0 <= row <= 5 && |ys| == row
      invariant textY == top - 16.0 * (row + 1) as real
      invariant forall i :: 0 <= i < row ==> ys[i] == top - 16.0 * (i + 1) as real
    {
      ys := ys + [textY];
      textY := textY - 16.0;
      row := row + 1;
    }
    textY := textY + 16.0 - 20.0;
    var n := 0;
    while n < vatLines
      invariant 0 <= n <= vatLines && |ys| == 5 + n
      invariant textY == top - 100.0 - 14.0 * n as real
      invariant forall i :: 0 <= i < 5 ==> ys[i] == top - 16.0 * (i + 1) as real
      invariant forall i :: 5 <= i < 5 + n ==> ys[i] == top - 100.0 - 14.0 * (i - 5) as real
    {
      ys := ys + [textY];
      textY := textY - 14.0;
      n := n + 1;
    }
    while n < vatLines + exchLines
      invariant vatLines <= n <= vatLines + exchLines && |ys| == 5 + n
      invariant textY == top - 100.0 - 14.0 * n as real
      invariant forall i :: 0 <= i < 5 ==> ys[i] == top - 16.0 * (i + 1) as real
      invariant forall i :: 5 <= i < 5 + n ==> ys[i] == top - 100.0 - 14.0 * (i - 5) as real
    {
      ys := ys + [textY];
      textY := textY - 14.0;
      n := n + 1;
    }
    var d := vatLines + exchLines;
    var k := sizedLines;
    assert top == bottom + 104.0 + 16.0 * k as real;
    if 14 * d < 16 * k + 18 {
      forall i | 0 <= i < |ys| ensures bottom < ys[i] {
        if i >= 5 {
          assert (i - 5) <= d - 1;
          assert 14.0 * (i - 5) as real <= 14.0 * (d - 1) as real;
        }
      }
    } else {
      assert d > 0;
      assert ys[|ys| - 1] == top - 100.0 - 14.0 * (d - 1) as real;
      assert ys[|ys| - 1] <= bottom;
    }
  }

  // ---------------------------------------------------------------------
  // The vertical cursor through the whole document.
  // ---------------------------------------------------------------------

  /** The cursor after the title, the invoice block and the two address boxes. */
  const TableTop: real := PageHeight - Margin - 20.0 - 32.0 - (60.0 + 10.0) - (190.0 + 30.0)

  /** No part of the table has a negative height. */
  predicate NonNegative(parts: seq<real>)
  {
    forall i :: 0 <= i < |parts| ==> parts[i] >= 0.0
  }

  /** `table_y` after the table parts are drawn: continuation parts start at the top margin of a new page. */
  function TableBottom(top: real, parts: seq<real>): (bottom: real)
    ensures NonNegative(parts) && |parts| <= 1 ==> bottom <= top
    ensures NonNegative(parts) && |parts| >= 2 ==> bottom <= PageHeight - Margin
  {
    if parts == [] then top
    else if |parts| == 1 then top - parts[0]
    else PageHeight - Margin - parts[|parts| - 1]
  }

  /** Where the bank heading goes: on a new page when the cursor is below the floor. */
  function PlaceBank(y: real): (p: Placement)
    ensures p.newPage <==> y < SectionFloor
    ensures p.bottom >= SectionFloor
    ensures !p.newPage ==> p.bottom == y
  {
    if y < SectionFloor then Placement(true, FreshPageY) else Placement(false, y)
  }

  /** The pages begun and the positions chosen for one document. */
  datatype Plan = Plan(pages: nat, summaryBottom: real, summaryHeight: real, bankY: real)

  /** The number of pages the table occupies beyond the first. */
  function ExtraTablePages(parts: seq<real>): nat
  {
    if parts == [] then 0 else |parts| - 1
  }

  /**
   * The cursor of `create_invoice_pdf`, step by step: header, table parts
   * (a new page before each continuation part), summary box (a new page if
   * it would pass the floor), bank heading (a new page if the cursor is
   * below the floor).
   */
  method PlanDocument(parts: seq<real>, noteLines: nat) returns (plan: Plan)
    ensures var tableEnd := TableBottom(TableTop, parts) - 32.0;
      var summary := PlaceSummary(tableEnd, SummaryHeight(noteLines));
      var bank := PlaceBank(summary.bottom - 32.0);
      && plan.summaryHeight == SummaryHeight(noteLines)
      && plan.summaryBottom == summary.bottom
      && plan.bankY == bank.bottom
      && plan.pages == 1 + ExtraTablePages(parts) + (if summary.newPage then 1 else 0) + (if bank.newPage then 1 else 0)
    ensures plan.bankY >= SectionFloor
  {
    var pages := 1;
    var y := PageHeight - Margin;
    y := y - 20.0;
    y := y - 32.0;
    var blockHeight := 60.0;
    y := y - (blockHeight + 10.0);
    var boxHeight := 190.0;
    y := y - (boxHeight + 30.0);
    var tableY := y;
    var idx := 0;
    while idx < |parts|
      invariant 0 <= idx <= |parts|
      invariant tableY == TableBottom(TableTop, parts[..idx])
      invariant pages == 1 + ExtraTablePages(parts[..idx])
    {
      if idx > 0 {
        pages := pages + 1;
        tableY := PageHeight - Margin;
      }
      tableY := tableY - parts[idx];
      idx := idx + 1;
    }
    assert parts[..idx] == parts;
    y := tableY - 32.0;
    var sectionHeight := SummaryHeight(noteLines);
    var sectionY := y - sectionHeight + 20.0;
    if sectionY < SectionFloor {
      pages := pages + 1;
      y := PageHeight - Margin - 32.0;
      sectionY := y - sectionHeight + 20.0;
    }
    y := sectionY - 32.0;
    if y < SectionFloor {
      pages := pages + 1;
      y := PageHeight - Margin - 32.0;
    }
    plan := Plan(pages, sectionY, sectionHeight, y);
  }
}
