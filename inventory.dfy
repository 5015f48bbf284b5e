/**
  `get_inventory`: the product sheet rendered as one text line per row, or a
  fixed placeholder when the sheet link is missing or the sheet cannot be
  fetched, parsed or read.
 */
module Inventory {
  import opened Wrappers
  import opened PyStr

  const LinkMissing: string := "رابط الشيت مفقود."
  const Unavailable: string := "المخزون غير متوفر حالياً (صيانة)."

  const NameColumn: string := "Product Name"
  const PriceColumn: string := "Price"
  const StockColumn: string := "Stock"
  const ImageColumn: string := "Image URL"

  const NameLabel: string := "المنتج: "
  const PriceLabel: string := " | السعر: "
  const StockLabel: string := " | الحالة: "
  const ImageLabel: string := " | الرابط: "

  /**
    One parsed sheet row: its cells by position (blanks already turned into
    the empty string) and the cells of the named columns by header.
   */
  datatype Row = Row(cells: seq<string>, named: map<string, string>)

  /** What fetching and parsing the sheet gave. */
  datatype SheetFetch = TransportFailed | ParseFailed | Parsed(rows: seq<Row>)

  /** The row has the four positional cells that `row.iloc[0..3]` reads. */
  predicate Complete(row: Row) {
    |row.cells| >= 4
  }

  predicate AllComplete(rows: seq<Row>) {
    forall k :: 0 <= k < |rows| ==> Complete(rows[k])
  }

  /** `row.get(column, row.iloc[position])`: the named column, else the cell at `position`. */
  function Field(row: Row, column: string, position: nat): string
    requires position < |row.cells|
  {
    if column in row.named then row.named[column] else row.cells[position]
  }

  /** The line for one product, without its newline: name, price, stock, image. */
  function Body(row: Row): string
    requires Complete(row)
  {
    NameLabel + Field(row, NameColumn, 0)
    + PriceLabel + Field(row, PriceColumn, 1)
    + StockLabel + Field(row, StockColumn, 2)
    + ImageLabel + Field(row, ImageColumn, 3)
  }

  /** The text appended for one row. */
  function Line(row: Row): string
    requires Complete(row)
  {
    Body(row) + "\n"
  }

  /** The line bodies of complete rows, one per row, in row order. */
  function Bodies(rows: seq<Row>): seq<string>
    requires AllComplete(rows)
  {
    seq(|rows|, k requires 0 <= k < |rows| => Body(rows[k]))
  }

  /** Each text followed by a newline, all concatenated. */
  function Terminated(texts: seq<string>): string {
    if texts == [] then "" else texts[0] + "\n" + Terminated(texts[1..])
  }

  /** The text `get_inventory` accumulates for complete rows. */
  function Lines(rows: seq<Row>): string
    requires AllComplete(rows)
  {
    Terminated(Bodies(rows))
  }

  /** The listing of the rows, or `None` when a row lacks a positional cell. */
  function Listing(rows: seq<Row>): Option<string> {
    if AllComplete(rows) then Some(Lines(rows)) else None
  }

  /** What `get_inventory` returns, given the sheet link and what fetching it gave. */
  function InventoryText(sheetUrl: Option<string>, fetched: SheetFetch): string {
    if sheetUrl.None? || sheetUrl.value == [] then LinkMissing
    else
      match fetched
      case Parsed(rows) =>
        (match Listing(rows)
         case Some(text) => text
         case None => Unavailable)
      case _ => Unavailable
  }

  /**
    `get_inventory`, with the sheet fetch and CSV parse supplied as `fetched`:
    the text is accumulated row by row, and a row too short for `iloc`
    abandons it for the placeholder.
   */
  method GetInventory(sheetUrl: Option<string>, fetched: SheetFetch) returns (text: string)
    ensures text == InventoryText(sheetUrl, fetched)
  {
    if sheetUrl.None? || sheetUrl.value == [] {
      return LinkMissing;
    }
    if !fetched.Parsed? {
      return Unavailable;
    }
    var rows := fetched.rows;
    text := "";
    for i := 0 to |rows|
      invariant AllComplete(rows[..i])
      invariant text == Lines(rows[..i])
    {
      if |rows[i].cells| < 4 {
        assert !Complete(rows[i]);
        return Unavailable;
      }
      LinesSnoc(rows, i);
      text := text + Line(rows[i]);
    }
    assert rows[..|rows|] == rows;
  }

  // ---------------------------------------------------------------------
  // Lemmas
  // ---------------------------------------------------------------------

  /** Appending a text appends it and a newline. */
  lemma {:induction false} TerminatedSnoc(texts: seq<string>, t: string)
    ensures Terminated(texts + [t]) == Terminated(texts) + t + "\n"
  {
    if texts == [] {
      assert [t][1..] == [];
    } else {
      assert (texts + [t])[1..] == texts[1..] + [t];
      TerminatedSnoc(texts[1..], t);
    }
  }

  /** Taking one more row appends exactly that row's line. */
  lemma LinesSnoc(rows: seq<Row>, i: nat)
    requires i < |rows| && AllComplete(rows[..i]) && Complete(rows[i])
    ensures AllComplete(rows[..i + 1])
    ensures Lines(rows[..i + 1]) == Lines(rows[..i]) + Line(rows[i])
  {
    assert rows[..i + 1] == rows[..i] + [rows[i]];
    assert Bodies(rows[..i + 1]) == Bodies(rows[..i]) + [Body(rows[i])];
    TerminatedSnoc(Bodies(rows[..i]), Body(rows[i]));
  }

  /**
    A sheet without the four header names is read by position: the line
    shows the first four cells, in order.
   */
  lemma PositionalFallback(row: Row)
    requires Complete(row)
    requires NameColumn !in row.named && PriceColumn !in row.named
    requires StockColumn !in row.named && ImageColumn !in row.named
    ensures Body(row)
      == NameLabel + row.cells[0] + PriceLabel + row.cells[1]
       + StockLabel + row.cells[2] + ImageLabel + row.cells[3]
  {
  }

  /**
    When all four header names are present the line shows the named cells,
    and the positional cells do not matter (they must only exist).
   */
  lemma NamedColumnsWin(row: Row, cells: seq<string>)
    requires Complete(row) && |cells| >= 4
    requires NameColumn in row.named && PriceColumn in row.named
    requires StockColumn in row.named && ImageColumn in row.named
    ensures Body(row)
      == NameLabel + row.named[NameColumn] + PriceLabel + row.named[PriceColumn]
       + StockLabel + row.named[StockColumn] + ImageLabel + row.named[ImageColumn]
    ensures Body(row) == Body(Row(cells, row.named))
  {
  }

  predicate NoNewline(s: string) {
    forall k :: 0 <= k < |s| ==> s[k] != '\n'
  }

  /** Every field the listing shows is free of line breaks. */
  predicate SingleLineFields(rows: seq<Row>)
    requires AllComplete(rows)
  {
    forall k :: 0 <= k < |rows| ==>
      && NoNewline(Field(rows[k], NameColumn, 0))
      && NoNewline(Field(rows[k], PriceColumn, 1))
      && NoNewline(Field(rows[k], StockColumn, 2))
      && NoNewline(Field(rows[k], ImageColumn, 3))
  }

  lemma NoNewlineConcat(a: string, b: string)
    requires NoNewline(a) && NoNewline(b)
    ensures NoNewline(a + b)
  {
    assert forall k :: 0 <= k < |a| + |b| ==> (a + b)[k] == if k < |a| then a[k] else b[k - |a|];
  }

  lemma LabelsSingleLine()
    ensures NoNewline(NameLabel) && NoNewline(PriceLabel)
    ensures NoNewline(StockLabel) && NoNewline(ImageLabel)
  {
  }

  lemma BodySingleLine(row: Row)
    requires Complete(row)
    requires NoNewline(Field(row, NameColumn, 0)) && NoNewline(Field(row, PriceColumn, 1))
    requires NoNewline(Field(row, StockColumn, 2)) && NoNewline(Field(row, ImageColumn, 3))
    ensures NoNewline(Body(row))
  {
    LabelsSingleLine();
    var a := NameLabel + Field(row, NameColumn, 0);
    NoNewlineConcat(NameLabel, Field(row, NameColumn, 0));
    NoNewlineConcat(a, PriceLabel);
    var b := a + PriceLabel + Field(row, PriceColumn, 1);
    NoNewlineConcat(a + PriceLabel, Field(row, PriceColumn, 1));
    NoNewlineConcat(b, StockLabel);
    var c := b + StockLabel + Field(row, StockColumn, 2);
    NoNewlineConcat(b + StockLabel, Field(row, StockColumn, 2));
    NoNewlineConcat(c, ImageLabel);
    NoNewlineConcat(c + ImageLabel, Field(row, ImageColumn, 3));
  }

  /**
    When no field holds a line break, splitting the listing at newlines
    gives back exactly one body per row, in row order, then the empty
    remainder after the last newline.
   */
  lemma ListingLines(rows: seq<Row>)
    requires AllComplete(rows) && SingleLineFields(rows)
    ensures Split(Lines(rows), "\n") == Bodies(rows) + [""]
  {
    forall k | 0 <= k < |rows|
      ensures NoNewline(Bodies(rows)[k])
    {
      BodySingleLine(rows[k]);
    }
    SplitTerminated(Bodies(rows));
  }

  /** Splitting newline-terminated single-line texts at newlines gives them back. */
  lemma {:induction false} SplitTerminated(texts: seq<string>)
    requires forall k :: 0 <= k < |texts| ==> NoNewline(texts[k])
    ensures Split(Terminated(texts), "\n") == texts + [""]
  {
    if texts == [] {
      assert Find("", "\n") == None;
    } else {
      var first, tail := texts[0], texts[1..];
      assert Terminated(texts) == first + "\n" + Terminated(tail);
      SplitFirstLine(first, Terminated(tail));
      SplitTerminated(tail);
      HeadTail(texts, "");
    }
  }

  lemma HeadTail<T>(xs: seq<T>, y: T)
    requires xs != []
    ensures xs + [y] == [xs[0]] + (xs[1..] + [y])
  {
  }

  /** Splitting at newlines peels off a first line that has none. */
  lemma SplitFirstLine(body: string, rest: string)
    requires NoNewline(body)
    ensures Split(body + "\n" + rest, "\n") == [body] + Split(rest, "\n")
  {
    var s := body + "\n" + rest;
    assert OccursAt(s, "\n", |body|);
    forall j | 0 <= j < |body|
      ensures !OccursAt(s, "\n", j)
    {
      assert s[j] == body[j];
    }
    FindIsFirst(s, "\n", |body|);
    assert s[|body| + 1..] == rest;
    assert s[..|body|] == body;
  }

  /** Newline-terminated texts concatenate to nothing or to a text ending in a newline. */
  lemma {:induction false} TerminatedEndsWithNewline(texts: seq<string>)
    ensures Terminated(texts) == [] || Terminated(texts)[|Terminated(texts)| - 1] == '\n'
  {
    if texts != [] {
      TerminatedEndsWithNewline(texts[1..]);
    }
  }

  /**
    The three outcomes of `get_inventory` are told apart by the text alone:
    the link-missing text exactly when no link is configured, the
    maintenance text exactly when the fetch or parse failed or a row lacks
    a positional cell, and otherwise the row listing.
   */
  lemma InventoryOutcomes(sheetUrl: Option<string>, fetched: SheetFetch)
    ensures var text := InventoryText(sheetUrl, fetched);
      && (text == LinkMissing <==> sheetUrl.None? || sheetUrl.value == [])
      && (text == Unavailable <==>
            sheetUrl.Some? && sheetUrl.value != []
            && (!fetched.Parsed? || exists k :: 0 <= k < |fetched.rows| && !Complete(fetched.rows[k])))
      && ((sheetUrl.Some? && sheetUrl.value != [] && fetched.Parsed? && AllComplete(fetched.rows))
            ==> text == Lines(fetched.rows))
  {
    assert LinkMissing != Unavailable;
    if fetched.Parsed? && AllComplete(fetched.rows) {
      TerminatedEndsWithNewline(Bodies(fetched.rows));
      assert LinkMissing[|LinkMissing| - 1] != '\n';
      assert Unavailable[|Unavailable| - 1] != '\n';
    }
  }

  /** An empty sheet renders as the empty string. */
  lemma EmptySheet(url: string)
    requires url != []
    ensures InventoryText(Some(url), Parsed([])) == ""
  {
  }
}
