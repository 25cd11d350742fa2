/** The CSV exporter: the header line, one line per product of the visible page,
    quoting with doubled quotes for title and description, and a reader that
    shows the exported text can be read back field by field. */
module Csv {
  import opened Common
  import opened Strings
  import opened Catalog

  const Headers: seq<string> := ["ID", "Title", "Price", "Category", "Description", "Images"]

  /** Prepended to the download so that spreadsheet programs detect UTF-8. */
  const ByteOrderMark: char := '\U{FEFF}'

  // ---------------------------------------------------------------- writer

  /** `s.replace(/"/g, '""')`. */
  function DoubleQuotes(s: string): (r: string)
    ensures |r| >= |s|
    ensures '"' !in s ==> r == s
  {
    if s == [] then []
    else (if s[0] == '"' then "\"\"" else [s[0]]) + DoubleQuotes(s[1..])
  }

  /** A field as the writer puts it down. */
  datatype Cell =
    | Plain(text: string)     // a number, or a header name: written bare
    | Quoted(text: string)    // title and description: wrapped in quotes, inner quotes doubled
    | Wrapped(text: string)   // category name and image list: wrapped in quotes, nothing doubled

  function EncodeCell(c: Cell): string
  {
    match c
    case Plain(t) => t
    case Quoted(t) => "\"" + DoubleQuotes(t) + "\""
    case Wrapped(t) => "\"" + t + "\""
  }

  function EncodeCells(cells: seq<Cell>): (r: seq<string>)
    ensures |r| == |cells|
  {
    if cells == [] then [] else [EncodeCell(cells[0])] + EncodeCells(cells[1..])
  }

  /** The fields of a record joined with `,`. */
  function EncodeRecord(cells: seq<Cell>): string
  {
    Join(",", EncodeCells(cells))
  }

  function HeaderCells(): seq<Cell>
  {
    [Plain("ID"), Plain("Title"), Plain("Price"), Plain("Category"), Plain("Description"), Plain("Images")]
  }

  /** The six fields of one product line. */
  function RowCells(p: Product, fmt: NumberFormat): seq<Cell>
  {
    [ Plain(fmt.idText(p.id)), Quoted(p.title), Plain(fmt.priceText(p.price)),
      Wrapped(CategoryLabel(p)), Quoted(p.description), Wrapped(Join(";", p.images)) ]
  }

  function CsvRow(p: Product, fmt: NumberFormat): string
  {
    EncodeRecord(RowCells(p, fmt))
  }

  function CsvRows(items: seq<Product>, fmt: NumberFormat): (rows: seq<string>)
    ensures |rows| == |items|
    ensures forall k :: 0 <= k < |items| ==> rows[k] == CsvRow(items[k], fmt)
  {
    if items == [] then [] else [CsvRow(items[0], fmt)] + CsvRows(items[1..], fmt)
  }

  /** The header line followed by one line per product, joined with newlines. */
  function CsvText(items: seq<Product>, fmt: NumberFormat): string
  {
    Join("\n", [EncodeRecord(HeaderCells())] + CsvRows(items, fmt))
  }

  /** The downloaded document: the byte-order mark, then the CSV text. */
  function CsvDocument(items: seq<Product>, fmt: NumberFormat): (doc: string)
    ensures |doc| >= 1 && doc[0] == ByteOrderMark && doc[1..] == CsvText(items, fmt)
  {
    [ByteOrderMark] + CsvText(items, fmt)
  }

  /** Example: a title `He said "hi"` is exported as `"He said ""hi"""`. */
  lemma QuoteExample()
    ensures EncodeCell(Quoted("He said \"hi\"")) == "\"He said \"\"hi\"\"\""
  {
    var a, b, c := "He said ", "\"", "hi";
    assert "He said \"hi\"" == a + b + c + b;
    QuoteExampleParts(a, b, c);
    QuoteExampleText(a, c);
  }

  lemma QuoteExampleText(a: string, c: string)
    requires a == "He said " && c == "hi"
    ensures "\"" + (a + "\"\"" + c + "\"\"") + "\"" == "\"He said \"\"hi\"\"\""
  {
    var x := "\"" + a;
    assert x == "\"He said ";
    var y := x + "\"\"" + c;
    assert y == "\"He said \"\"hi";
    assert "\"" + (a + "\"\"" + c + "\"\"") + "\"" == y + "\"\"\"";
  }

  lemma QuoteExampleParts(a: string, b: string, c: string)
    requires a == "He said " && b == "\"" && c == "hi"
    ensures DoubleQuotes(a + b + c + b) == a + "\"\"" + c + "\"\""
  {
    DoubleQuotesConcat(a + b + c, b);
    DoubleQuotesConcat(a + b, c);
    DoubleQuotesConcat(a, b);
    assert forall k :: 0 <= k < |a| ==> a[k] != '"';
    assert forall k :: 0 <= k < |c| ==> c[k] != '"';
    assert DoubleQuotes(b) == "\"\"" by { assert b[1..] == []; }
  }

  /** Doubling works character by character. */
  lemma {:induction false} DoubleQuotesConcat(a: string, b: string)
    ensures DoubleQuotes(a + b) == DoubleQuotes(a) + DoubleQuotes(b)
  {
    if a == [] {
      assert a + b == b;
    } else {
      assert (a + b)[0] == a[0] && (a + b)[1..] == a[1..] + b;
      DoubleQuotesConcat(a[1..], b);
    }
  }

  // ---------------------------------------------------------------- reader

  /** An unquoted field: everything up to the next `,`, newline or the end. */
  function ReadPlain(s: string): (r: (string, string))
    ensures r.0 + r.1 == s
    ensures r.1 == [] || r.1[0] == ',' || r.1[0] == '\n'
    decreases |s|
  {
    if s == [] || s[0] == ',' || s[0] == '\n' then ([], s)
    else
      var (field, rest) := ReadPlain(s[1..]);
      ([s[0]] + field, rest)
  }

  /** The inside of a quoted field, up to its closing quote; `""` stands for one quote. */
  function ReadQuotedBody(s: string): (r: Option<(string, string)>)
    ensures r.Some? ==> |r.value.1| < |s|
    decreases |s|
  {
    if s == [] then None
    else if s[0] == '"' then
      if |s| >= 2 && s[1] == '"' then
        match ReadQuotedBody(s[2..])
        case None => None
        case Some((body, rest)) => Some(("\"" + body, rest))
      else Some(([], s[1..]))
    else
      match ReadQuotedBody(s[1..])
      case None => None
      case Some((body, rest)) => Some(([s[0]] + body, rest))
  }

  /** One field, quoted or not, and the text after it. */
  function ReadField(s: string): (r: Option<(string, string)>)
    ensures r.Some? ==> |r.value.1| <= |s|
  {
    if s != [] && s[0] == '"' then ReadQuotedBody(s[1..]) else Some(ReadPlain(s))
  }

  /** How a record ended: at the end of the text, or at a newline followed by `rest`. */
  datatype RecordStop = EndOfText | NewLine(rest: string)

  /** The fields of one record, separated by `,` and ended by a newline or the end of the text. */
  function ReadRecord(s: string): (r: Option<(seq<string>, RecordStop)>)
    ensures r.Some? && r.value.1.NewLine? ==> |r.value.1.rest| < |s|
    decreases |s|
  {
    match ReadField(s)
    case None => None
    case Some((field, rest)) =>
      if rest == [] then Some(([field], EndOfText))
      else if rest[0] == '\n' then Some(([field], NewLine(rest[1..])))
      else if rest[0] == ',' then
        match ReadRecord(rest[1..])
        case None => None
        case Some((fields, stop)) => Some(([field] + fields, stop))
      else None
  }

  /** All records of a CSV text. */
  function ReadCsv(s: string): Option<seq<seq<string>>>
    decreases |s|
  {
    match ReadRecord(s)
    case None => None
    case Some((fields, EndOfText)) => Some([fields])
    case Some((fields, NewLine(rest))) =>
      match ReadCsv(rest)
      case None => None
      case Some(records) => Some([fields] + records)
  }

  // ---------------------------------------------------------------- cells

  /** A bare field the reader can delimit: no separator, newline or quote in it. */
  predicate SafePlain(t: string)
  {
    forall k :: 0 <= k < |t| ==> t[k] != ',' && t[k] != '\n' && t[k] != '"'
  }

  /** A cell the reader reads back as its text. */
  predicate WellFormed(c: Cell)
  {
    match c
    case Plain(t) => SafePlain(t)
    case Quoted(_) => true
    case Wrapped(t) => '"' !in t
  }

  function Texts(cells: seq<Cell>): (r: seq<string>)
    ensures |r| == |cells|
  {
    if cells == [] then [] else [cells[0].text] + Texts(cells[1..])
  }

  // ---------------------------------------------------------------- round trip

  lemma {:induction false} ReadQuotedBodyRoundTrip(t: string, rest: string)
    requires rest == [] || rest[0] != '"'
    ensures ReadQuotedBody(DoubleQuotes(t) + "\"" + rest) == Some((t, rest))
  {
    if t == [] {
      ReadQuotedBodyClose(rest);
    } else {
      var u := DoubleQuotes(t[1..]) + "\"" + rest;
      ReadQuotedBodyRoundTrip(t[1..], rest);
      DoubleQuotesHead(t, rest);
      if t[0] == '"' {
        ReadQuotedBodyPair(u);
      } else {
        ReadQuotedBodyChar(t[0], u);
      }
      assert [t[0]] + t[1..] == t;
    }
  }

  /** A lone quote closes the field. */
  lemma DoubleQuotesHead(t: string, rest: string)
    requires t != []
    ensures DoubleQuotes(t) + "\"" + rest
         == (if t[0] == '"' then "\"\"" else [t[0]]) + (DoubleQuotes(t[1..]) + "\"" + rest)
  {
  }

  lemma ReadQuotedBodyClose(rest: string)
    requires rest == [] || rest[0] != '"'
    ensures ReadQuotedBody("\"" + rest) == Some(([], rest))
  {
    assert ("\"" + rest)[1..] == rest;
  }

  /** A doubled quote stands for one quote of the text. */
  lemma ReadQuotedBodyPair(u: string)
    ensures ReadQuotedBody("\"\"" + u) ==
      match ReadQuotedBody(u) case None => None case Some((body, rest)) => Some(("\"" + body, rest))
  {
    assert ("\"\"" + u)[2..] == u;
  }

  /** Any other character is part of the text. */
  lemma ReadQuotedBodyChar(c: char, u: string)
    requires c != '"'
    ensures ReadQuotedBody([c] + u) ==
      match ReadQuotedBody(u) case None => None case Some((body, rest)) => Some(([c] + body, rest))
  {
    assert ([c] + u)[1..] == u;
  }

  lemma {:induction false} ReadPlainRoundTrip(t: string, rest: string)
    requires SafePlain(t)
    requires rest == [] || rest[0] == ',' || rest[0] == '\n'
    ensures ReadPlain(t + rest) == (t, rest)
  {
    if t == [] {
      assert t + rest == rest;
    } else {
      ReadPlainRoundTrip(t[1..], rest);
      assert (t + rest)[1..] == t[1..] + rest;
      assert [t[0]] + t[1..] == t;
    }
  }

  /** A quoted field with doubled inner quotes reads back as the text before doubling. */
  lemma ReadQuotedRoundTrip(t: string, rest: string)
    requires rest == [] || rest[0] == ',' || rest[0] == '\n'
    ensures ReadField("\"" + DoubleQuotes(t) + "\"" + rest) == Some((t, rest))
  {
    var u := DoubleQuotes(t) + "\"" + rest;
    ReadQuotedBodyRoundTrip(t, rest);
    assert "\"" + DoubleQuotes(t) + "\"" + rest == ['"'] + u;
    ReadFieldQuoted(u);
  }

  lemma ReadFieldQuoted(u: string)
    ensures ReadField(['"'] + u) == ReadQuotedBody(u)
  {
    assert (['"'] + u)[1..] == u;
  }

  /** A written field, followed by a separator, a newline or nothing, reads back as its text. */
  lemma ReadFieldRoundTrip(c: Cell, rest: string)
    requires WellFormed(c)
    requires rest == [] || rest[0] == ',' || rest[0] == '\n'
    ensures ReadField(EncodeCell(c) + rest) == Some((c.text, rest))
  {
    match c
    case Plain(t) =>
      ReadPlainRoundTrip(t, rest);
    case Quoted(t) =>
      ReadQuotedRoundTrip(t, rest);
    case Wrapped(t) =>
      assert DoubleQuotes(t) == t;
      ReadQuotedRoundTrip(t, rest);
  }

  /** One written record, followed by a newline or nothing, reads back as the texts of its cells. */
  lemma {:induction false} ReadRecordRoundTrip(cells: seq<Cell>, tail: string)
    requires |cells| >= 1
    requires forall k :: 0 <= k < |cells| ==> WellFormed(cells[k])
    requires tail == [] || tail[0] == '\n'
    ensures ReadRecord(EncodeRecord(cells) + tail)
         == Some((Texts(cells), if tail == [] then EndOfText else NewLine(tail[1..])))
  {
    var first := EncodeCell(cells[0]);
    if |cells| == 1 {
      assert EncodeCells(cells) == [first];
      assert EncodeRecord(cells) == first;
      ReadFieldRoundTrip(cells[0], tail);
      assert Texts(cells) == [cells[0].text];
    } else {
      var more := EncodeRecord(cells[1..]);
      assert EncodeCells(cells)[1..] == EncodeCells(cells[1..]);
      assert EncodeRecord(cells) == first + "," + more;
      assert EncodeRecord(cells) + tail == first + ("," + more + tail);
      ReadFieldRoundTrip(cells[0], "," + more + tail);
      assert ("," + more + tail)[1..] == more + tail;
      ReadRecordRoundTrip(cells[1..], tail);
      assert Texts(cells) == [cells[0].text] + Texts(cells[1..]);
    }
  }

  function EncodeRecords(records: seq<seq<Cell>>): (r: seq<string>)
    ensures |r| == |records|
  {
    if records == [] then [] else [EncodeRecord(records[0])] + EncodeRecords(records[1..])
  }

  function TextRecords(records: seq<seq<Cell>>): (r: seq<seq<string>>)
    ensures |r| == |records|
  {
    if records == [] then [] else [Texts(records[0])] + TextRecords(records[1..])
  }

  predicate WellFormedRecords(records: seq<seq<Cell>>)
  {
    forall i :: 0 <= i < |records| ==>
      |records[i]| >= 1 && forall k :: 0 <= k < |records[i]| ==> WellFormed(records[i][k])
  }

  /** Written records joined by newlines read back as the texts of their cells. */
  lemma {:induction false} ReadCsvRoundTrip(records: seq<seq<Cell>>)
    requires |records| >= 1
    requires WellFormedRecords(records)
    ensures ReadCsv(Join("\n", EncodeRecords(records))) == Some(TextRecords(records))
  {
    var first := EncodeRecord(records[0]);
    if |records| == 1 {
      assert EncodeRecords(records) == [first];
      assert Join("\n", EncodeRecords(records)) == first + [];
      ReadRecordRoundTrip(records[0], []);
      assert TextRecords(records) == [Texts(records[0])];
    } else {
      var more := Join("\n", EncodeRecords(records[1..]));
      assert EncodeRecords(records)[1..] == EncodeRecords(records[1..]);
      assert Join("\n", EncodeRecords(records)) == first + ("\n" + more);
      ReadRecordRoundTrip(records[0], "\n" + more);
      assert ("\n" + more)[1..] == more;
      assert WellFormedRecords(records[1..]) by {
        forall i | 0 <= i < |records| - 1 ensures records[1..][i] == records[i + 1] { }
      }
      ReadCsvRoundTrip(records[1..]);
    }
  }

  // ---------------------------------------------------------------- the export reads back

  lemma TextsCons(c: Cell, rest: seq<Cell>)
    ensures Texts([c] + rest) == [c.text] + Texts(rest)
  {
    assert ([c] + rest)[1..] == rest;
  }

  lemma TextsOfSix(a: Cell, b: Cell, c: Cell, d: Cell, e: Cell, f: Cell)
    ensures Texts([a, b, c, d, e, f]) == [a.text, b.text, c.text, d.text, e.text, f.text]
  {
    TextsCons(f, []);
    TextsCons(e, [f]);
    TextsCons(d, [e, f]);
    TextsCons(c, [d, e, f]);
    TextsCons(b, [c, d, e, f]);
    TextsCons(a, [b, c, d, e, f]);
    assert [a] + [b, c, d, e, f] == [a, b, c, d, e, f];
    assert [b] + [c, d, e, f] == [b, c, d, e, f];
    assert [c] + [d, e, f] == [c, d, e, f];
    assert [d] + [e, f] == [d, e, f];
    assert [e] + [f] == [e, f];
    assert [f] + [] == [f];
  }

  /** The values a reader of the export gets for one product. */
  function ExportedValues(p: Product, fmt: NumberFormat): seq<string>
  {
    [ fmt.idText(p.id), p.title, fmt.priceText(p.price),
      CategoryLabel(p), p.description, Join(";", p.images) ]
  }

  /** What a product line needs for its fields to be delimited unambiguously. */
  predicate Exportable(p: Product, fmt: NumberFormat)
  {
    && SafePlain(fmt.idText(p.id))
    && SafePlain(fmt.priceText(p.price))
    && '"' !in CategoryLabel(p)
    && '"' !in Join(";", p.images)
  }

  function RowRecords(items: seq<Product>, fmt: NumberFormat): (r: seq<seq<Cell>>)
    ensures |r| == |items|
    ensures forall k :: 0 <= k < |items| ==> r[k] == RowCells(items[k], fmt)
  {
    if items == [] then [] else [RowCells(items[0], fmt)] + RowRecords(items[1..], fmt)
  }

  function ExportedRows(items: seq<Product>, fmt: NumberFormat): (r: seq<seq<string>>)
    ensures |r| == |items|
    ensures forall k :: 0 <= k < |items| ==> r[k] == ExportedValues(items[k], fmt)
  {
    if items == [] then [] else [ExportedValues(items[0], fmt)] + ExportedRows(items[1..], fmt)
  }

  /** A product whose plain fields are delimiter-free writes only well-formed cells. */
  lemma RowCellsWellFormed(p: Product, fmt: NumberFormat)
    requires Exportable(p, fmt)
    ensures |RowCells(p, fmt)| >= 1
    ensures forall k :: 0 <= k < |RowCells(p, fmt)| ==> WellFormed(RowCells(p, fmt)[k])
  {
  }

  lemma RowCellsTexts(p: Product, fmt: NumberFormat)
    ensures Texts(RowCells(p, fmt)) == ExportedValues(p, fmt)
  {
    TextsOfSix(Plain(fmt.idText(p.id)), Quoted(p.title), Plain(fmt.priceText(p.price)),
      Wrapped(CategoryLabel(p)), Quoted(p.description), Wrapped(Join(";", p.images)));
  }

  lemma {:induction false} RowRecordsEncode(items: seq<Product>, fmt: NumberFormat)
    ensures EncodeRecords(RowRecords(items, fmt)) == CsvRows(items, fmt)
    ensures TextRecords(RowRecords(items, fmt)) == ExportedRows(items, fmt)
  {
    if items != [] {
      RowCellsTexts(items[0], fmt);
      RowRecordsEncode(items[1..], fmt);
      assert RowRecords(items, fmt)[1..] == RowRecords(items[1..], fmt);
    }
  }

  lemma HeaderCellsTexts()
    ensures Texts(HeaderCells()) == Headers
  {
    TextsOfSix(Plain("ID"), Plain("Title"), Plain("Price"), Plain("Category"), Plain("Description"), Plain("Images"));
  }

  /** No header name holds a separator, a newline or a quote. */
  lemma HeaderCellsWellFormed()
    ensures forall k :: 0 <= k < |HeaderCells()| ==> WellFormed(HeaderCells()[k])
  {
    var h := HeaderCells();
    forall k | 0 <= k < |h| ensures WellFormed(h[k]) {
      var t := h[k].text;
      assert forall i :: 0 <= i < |t| ==> 'A' <= t[i] <= 'z';
    }
  }

  lemma ExportRecordsWellFormed(items: seq<Product>, fmt: NumberFormat)
    requires forall k :: 0 <= k < |items| ==> Exportable(items[k], fmt)
    ensures WellFormedRecords([HeaderCells()] + RowRecords(items, fmt))
  {
    var records := [HeaderCells()] + RowRecords(items, fmt);
    HeaderCellsWellFormed();
    forall i | 0 <= i < |records|
      ensures |records[i]| >= 1 && forall k :: 0 <= k < |records[i]| ==> WellFormed(records[i][k])
    {
      if i > 0 {
        assert records[i] == RowCells(items[i - 1], fmt);
        RowCellsWellFormed(items[i - 1], fmt);
      }
    }
  }

  /** Reading the exported text back yields the header names and, per product of the page,
      its id text, title, price text, category label, description and `;`-joined images,
      provided no quote occurs in the two fields the writer does not double. */
  lemma CsvTextReadsBack(items: seq<Product>, fmt: NumberFormat)
    requires forall k :: 0 <= k < |items| ==> Exportable(items[k], fmt)
    ensures ReadCsv(CsvText(items, fmt)) == Some([Headers] + ExportedRows(items, fmt))
  {
    var records := [HeaderCells()] + RowRecords(items, fmt);
    HeaderCellsTexts();
    RowRecordsEncode(items, fmt);
    ExportRecordsWellFormed(items, fmt);
    assert records[1..] == RowRecords(items, fmt);
    assert EncodeRecords(records) == [EncodeRecord(HeaderCells())] + CsvRows(items, fmt);
    assert TextRecords(records) == [Headers] + ExportedRows(items, fmt);
    ReadCsvRoundTrip(records);
  }

  /** The export has one record per product of the page after the header record,
      even when a description spans several lines. */
  lemma CsvRecordCount(items: seq<Product>, fmt: NumberFormat)
    requires forall k :: 0 <= k < |items| ==> Exportable(items[k], fmt)
    ensures ReadCsv(CsvText(items, fmt)).Some?
    ensures |ReadCsv(CsvText(items, fmt)).value| == |items| + 1
  {
    CsvTextReadsBack(items, fmt);
  }

  /** One product line reads back, on its own, to the product's six values. */
  lemma CsvRowReadsBack(p: Product, fmt: NumberFormat)
    requires Exportable(p, fmt)
    ensures ReadRecord(CsvRow(p, fmt)) == Some((ExportedValues(p, fmt), EndOfText))
  {
    RowCellsWellFormed(p, fmt);
    RowCellsTexts(p, fmt);
    ReadRecordRoundTrip(RowCells(p, fmt), []);
    assert CsvRow(p, fmt) + [] == CsvRow(p, fmt);
  }

  /** The header line is the six names joined by commas, without quotes. */
  lemma HeaderLine()
    ensures EncodeRecord(HeaderCells()) == Join(",", Headers)
  {
    HeaderCellsEncode();
  }

  lemma HeaderCellsEncode()
    ensures EncodeCells(HeaderCells()) == Headers
  {
    var h := HeaderCells();
    EncodeCellsCons(h[5], []);
    EncodeCellsCons(h[4], h[5..]);
    EncodeCellsCons(h[3], h[4..]);
    EncodeCellsCons(h[2], h[3..]);
    EncodeCellsCons(h[1], h[2..]);
    EncodeCellsCons(h[0], h[1..]);
  }

  lemma EncodeCellsCons(c: Cell, rest: seq<Cell>)
    ensures EncodeCells([c] + rest) == [EncodeCell(c)] + EncodeCells(rest)
  {
    assert ([c] + rest)[1..] == rest;
  }

  /** The text starts with the header line; each product line follows after a newline. */
  lemma CsvTextLines(items: seq<Product>, fmt: NumberFormat)
    ensures items == [] ==> CsvText(items, fmt) == Join(",", Headers)
    ensures items != [] ==> CsvText(items, fmt) == Join(",", Headers) + "\n" + Join("\n", CsvRows(items, fmt))
  {
    HeaderLine();
    var lines := [EncodeRecord(HeaderCells())] + CsvRows(items, fmt);
    assert lines[1..] == CsvRows(items, fmt);
  }
}
