/**
  PdfProcessingService: turns the tables of a PDF into a CSV file and
  archives it. The PDF loader and the table detector are not modelled: their
  output, the rows of every page in page order, is an input.

  The pipeline: keep the rows that hold data, with the first one as header
  and later copies of the header dropped; expand the configured abbreviations
  in place; write every row as one CSV line of quoted cells; zip the CSV.
*/
module PdfProcessing {
  import opened Text
  import opened Errors
  import opened FileSystems
  import ZipManager

  /** One table row: the text of its cells. */
  type Row = seq<string>

  // ---------------------------------------------------------------------------
  // The row filter of extractTabularData

  /** allCellsBlank: every cell is empty or whitespace (true for no cells at all). */
  predicate AllCellsBlank(cells: Row)
    ensures cells == [] ==> AllCellsBlank(cells)
    ensures AllCellsBlank(cells) <==> forall c | c in cells :: IsBlank(c)
  {
    forall i :: 0 <= i < |cells| ==> IsBlank(cells[i])
  }

  /** A row that is neither empty nor made of blank cells: one with some non-blank cell. */
  predicate IsDataRow(cells: Row)
    ensures IsDataRow(cells) <==> exists c | c in cells :: !IsBlank(c)
  {
    cells != [] && !AllCellsBlank(cells)
  }

  /** The rows of every page, in page order. */
  function Flatten(pages: seq<seq<Row>>): (r: seq<Row>)
    ensures forall row | row in r :: exists p | p in pages :: row in p
  {
    if pages == [] then []
    else
      assert forall p | p in pages[1..] :: p in pages;
      pages[0] + Flatten(pages[1..])
  }

  /** Flattening follows the pages: the rows of a + b are those of a, then those of b. */
  lemma {:induction false} FlattenAppend(a: seq<seq<Row>>, b: seq<seq<Row>>)
    ensures Flatten(a + b) == Flatten(a) + Flatten(b)
    decreases |a|
  {
    if a != [] {
      assert (a + b)[1..] == a[1..] + b;
      FlattenAppend(a[1..], b);
    } else {
      assert a + b == b;
    }
  }

  /** One page gives its own rows, in order. */
  lemma FlattenPage(page: seq<Row>)
    ensures Flatten([page]) == page
  {
    assert Flatten([page]) == page + Flatten([]);
  }

  /**
    The loop body over the rows still to come, given the header chosen so far:
    the first data row becomes the header, a later row equal to the header is
    dropped, every other data row is kept.
  */
  function FilterRows(rows: seq<Row>, header: Option<Row>): seq<Row>
  {
    if rows == [] then []
    else if !IsDataRow(rows[0]) then FilterRows(rows[1..], header)
    else if header.None? then [rows[0]] + FilterRows(rows[1..], Some(rows[0]))
    else if rows[0] == header.value then FilterRows(rows[1..], header)
    else [rows[0]] + FilterRows(rows[1..], header)
  }

  /** One row of the filter: a data row other than the header is kept, and the first data row becomes the header. */
  lemma FilterRowsHead(cells: Row, rest: seq<Row>, header: Option<Row>)
    ensures var kept := IsDataRow(cells) && (header.None? || cells != header.value);
            var next := if IsDataRow(cells) && header.None? then Some(cells) else header;
            FilterRows([cells] + rest, header) == (if kept then [cells] else []) + FilterRows(rest, next)
  {
    assert ([cells] + rest)[1..] == rest;
  }

  /** What extractTabularData returns for the given pages. */
  function TabularRows(pages: seq<seq<Row>>): seq<Row>
  {
    FilterRows(Flatten(pages), None)
  }

  /** The first data row, if any: a reference for which row becomes the header. */
  function FirstDataRow(rows: seq<Row>): (r: Option<Row>)
    ensures r.Some? ==> r.value in rows && IsDataRow(r.value)
    ensures r.Some? ==> exists i :: 0 <= i < |rows| && rows[i] == r.value && forall j :: 0 <= j < i ==> !IsDataRow(rows[j])
    ensures r.None? <==> forall row | row in rows :: !IsDataRow(row)
  {
    if rows == [] then None
    else if IsDataRow(rows[0]) then Some(rows[0])
    else
      assert forall row | row in rows[1..] :: row in rows;
      assert rows == [rows[0]] + rows[1..];
      FirstAfterBlank(rows, FirstDataRow(rows[1..]));
      FirstDataRow(rows[1..])
  }

  /** A first data row of the rows after a row without data is also the first data row of all of them. */
  lemma FirstAfterBlank(rows: seq<Row>, r: Option<Row>)
    requires rows != [] && !IsDataRow(rows[0])
    requires r.Some? ==> exists i :: 0 <= i < |rows| - 1 && rows[1..][i] == r.value && forall j :: 0 <= j < i ==> !IsDataRow(rows[1..][j])
    ensures r.Some? ==> exists i :: 0 <= i < |rows| && rows[i] == r.value && forall j :: 0 <= j < i ==> !IsDataRow(rows[j])
  {
    if r.Some? {
      var i :| 0 <= i < |rows| - 1 && rows[1..][i] == r.value && forall j :: 0 <= j < i ==> !IsDataRow(rows[1..][j]);
      forall j | 0 <= j < i + 1 ensures !IsDataRow(rows[j]) {
        if j > 0 {
          assert rows[j] == rows[1..][j - 1];
        }
      }
    }
  }

  /** a is b with some elements left out (order kept). */
  predicate Subsequence(a: seq<Row>, b: seq<Row>)
    decreases |b|
  {
    if a == [] then true
    else if b == [] then false
    else (a[0] == b[0] && Subsequence(a[1..], b[1..])) || Subsequence(a, b[1..])
  }

  /**
    The rows kept are data rows, in input order, never a copy of a header
    already chosen, and a row is kept or stands as the header exactly when it
    is a data row.
  */
  lemma {:induction false} FilterRowsKeeps(rows: seq<Row>, header: Option<Row>)
    ensures var r := FilterRows(rows, header);
            (forall row | row in r :: IsDataRow(row))
            && Subsequence(r, rows)
            && (header.Some? ==> forall row | row in r :: row != header.value)
            && (header.Some? ==> forall row :: row in r <==> row in rows && IsDataRow(row) && row != header.value)
            && (header.None? ==> forall row :: row in r <==> row in rows && IsDataRow(row))
  {
    if rows != [] {
      var head, tail := rows[0], rows[1..];
      assert rows == [head] + tail;
      if !IsDataRow(head) || (header.Some? && head == header.value) {
        FilterRowsKeeps(tail, header);
      } else if header.None? {
        FilterRowsKeeps(tail, Some(head));
        var r := FilterRows(rows, header);
        assert r == [head] + FilterRows(tail, Some(head));
        assert r[1..] == FilterRows(tail, Some(head));
      } else {
        FilterRowsKeeps(tail, header);
        var r := FilterRows(rows, header);
        assert r[1..] == FilterRows(tail, header);
      }
    }
  }

  /** Once the header is chosen, every data row other than the header is kept as often as it occurs. */
  lemma {:induction false} FilterRowsCountsAfterHeader(rows: seq<Row>, h: Row)
    ensures forall row :: multiset(FilterRows(rows, Some(h)))[row]
                            == if IsDataRow(row) && row != h then multiset(rows)[row] else 0
  {
    if rows != [] {
      var head, tail := rows[0], rows[1..];
      assert rows == [head] + tail;
      FilterRowsCountsAfterHeader(tail, h);
      if IsDataRow(head) && head != h {
        assert FilterRows(rows, Some(h)) == [head] + FilterRows(tail, Some(h));
      }
    }
  }

  /**
    Before a header exists: the first data row appears once, as the header, and
    every other data row as often as it occurs.
  */
  lemma {:induction false} FilterRowsCounts(rows: seq<Row>)
    ensures forall row :: multiset(FilterRows(rows, None))[row]
                            == if FirstDataRow(rows).Some? && row == FirstDataRow(rows).value then 1
                               else if IsDataRow(row) then multiset(rows)[row] else 0
  {
    if rows != [] {
      var head, tail := rows[0], rows[1..];
      assert rows == [head] + tail;
      if !IsDataRow(head) {
        FilterRowsCounts(tail);
      } else {
        FilterRowsCountsAfterHeader(tail, head);
        assert FilterRows(rows, None) == [head] + FilterRows(tail, Some(head));
      }
    }
  }

  /** Before a header exists, the output is empty exactly when no data row comes, and otherwise starts with the first one. */
  lemma {:induction false} FilterRowsHeader(rows: seq<Row>)
    ensures var r := FilterRows(rows, None);
            (r == [] <==> FirstDataRow(rows).None?)
            && (r != [] ==> r[0] == FirstDataRow(rows).value && forall i :: 0 < i < |r| ==> r[i] != r[0])
  {
    if rows != [] {
      if !IsDataRow(rows[0]) {
        FilterRowsHeader(rows[1..]);
      } else {
        var r := FilterRows(rows, None);
        FilterRowsKeeps(rows[1..], Some(rows[0]));
        assert r[1..] == FilterRows(rows[1..], Some(rows[0]));
        forall i | 0 < i < |r| ensures r[i] != r[0] {
          assert r[i] in r[1..];
        }
      }
    }
  }

  /**
    extractTabularData's filter over whole pages: no row without data reaches
    the output, the first data row is row 0 and never repeats, and the output
    keeps every other data row in page-then-row order.
  */
  lemma TabularRowsProperties(pages: seq<seq<Row>>)
    ensures var r := TabularRows(pages);
            (forall row | row in r :: IsDataRow(row))
            && Subsequence(r, Flatten(pages))
            && (r == [] <==> forall row | row in Flatten(pages) :: !IsDataRow(row))
            && (r != [] ==> r[0] == FirstDataRow(Flatten(pages)).value && forall i :: 0 < i < |r| ==> r[i] != r[0])
            && (forall row :: row in r <==> row in Flatten(pages) && IsDataRow(row))
            && (forall row :: multiset(r)[row]
                                == if r != [] && row == r[0] then 1
                                   else if IsDataRow(row) then multiset(Flatten(pages))[row] else 0)
  {
    FilterRowsKeeps(Flatten(pages), None);
    FilterRowsHeader(Flatten(pages));
    FilterRowsCounts(Flatten(pages));
  }

  lemma FlattenUnfold(pages: seq<seq<Row>>, i: nat)
    requires i < |pages|
    ensures Flatten(pages[i..]) == pages[i] + Flatten(pages[i + 1..])
  {
    assert pages[i..][1..] == pages[i + 1..];
  }

  // ---------------------------------------------------------------------------
  // Abbreviations

  const OdontologicalSegment := "Seg. Odontol\U{00F3}gica"
  const AmbulatorySegment := "Seg. Ambulatorial"

  /** AppConfig.ABBREVIATION_MAPPING, in declaration order. */
  const AbbreviationMapping: seq<(string, string)> := [("OD", OdontologicalSegment), ("AMB", AmbulatorySegment)]

  /** A map built by putting the pairs in order: a later pair overrides an earlier one. */
  function PutAll(m: map<string, string>, pairs: seq<(string, string)>): (r: map<string, string>)
    ensures forall k | k in m :: k in r
    ensures forall i | 0 <= i < |pairs| :: pairs[i].0 in r
    decreases |pairs|
  {
    if pairs == [] then m else PutAll(m[pairs[0].0 := pairs[0].1], pairs[1..])
  }

  /** The configured pairs give a map with exactly two keys. */
  lemma ConfiguredMap()
    ensures PutAll(map[], AbbreviationMapping) == map["OD" := OdontologicalSegment, "AMB" := AmbulatorySegment]
  {
    var first := map["OD" := OdontologicalSegment];
    assert AbbreviationMapping[1..] == [("AMB", AmbulatorySegment)];
    assert AbbreviationMapping[1..][1..] == [];
    assert PutAll(map[], AbbreviationMapping) == PutAll(first, [("AMB", AmbulatorySegment)]);
    assert PutAll(first, [("AMB", AmbulatorySegment)]) == PutAll(first["AMB" := AmbulatorySegment], []);
  }

  /** The cell after applyAbbreviations: the mapped text when its upper case is a key, else unchanged. */
  function AbbreviateCell(m: map<string, string>, cell: string): (r: string)
    ensures r != cell ==> Upper(cell) in m
    ensures Upper(cell) in m ==> r == m[Upper(cell)]
  {
    if Upper(cell) in m then m[Upper(cell)] else cell
  }

  function AbbreviateRow(m: map<string, string>, row: Row): (r: Row)
    ensures |r| == |row| && forall i :: 0 <= i < |row| ==> r[i] == AbbreviateCell(m, row[i])
  {
    seq(|row|, i requires 0 <= i < |row| => AbbreviateCell(m, row[i]))
  }

  function AbbreviateRows(m: map<string, string>, rows: seq<Row>): (r: seq<Row>)
    ensures |r| == |rows| && forall i :: 0 <= i < |rows| ==> r[i] == AbbreviateRow(m, rows[i])
  {
    seq(|rows|, i requires 0 <= i < |rows| => AbbreviateRow(m, rows[i]))
  }

  /** The lookup ignores case: cells with the same upper case become the same text. */
  lemma AbbreviationIgnoresCase(m: map<string, string>, a: string, b: string)
    requires Upper(a) == Upper(b) && Upper(a) in m
    ensures AbbreviateCell(m, a) == AbbreviateCell(m, b) == m[Upper(a)]
  {
  }

  /** "od" and "OD" both become the odontological segment; other text stays. */
  lemma AbbreviationExamples(m: map<string, string>)
    requires m == PutAll(map[], AbbreviationMapping)
    ensures AbbreviateCell(m, "od") == OdontologicalSegment && AbbreviateCell(m, "OD") == OdontologicalSegment
    ensures AbbreviateCell(m, "Amb") == AmbulatorySegment
    ensures AbbreviateCell(m, "ODONTO") == "ODONTO"
  {
    ConfiguredMap();
    assert Upper("od") == "OD" && Upper("OD") == "OD" && Upper("Amb") == "AMB";
    assert Upper("ODONTO") == "ODONTO";
  }

  /** With the configured map, expanding twice is expanding once: no expansion is itself a key. */
  lemma AbbreviationIdempotent(m: map<string, string>, cell: string)
    requires m == PutAll(map[], AbbreviationMapping)
    ensures AbbreviateCell(m, AbbreviateCell(m, cell)) == AbbreviateCell(m, cell)
  {
    ConfiguredMap();
    assert |Upper(OdontologicalSegment)| == 17 && |Upper(AmbulatorySegment)| == 17;
    if Upper(cell) !in m {
      assert AbbreviateCell(m, cell) == cell;
    }
  }

  // ---------------------------------------------------------------------------
  // CSV

  const Quote: char := '"'

  /** s.replace("\"", "\"\""). */
  function EscapeQuotes(s: string): (r: string)
    ensures |r| == |s| + Count(s, Quote)
  {
    if s == [] then []
    else (if s[0] == Quote then [Quote, Quote] else [s[0]]) + EscapeQuotes(s[1..])
  }

  /** One cell as writeCsv writes it: escaped and wrapped in quotes. */
  function EncodeCell(s: string): (r: string)
    ensures |r| == |s| + Count(s, Quote) + 2
    ensures r[0] == Quote && r[|r| - 1] == Quote
  {
    [Quote] + EscapeQuotes(s) + [Quote]
  }

  function EncodeCells(row: Row): (r: seq<string>)
    ensures |r| == |row| && forall i :: 0 <= i < |row| ==> r[i] == EncodeCell(row[i])
  {
    seq(|row|, i requires 0 <= i < |row| => EncodeCell(row[i]))
  }

  /** One line of the file, without its line break: the encoded cells joined by commas. */
  function CsvLine(row: Row): (r: string)
    ensures r == [] <==> row == []
    ensures row != [] ==> r[0] == Quote && r[|r| - 1] == Quote
  {
    JoinEnds(EncodeCells(row), ",");
    Join(EncodeCells(row), ",")
  }

  /** The whole file: one line per row, in row order, each ended by the line separator. */
  function CsvDocument(rows: seq<Row>): (r: string)
    ensures r == [] <==> rows == []
    ensures rows != [] ==> r[|r| - 1] == '\n'
  {
    if rows == [] then "" else CsvLine(rows[0]) + "\n" + CsvDocument(rows[1..])
  }

  /** Undoubling the quotes recovers the cell. */
  function UnescapeQuotes(t: string): string {
    if t == [] then []
    else if |t| >= 2 && t[0] == Quote && t[1] == Quote then [Quote] + UnescapeQuotes(t[2..])
    else [t[0]] + UnescapeQuotes(t[1..])
  }

  lemma {:induction false} UnescapeEscape(s: string)
    ensures UnescapeQuotes(EscapeQuotes(s)) == s
  {
    if s != [] {
      UnescapeEscape(s[1..]);
      if s[0] == Quote {
        assert EscapeQuotes(s)[2..] == EscapeQuotes(s[1..]);
      } else {
        assert EscapeQuotes(s)[1..] == EscapeQuotes(s[1..]);
      }
      assert s == [s[0]] + s[1..];
    }
  }

  /**
    Reads one quoted cell whose opening quote is already consumed: the cell and
    what follows its closing quote.
  */
  function ParseCell(s: string): (r: Option<(string, string)>)
    ensures r.Some? ==> |r.value.1| < |s|
  {
    if s == [] then None
    else if s[0] == Quote then
      if |s| >= 2 && s[1] == Quote then
        match ParseCell(s[2..])
        case None => None
        case Some(p) => Some(([Quote] + p.0, p.1))
      else Some(([], s[1..]))
    else
      match ParseCell(s[1..])
      case None => None
      case Some(p) => Some(([s[0]] + p.0, p.1))
  }

  /** The cells of one record after its first opening quote, and the text after its line break. */
  function ParseFields(s: string): (r: Option<(Row, string)>)
    ensures r.Some? ==> |r.value.1| < |s|
    decreases |s|
  {
    match ParseCell(s)
    case None => None
    case Some(p) =>
      var rest := p.1;
      if rest == [] then None
      else if rest[0] == '\n' then Some(([p.0], rest[1..]))
      else if |rest| >= 2 && rest[0] == ',' && rest[1] == Quote then
        match ParseFields(rest[2..])
        case None => None
        case Some(q) => Some(([p.0] + q.0, q.1))
      else None
  }

  /** One record: an empty line is the row with no cells. */
  function ParseRecord(s: string): (r: Option<(Row, string)>)
    ensures r.Some? ==> |r.value.1| < |s|
  {
    if s == [] then None
    else if s[0] == '\n' then Some(([], s[1..]))
    else if s[0] == Quote then ParseFields(s[1..])
    else None
  }

  /** A reader for the files writeCsv produces. */
  function ParseCsv(s: string): Option<seq<Row>>
    decreases |s|
  {
    if s == [] then Some([])
    else match ParseRecord(s)
      case None => None
      case Some(p) =>
        match ParseCsv(p.1)
        case None => None
        case Some(rows) => Some([p.0] + rows)
  }

  lemma {:induction false} ParseEscapedCell(x: string, tail: string)
    requires tail == [] || tail[0] != Quote
    ensures ParseCell(EscapeQuotes(x) + [Quote] + tail) == Some((x, tail))
  {
    var s := EscapeQuotes(x) + [Quote] + tail;
    if x == [] {
      assert s == [Quote] + tail;
      assert s[1..] == tail;
    } else {
      ParseEscapedCell(x[1..], tail);
      if x[0] == Quote {
        assert s == [Quote, Quote] + (EscapeQuotes(x[1..]) + [Quote] + tail);
        assert s[2..] == EscapeQuotes(x[1..]) + [Quote] + tail;
      } else {
        assert s == [x[0]] + (EscapeQuotes(x[1..]) + [Quote] + tail);
        assert s[1..] == EscapeQuotes(x[1..]) + [Quote] + tail;
      }
      assert x == [x[0]] + x[1..];
    }
  }

  lemma CsvLineUnfold(row: Row)
    requires row != []
    ensures |row| == 1 ==> CsvLine(row) == EncodeCell(row[0])
    ensures |row| > 1 ==> CsvLine(row) == EncodeCell(row[0]) + "," + CsvLine(row[1..])
  {
    assert EncodeCells(row[1..]) == EncodeCells(row)[1..];
  }

  /** A cell that closes a record. */
  lemma ParseLastCell(x: string, tail: string, whole: string)
    requires whole == EncodeCell(x) + "\n" + tail
    ensures ParseFields(whole[1..]) == Some(([x], tail))
  {
    var nl := "\n" + tail;
    assert whole[1..] == EscapeQuotes(x) + [Quote] + nl;
    ParseEscapedCell(x, nl);
    assert nl[0] == '\n' && nl[1..] == tail;
  }

  /** A cell followed by a comma and the next quoted cell. */
  lemma ParseCellThen(x: string, more: string, cells: Row, tail: string, whole: string)
    requires more != [] && more[0] == Quote
    requires ParseFields(more[1..]) == Some((cells, tail))
    requires whole == EncodeCell(x) + "," + more
    ensures ParseFields(whole[1..]) == Some(([x] + cells, tail))
  {
    var comma := "," + more;
    assert whole[1..] == EscapeQuotes(x) + [Quote] + comma;
    ParseEscapedCell(x, comma);
    assert comma[0] == ',' && comma[1] == Quote && comma[2..] == more[1..];
  }

  lemma {:induction false} ParseLine(row: Row, tail: string)
    requires row != []
    ensures CsvLine(row) != [] && CsvLine(row)[0] == Quote
    ensures ParseFields((CsvLine(row) + "\n" + tail)[1..]) == Some((row, tail))
  {
    CsvLineUnfold(row);
    var whole := CsvLine(row) + "\n" + tail;
    if |row| == 1 {
      ParseLastCell(row[0], tail, whole);
      assert row == [row[0]];
    } else {
      var rest := CsvLine(row[1..]);
      ParseLine(row[1..], tail);
      var more := rest + "\n" + tail;
      assert more[0] == Quote;
      assert whole == EncodeCell(row[0]) + "," + more;
      ParseCellThen(row[0], more, row[1..], tail, whole);
      assert row == [row[0]] + row[1..];
    }
  }

  /** The first record of a written file is the first row, followed by the text of the others. */
  lemma FirstRecord(rows: seq<Row>)
    requires rows != []
    ensures ParseRecord(CsvDocument(rows)) == Some((rows[0], CsvDocument(rows[1..])))
  {
    var rest := CsvDocument(rows[1..]);
    assert CsvDocument(rows) == CsvLine(rows[0]) + "\n" + rest;
    if rows[0] == [] {
      assert CsvLine(rows[0]) == "";
      assert CsvDocument(rows) == "\n" + rest;
    } else {
      ParseLine(rows[0], rest);
    }
  }

  /** The round trip of the serialiser: reading the file back gives the rows, cell for cell. */
  lemma {:induction false} ParseCsvDocument(rows: seq<Row>)
    ensures ParseCsv(CsvDocument(rows)) == Some(rows)
  {
    if rows != [] {
      FirstRecord(rows);
      ParseCsvDocument(rows[1..]);
      assert rows == [rows[0]] + rows[1..];
    }
  }

  /** Writing rows a then rows b gives the lines of a followed by the lines of b. */
  lemma {:induction false} CsvDocumentAppend(a: seq<Row>, b: seq<Row>)
    ensures CsvDocument(a + b) == CsvDocument(a) + CsvDocument(b)
  {
    if a == [] {
      assert a + b == b;
    } else {
      assert (a + b)[1..] == a[1..] + b;
      CsvDocumentAppend(a[1..], b);
    }
  }

  lemma CsvDocumentSnoc(rows: seq<Row>, i: nat)
    requires i < |rows|
    ensures CsvDocument(rows[..i + 1]) == CsvDocument(rows[..i]) + CsvLine(rows[i]) + "\n"
  {
    assert rows[..i + 1] == rows[..i] + [rows[i]];
    CsvDocumentAppend(rows[..i], [rows[i]]);
    assert CsvDocument([rows[i]]) == CsvLine(rows[i]) + "\n" + CsvDocument([]);
  }

  /** writeCsv's loop: one println per row. */
  method WriteCsvText(rows: seq<Row>) returns (text: string)
    ensures text == CsvDocument(rows)
  {
    text := "";
    var i := 0;
    while i < |rows|
      invariant 0 <= i <= |rows|
      invariant text == CsvDocument(rows[..i])
    {
      var cells := EncodeCells(rows[i]);
      var line := Join(cells, ",");
      assert line == CsvLine(rows[i]);
      CsvDocumentSnoc(rows, i);
      text := text + line + "\n";
      i := i + 1;
    }
    assert rows[..i] == rows;
  }

  /** The bytes FileWriter stores for the text, in UTF-8. */
  function Utf8(s: string): (r: seq<byte>)
    ensures |r| >= |s|
  {
    if s == [] then []
    else
      var c := s[0] as int;
      var head: seq<byte> :=
        if c < 0x80 then [c as byte]
        else if c < 0x800 then [(0xC0 + c / 0x40) as byte, (0x80 + c % 0x40) as byte]
        else if c < 0x10000 then [(0xE0 + c / 0x1000) as byte, (0x80 + c / 0x40 % 0x40) as byte, (0x80 + c % 0x40) as byte]
        else [(0xF0 + c / 0x40000) as byte, (0x80 + c / 0x1000 % 0x40) as byte,
              (0x80 + c / 0x40 % 0x40) as byte, (0x80 + c % 0x40) as byte];
      head + Utf8(s[1..])
  }

  // ---------------------------------------------------------------------------
  // processPdf

  const PdfErrorMessage := "Erro no processamento do PDF"
  const SuccessMessage := "Processo conclu\U{00ED}do com sucesso"

  /** What a run of processPdf did to the file system and what it returned or threw. */
  datatype Run = Run(state: FsState, result: Result<string>)

  /**
    processPdf. The PDF must be a readable file and parse (tables is None when
    PDFBox or Tabula fails); an IOException from reading it or writing the CSV
    becomes a PdfParseException. The archiver wraps its own failures in a
    ZipException, which is not an IOException and reaches the caller as it is.
  */
  function ProcessPdfStep(m: map<string, string>, st: FsState, pdfPath: Path, tables: Option<seq<seq<Row>>>,
                          csvOutput: Path, zipOutput: Path): (r: Run)
    ensures r.result.Err? && r.result.error.PdfParse? ==> r.state == st && r.result.error.message == PdfErrorMessage
    ensures (r.result.Err? && r.result.error.PdfParse?) <==>
              (pdfPath !in st.files || tables.None? || csvOutput == [] || Parent(csvOutput) !in st.dirs || csvOutput in st.dirs)
    ensures r.result.Err? && !r.result.error.PdfParse? && zipOutput == [] ==> r.result.error == NullPointer
    ensures r.result.Err? && !r.result.error.PdfParse? && zipOutput != [] ==>
              r.result.error
                == ZipFailure(ZipManager.ArchiveErrorPrefix + PathString(ZipManager.ArchivePath(Parent(zipOutput), FileName(zipOutput))))
    ensures r.result.Ok? ==> r.result.value == SuccessMessage
    ensures r.state.dirs == st.dirs
  {
    if pdfPath !in st.files || tables.None? then Run(st, Err(PdfParse(PdfErrorMessage)))
    else
      var rows := AbbreviateRows(m, TabularRows(tables.value));
      var written := WriteFileStep(st, csvOutput, Bytes(Utf8(CsvDocument(rows))));
      if written.outcome.Fail? then Run(st, Err(PdfParse(PdfErrorMessage)))
      else if zipOutput == [] then Run(written.state, Err(NullPointer))
      else
        var archived := ZipManager.ArchiveFilesStep(written.state, [csvOutput], Parent(zipOutput), FileName(zipOutput));
        if archived.outcome.Fail? then Run(archived.state, Err(archived.outcome.error))
        else Run(archived.state, Ok(SuccessMessage))
  }

  /** A PDF that does not exist is a PdfParseException, and nothing is written. */
  lemma MissingPdfFails(m: map<string, string>, st: FsState, pdfPath: Path, tables: Option<seq<seq<Row>>>,
                        csvOutput: Path, zipOutput: Path)
    requires !st.Exists(pdfPath)
    ensures ProcessPdfStep(m, st, pdfPath, tables, csvOutput, zipOutput) == Run(st, Err(PdfParse(PdfErrorMessage)))
  {
  }

  /**
    A successful run: the CSV holds the filtered, expanded rows, and the
    archive next to zipOutput holds the CSV as its one entry.
  */
  lemma ProcessPdfWritesCsvAndArchive(m: map<string, string>, st: FsState, pdfPath: Path, pages: seq<seq<Row>>,
                                      csvOutput: Path, zipOutput: Path)
    requires WellFormed(st) && pdfPath in st.files
    requires csvOutput != [] && Parent(csvOutput) in st.dirs && csvOutput !in st.dirs
    requires zipOutput != [] && Parent(zipOutput) in st.dirs
    requires ZipManager.ArchivePath(Parent(zipOutput), FileName(zipOutput)) !in st.dirs
    requires ZipManager.ArchivePath(Parent(zipOutput), FileName(zipOutput)) != csvOutput
    ensures var csv := Bytes(Utf8(CsvDocument(AbbreviateRows(m, TabularRows(pages)))));
            var archive := ZipManager.ArchivePath(Parent(zipOutput), FileName(zipOutput));
            ProcessPdfStep(m, st, pdfPath, Some(pages), csvOutput, zipOutput)
              == Run(st.(files := st.files[csvOutput := csv][archive := Zip([Entry(FileName(csvOutput), csv)])]),
                     Ok(SuccessMessage))
  {
    var csv := Bytes(Utf8(CsvDocument(AbbreviateRows(m, TabularRows(pages)))));
    WriteFileKeepsShape(st, csvOutput, csv);
    var written := st.(files := st.files[csvOutput := csv]);
    var files := [csvOutput];
    assert ZipManager.Present(written, files) == [csvOutput] by {
      assert files[1..] == [];
    }
    assert ZipManager.EntriesOf(written, [csvOutput]) == [Entry(FileName(csvOutput), csv)];
    assert ZipManager.RegularInputs(written, files);
    ZipManager.ArchiveFilesKept(written, files, Parent(zipOutput), FileName(zipOutput));
  }

  // ---------------------------------------------------------------------------
  // The service object

  /** The String[] arrays the extracted rows become: one new array per row, holding its cells. */
  method NewRowArrays(extracted: seq<Row>) returns (rows: seq<array<string>>)
    ensures |rows| == |extracted|
    ensures forall x :: 0 <= x < |rows| ==> fresh(rows[x]) && rows[x][..] == extracted[x]
    ensures forall x, y :: 0 <= x < y < |rows| ==> rows[x] != rows[y]
  {
    rows := [];
    var k := 0;
    while k < |extracted|
      invariant 0 <= k <= |extracted| && |rows| == k
      invariant forall x :: 0 <= x < k ==> fresh(rows[x]) && rows[x][..] == extracted[x]
      invariant forall x, y :: 0 <= x < y < k ==> rows[x] != rows[y]
    {
      var row := new string[|extracted[k]|](j requires 0 <= j < |extracted[k]| => extracted[k][j]);
      rows := rows + [row];
      k := k + 1;
    }
  }

  /** The rows as values again, read back from their arrays. */
  method RowContents(rows: seq<array<string>>) returns (values: seq<Row>)
    ensures |values| == |rows| && forall x :: 0 <= x < |rows| ==> values[x] == rows[x][..]
  {
    values := [];
    var k := 0;
    while k < |rows|
      invariant 0 <= k <= |rows| && |values| == k
      invariant forall x :: 0 <= x < k ==> values[x] == rows[x][..]
    {
      values := values + [rows[k][..]];
      k := k + 1;
    }
  }

  class PdfProcessingService {
    var abbreviationMap: map<string, string>

    /** Builds the abbreviation map from the configured pairs. */
    constructor ()
      ensures abbreviationMap == PutAll(map[], AbbreviationMapping)
      ensures abbreviationMap == map["OD" := OdontologicalSegment, "AMB" := AmbulatorySegment]
    {
      var m: map<string, string> := map[];
      var i := 0;
      while i < |AbbreviationMapping|
        invariant 0 <= i <= |AbbreviationMapping|
        invariant PutAll(m, AbbreviationMapping[i..]) == PutAll(map[], AbbreviationMapping)
      {
        var pair := AbbreviationMapping[i];
        assert AbbreviationMapping[i..][1..] == AbbreviationMapping[i + 1..];
        m := m[pair.0 := pair.1];
        i := i + 1;
      }
      abbreviationMap := m;
      ConfiguredMap();
    }

    /** extractTabularData: the nested loop over pages and their rows, with the header remembered. */
    method ExtractTabularData(pages: seq<seq<Row>>) returns (allRows: seq<Row>)
      ensures allRows == TabularRows(pages)
    {
      allRows := [];
      var header: Option<Row> := None;
      ghost var target := TabularRows(pages);
      var i := 0;
      while i < |pages|
        invariant 0 <= i <= |pages|
        invariant allRows + FilterRows(Flatten(pages[i..]), header) == target
      {
        var pageRows := pages[i];
        FlattenUnfold(pages, i);
        var rest := Flatten(pages[i + 1..]);
        var j := 0;
        while j < |pageRows|
          invariant 0 <= j <= |pageRows|
          invariant allRows + FilterRows(pageRows[j..] + rest, header) == target
        {
          var cells := pageRows[j];
          ghost var later := pageRows[j + 1..] + rest;
          assert pageRows[j..] + rest == [cells] + later;
          FilterRowsHead(cells, later, header);
          if IsDataRow(cells) {
            if header.None? {
              header := Some(cells);
              allRows := allRows + [cells];
            } else if cells != header.value {
              allRows := allRows + [cells];
            }
          }
          assert allRows + FilterRows(later, header) == target;
          j := j + 1;
        }
        assert pageRows[j..] + rest == rest;
        i := i + 1;
      }
    }

    /** applyAbbreviations: every cell of every row rewritten in place. */
    method ApplyAbbreviations(rows: seq<array<string>>)
      requires forall i, j :: 0 <= i < j < |rows| ==> rows[i] != rows[j]
      modifies set r | r in rows
      ensures forall k :: 0 <= k < |rows| ==> rows[k][..] == AbbreviateRow(abbreviationMap, old(rows[k][..]))
    {
      var r := 0;
      while r < |rows|
        invariant 0 <= r <= |rows|
        invariant forall k :: 0 <= k < r ==> rows[k][..] == AbbreviateRow(abbreviationMap, old(rows[k][..]))
        invariant forall k :: r <= k < |rows| ==> rows[k][..] == old(rows[k][..])
      {
        var row := rows[r];
        var i := 0;
        while i < row.Length
          modifies row
          invariant 0 <= i <= row.Length
          invariant forall x :: 0 <= x < i ==> row[x] == AbbreviateCell(abbreviationMap, old(row[x]))
          invariant forall x :: i <= x < row.Length ==> row[x] == old(row[x])
        {
          var cell := row[i];
          var upper := Upper(cell);
          if upper in abbreviationMap {
            row[i] := abbreviationMap[upper];
          }
          i := i + 1;
        }
        r := r + 1;
      }
    }

    /** processPdf on the live file system. */
    method ProcessPdf(fs: FileSystem, pdfPath: Path, tables: Option<seq<seq<Row>>>, csvOutput: Path, zipOutput: Path)
      returns (result: Result<string>)
      requires fs.Valid()
      modifies fs
      ensures fs.Valid()
      ensures Run(fs.State(), result) == ProcessPdfStep(abbreviationMap, old(fs.State()), pdfPath, tables, csvOutput, zipOutput)
    {
      if pdfPath !in fs.files || tables.None? {
        return Err(PdfParse(PdfErrorMessage));
      }
      var extracted := ExtractTabularData(tables.value);
      var rows := NewRowArrays(extracted);
      ApplyAbbreviations(rows);
      var expanded := RowContents(rows);
      assert expanded == AbbreviateRows(abbreviationMap, extracted);
      var text := WriteCsvText(expanded);
      var written := fs.WriteFile(csvOutput, Bytes(Utf8(text)));
      if written.Fail? {
        return Err(PdfParse(PdfErrorMessage));
      }
      if zipOutput == [] {
        return Err(NullPointer);
      }
      var archived := ZipManager.ArchiveFiles(fs, [csvOutput], Parent(zipOutput), FileName(zipOutput));
      if archived.Fail? {
        return Err(archived.error);
      }
      return Ok(SuccessMessage);
    }
  }
}
