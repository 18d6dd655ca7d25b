/** `toCSVFromObjects`: rows of generated form data as CSV text, with a
    header line and one line per row. */
module CsvWriter {
  import opened Wrappers
  import Strings
  import Sequences
  import OrderedMaps
  import CsvReader
  import opened FieldSpecs

  /** A scalar that must be quoted: it holds a comma, a newline or a quote. */
  predicate NeedsQuotes(t: string) {
    ',' in t || '\n' in t || '"' in t
  }

  /** `escapeCell(val)` as the source writes it; `None` is `null` or
      `undefined`. A list is quoted but its quotes are not doubled. */
  function EscapeCell(v: Option<Value>): (r: string)
    ensures v.None? ==> r == ""
    ensures v.Some? && v.value.Str? && !NeedsQuotes(v.value.text) ==> r == v.value.text
    ensures v.Some? && v.value.List? ==> r == "\"" + Strings.Join("|", v.value.items) + "\""
  {
    match v
    case None => ""
    case Some(List(items)) => "\"" + Strings.Join("|", items) + "\""
    case Some(Str(t)) => if NeedsQuotes(t) then "\"" + Strings.DoubleQuotes(t) + "\"" else t
  }

  /** A list item holding a quote: its cell reads back wrong, because the
      quote ends the quoted field early. */
  lemma ListQuoteLost()
    ensures EscapeCell(Some(List(["a\"b"]))) == "\"a\"b\""
    ensures CsvReader.ReadField(EscapeCell(Some(List(["a\"b"])))) == ("ab\"", "")
  {
    var s := EscapeCell(Some(List(["a\"b"])));
    assert s == "\"a\"b\"";
    assert s[1..] == "a\"b\"";
    var q1 := "\"b\"";
    assert q1[1..] == "b\"";
    assert CsvReader.ReadQuoted(q1) == ("", "b\"");
    var q0 := "a\"b\"";
    assert q0[1..] == q1;
    assert ['a'] + "" == "a";
    assert CsvReader.ReadQuoted(q0) == ("a", "b\"");
    var p1 := "\"";
    assert p1[1..] == "";
    assert CsvReader.ReadPlain("") == ("", "");
    assert ['"'] + "" == p1;
    assert CsvReader.ReadPlain(p1) == (p1, "");
    var p0 := "b\"";
    assert p0[1..] == p1;
    assert ['b'] + p1 == p0;
    assert CsvReader.ReadPlain(p0) == (p0, "");
    assert "a" + p0 == "ab\"";
  }

  /** How a cell is written when quotes in lists are doubled too. */
  function CellOf(v: Option<Value>): CsvReader.Cell {
    match v
    case None => CsvReader.Plain("")
    case Some(List(items)) => CsvReader.Quoted(Strings.Join("|", items))
    case Some(Str(t)) => if NeedsQuotes(t) then CsvReader.Quoted(t) else CsvReader.Plain(t)
  }

  /** The text a cell stands for: a scalar as it is, a list `|`-joined. */
  function TextOf(v: Option<Value>): string {
    match v
    case None => ""
    case Some(List(items)) => Strings.Join("|", items)
    case Some(Str(t)) => t
  }

  /** `escapeCell` with the quotes of a joined list doubled as a scalar's are:
      the cell is quoted exactly when it is a list or a scalar that needs
      quotes, and it reads back as the text it stands for. */
  function EscapeCellCorrected(v: Option<Value>): (r: string)
    ensures (|r| >= 1 && r[0] == '"') <==> (v.Some? && (v.value.List? || NeedsQuotes(v.value.text)))
    ensures forall rest | CsvReader.FieldEnd(rest) :: CsvReader.ReadField(r + rest) == (TextOf(v), rest)
  {
    CellReadBack(v);
    match v
    case None => ""
    case Some(List(items)) => "\"" + Strings.DoubleQuotes(Strings.Join("|", items)) + "\""
    case Some(Str(t)) => if NeedsQuotes(t) then "\"" + Strings.DoubleQuotes(t) + "\"" else t
  }

  lemma CellReadBack(v: Option<Value>)
    ensures CsvReader.Readable(CellOf(v))
    ensures CsvReader.Texts([CellOf(v)]) == [TextOf(v)]
    ensures forall rest | CsvReader.FieldEnd(rest) :: CsvReader.ReadField(CsvReader.Render(CellOf(v)) + rest) == (TextOf(v), rest)
  {
    forall rest | CsvReader.FieldEnd(rest)
      ensures CsvReader.ReadField(CsvReader.Render(CellOf(v)) + rest) == (TextOf(v), rest)
    {
      CsvReader.ReadFieldBack(CellOf(v), rest);
    }
  }

  /** The corrected cell is the written form of `CellOf`. */
  lemma CorrectedIsRender(v: Option<Value>)
    ensures EscapeCellCorrected(v) == CsvReader.Render(CellOf(v))
  {
  }

  /** No item of a list value holds a quote. */
  predicate QuoteFreeLists(v: Option<Value>) {
    v.Some? && v.value.List? ==> forall i | 0 <= i < |v.value.items| :: '"' !in v.value.items[i]
  }

  /** The two agree unless a list item holds a quote. */
  lemma EscapeAgrees(v: Option<Value>)
    requires QuoteFreeLists(v)
    ensures EscapeCell(v) == EscapeCellCorrected(v)
  {
    if v.Some? && v.value.List? {
      Strings.JoinAvoids("|", v.value.items, '"');
    }
  }

  /** All keys of all rows, row after row. */
  function AllKeys(rows: seq<Row>): (ks: seq<string>)
    decreases |rows|
  {
    if rows == [] then [] else OrderedMaps.Keys(rows[0]) + AllKeys(rows[1..])
  }

  lemma {:induction false} AllKeysMember(rows: seq<Row>, key: string)
    ensures key in AllKeys(rows) <==> exists i | 0 <= i < |rows| :: key in OrderedMaps.Keys(rows[i])
    decreases |rows|
  {
    if rows != [] {
      AllKeysMember(rows[1..], key);
      if key in AllKeys(rows[1..]) {
        var i :| 0 <= i < |rows| - 1 && key in OrderedMaps.Keys(rows[1..][i]);
        assert rows[1..][i] == rows[i + 1];
      }
      if exists i | 0 <= i < |rows| :: key in OrderedMaps.Keys(rows[i]) {
        var i :| 0 <= i < |rows| && key in OrderedMaps.Keys(rows[i]);
        if i > 0 {
          assert rows[1..][i - 1] == rows[i];
        }
      }
    }
  }

  /** The union of the rows' keys in order of first appearance, as a `Set`
      filled row by row keeps it. */
  function KeyUnion(rows: seq<Row>): (hs: seq<string>)
    ensures Sequences.Distinct(hs)
    ensures forall h :: h in hs <==> h in AllKeys(rows)
    ensures forall a, b | 0 <= a < b < |hs| ::
      hs[a] in AllKeys(rows) && hs[b] in AllKeys(rows) &&
      Sequences.FirstIndex(AllKeys(rows), hs[a]) < Sequences.FirstIndex(AllKeys(rows), hs[b])
  {
    var all := AllKeys(rows);
    assert (set x | x in all[..0]) == {};
    var firsts := Sequences.FirstOccurrences(all, 0, {});
    Sequences.FirstOccurrencesFacts(all, firsts);
    var hs := Sequences.At(all, firsts);
    assert forall h | h in hs :: h in all;
    hs
  }

  /** The header: the spec names in spec order when there are specs, else
      the union of the rows' keys. */
  function Headers(rows: seq<Row>, specs: seq<FieldSpec>): (hs: seq<string>)
    ensures specs != [] ==> |hs| == |specs| && forall i | 0 <= i < |specs| :: hs[i] == specs[i].name
    ensures specs == [] ==> hs == KeyUnion(rows)
  {
    if specs != [] then seq(|specs|, i requires 0 <= i < |specs| => specs[i].name)
    else KeyUnion(rows)
  }

  /** One data line: a cell per header, the row's value under that header. */
  function DataLine(row: Row, hs: seq<string>): string {
    Strings.Join(",", seq(|hs|, j requires 0 <= j < |hs| => EscapeCellCorrected(OrderedMaps.Get(row, hs[j]))))
  }

  function DataLines(rows: seq<Row>, hs: seq<string>): (ls: seq<string>)
    ensures |ls| == |rows|
    ensures forall i | 0 <= i < |rows| :: ls[i] == DataLine(rows[i], hs)
  {
    seq(|rows|, i requires 0 <= i < |rows| => DataLine(rows[i], hs))
  }

  /** `toCSVFromObjects(rows, specs)`, with list cells escaped as scalars are. */
  function ToCsvFromObjects(rows: seq<Row>, specs: seq<FieldSpec>): (r: string)
    ensures r == "" <==> rows == []
  {
    if rows == [] then ""
    else
      var hs := Headers(rows, specs);
      var lines := [Strings.Join(",", hs)] + DataLines(rows, hs);
      assert Strings.Join("\n", lines) == lines[0] + "\n" + Strings.Join("\n", lines[1..]);
      Strings.Join("\n", lines)
  }

  /** `AsWrittenAgrees`, for rows that may or may not hold a quoted list item. */
  lemma AsWrittenAgreesWhen(rows: seq<Row>, specs: seq<FieldSpec>)
    ensures (forall i, h | 0 <= i < |rows| :: QuoteFreeLists(OrderedMaps.Get(rows[i], h)))
      ==> ToCsvFromObjectsAsWritten(rows, specs) == ToCsvFromObjects(rows, specs)
  {
    if forall i, h | 0 <= i < |rows| :: QuoteFreeLists(OrderedMaps.Get(rows[i], h)) {
      AsWrittenAgrees(rows, specs);
    }
  }

  /** One data line as the source writes it, with `escapeCell` as written. */
  function DataLineAsWritten(row: Row, hs: seq<string>): string {
    Strings.Join(",", seq(|hs|, j requires 0 <= j < |hs| => EscapeCell(OrderedMaps.Get(row, hs[j]))))
  }

  /** `toCSVFromObjects(rows, specs)` as the source writes it. */
  function ToCsvFromObjectsAsWritten(rows: seq<Row>, specs: seq<FieldSpec>): (r: string)
    ensures r == "" <==> rows == []
  {
    if rows == [] then ""
    else
      var hs := Headers(rows, specs);
      var lines := [Strings.Join(",", hs)] + seq(|rows|, i requires 0 <= i < |rows| => DataLineAsWritten(rows[i], hs));
      assert Strings.Join("\n", lines) == lines[0] + "\n" + Strings.Join("\n", lines[1..]);
      Strings.Join("\n", lines)
  }

  /** The CSV text as written and the corrected one are the same text as
      long as no list value of any row holds a quote in one of its items. */
  lemma {:induction false} AsWrittenAgrees(rows: seq<Row>, specs: seq<FieldSpec>)
    requires forall i, h | 0 <= i < |rows| :: QuoteFreeLists(OrderedMaps.Get(rows[i], h))
    ensures ToCsvFromObjectsAsWritten(rows, specs) == ToCsvFromObjects(rows, specs)
  {
    if rows != [] {
      var hs := Headers(rows, specs);
      forall i | 0 <= i < |rows|
        ensures DataLineAsWritten(rows[i], hs) == DataLine(rows[i], hs)
      {
        forall j | 0 <= j < |hs| {
          EscapeAgrees(OrderedMaps.Get(rows[i], hs[j]));
        }
        assert seq(|hs|, j requires 0 <= j < |hs| => EscapeCell(OrderedMaps.Get(rows[i], hs[j])))
            == seq(|hs|, j requires 0 <= j < |hs| => EscapeCellCorrected(OrderedMaps.Get(rows[i], hs[j])));
      }
      assert seq(|rows|, i requires 0 <= i < |rows| => DataLineAsWritten(rows[i], hs)) == DataLines(rows, hs);
    }
  }

  /** A header that needs no quoting. */
  predicate PlainHeader(h: string) {
    ',' !in h && '\n' !in h && '"' !in h
  }

  /** What a row reads back as: its value's text under each header. */
  function RowTexts(row: Row, hs: seq<string>): (t: seq<string>)
    ensures |t| == |hs|
    ensures forall j | 0 <= j < |hs| :: t[j] == TextOf(OrderedMaps.Get(row, hs[j]))
  {
    seq(|hs|, j requires 0 <= j < |hs| => TextOf(OrderedMaps.Get(row, hs[j])))
  }

  function AllRowTexts(rows: seq<Row>, hs: seq<string>): (t: seq<seq<string>>)
    ensures |t| == |rows|
    ensures forall i | 0 <= i < |rows| :: t[i] == RowTexts(rows[i], hs)
  {
    seq(|rows|, i requires 0 <= i < |rows| => RowTexts(rows[i], hs))
  }

  /** Reading the CSV text back gives the header and, for each row, one cell
      per header holding the text of the row's value under it. */
  lemma ToCsvFromObjectsReadBack(rows: seq<Row>, specs: seq<FieldSpec>)
    requires rows != []
    requires |Headers(rows, specs)| >= 1
    requires forall j | 0 <= j < |Headers(rows, specs)| :: PlainHeader(Headers(rows, specs)[j])
    ensures CsvReader.ReadCsv(ToCsvFromObjects(rows, specs)) == [Headers(rows, specs)] + AllRowTexts(rows, Headers(rows, specs))
  {
    var hs := Headers(rows, specs);
    var ls := [HeaderCells(hs)] + Body(rows, hs);
    LinesReadable(rows, hs);
    CsvReader.ReadCsvBack(ls);
    LinesWritten(rows, hs);
    LinesTable(rows, hs);
  }

  function HeaderCells(hs: seq<string>): (cs: seq<CsvReader.Cell>)
    ensures |cs| == |hs|
    ensures forall j | 0 <= j < |hs| :: cs[j] == CsvReader.Plain(hs[j])
  {
    seq(|hs|, j requires 0 <= j < |hs| => CsvReader.Plain(hs[j]))
  }

  function RowCells(row: Row, hs: seq<string>): (cs: seq<CsvReader.Cell>)
    ensures |cs| == |hs|
    ensures forall j | 0 <= j < |hs| :: cs[j] == CellOf(OrderedMaps.Get(row, hs[j]))
  {
    seq(|hs|, j requires 0 <= j < |hs| => CellOf(OrderedMaps.Get(row, hs[j])))
  }

  function Body(rows: seq<Row>, hs: seq<string>): (b: seq<seq<CsvReader.Cell>>)
    ensures |b| == |rows|
    ensures forall i | 0 <= i < |rows| :: b[i] == RowCells(rows[i], hs)
  {
    seq(|rows|, i requires 0 <= i < |rows| => RowCells(rows[i], hs))
  }

  lemma LinesReadable(rows: seq<Row>, hs: seq<string>)
    requires |hs| >= 1
    requires forall j | 0 <= j < |hs| :: PlainHeader(hs[j])
    ensures var ls := [HeaderCells(hs)] + Body(rows, hs);
      && (forall i | 0 <= i < |ls| :: |ls[i]| >= 1)
      && (forall i, j | 0 <= i < |ls| && 0 <= j < |ls[i]| :: CsvReader.Readable(ls[i][j]))
  {
    var b := Body(rows, hs);
    var ls := [HeaderCells(hs)] + b;
    forall i, j | 0 <= i < |ls| && 0 <= j < |ls[i]|
      ensures CsvReader.Readable(ls[i][j])
    {
      if i > 0 {
        assert ls[i] == b[i - 1];
        CellReadBack(OrderedMaps.Get(rows[i - 1], hs[j]));
      }
    }
  }

  lemma LinesWritten(rows: seq<Row>, hs: seq<string>)
    requires rows != []
    ensures CsvReader.RenderLines([HeaderCells(hs)] + Body(rows, hs))
      == Strings.Join("\n", [Strings.Join(",", hs)] + DataLines(rows, hs))
  {
    var b := Body(rows, hs);
    CsvReader.RenderLinesJoin([HeaderCells(hs)] + b);
    CsvReader.RenderEachCons(HeaderCells(hs), b);
    assert CsvReader.RenderLine(HeaderCells(hs)) == Strings.Join(",", hs) by {
      CsvReader.RenderLineJoin(HeaderCells(hs));
      assert CsvReader.Renders(HeaderCells(hs)) == hs;
    }
    assert CsvReader.RenderEach(b) == DataLines(rows, hs) by {
      forall i | 0 <= i < |rows|
        ensures CsvReader.RenderLine(b[i]) == DataLine(rows[i], hs)
      {
        RowWritten(rows[i], hs);
      }
    }
  }

  lemma RowWritten(row: Row, hs: seq<string>)
    ensures CsvReader.RenderLine(RowCells(row, hs)) == DataLine(row, hs)
  {
    var cs := RowCells(row, hs);
    CsvReader.RenderLineJoin(cs);
    forall j | 0 <= j < |hs|
      ensures CsvReader.Render(cs[j]) == EscapeCellCorrected(OrderedMaps.Get(row, hs[j]))
    {
      CorrectedIsRender(OrderedMaps.Get(row, hs[j]));
    }
    assert CsvReader.Renders(cs) == seq(|hs|, j requires 0 <= j < |hs| => EscapeCellCorrected(OrderedMaps.Get(row, hs[j])));
  }

  lemma LinesTable(rows: seq<Row>, hs: seq<string>)
    ensures CsvReader.Table([HeaderCells(hs)] + Body(rows, hs)) == [hs] + AllRowTexts(rows, hs)
  {
    var b := Body(rows, hs);
    CsvReader.TableCons(HeaderCells(hs), b);
    assert CsvReader.Texts(HeaderCells(hs)) == hs;
    assert CsvReader.Table(b) == AllRowTexts(rows, hs) by {
      forall i | 0 <= i < |rows|
        ensures CsvReader.Texts(b[i]) == RowTexts(rows[i], hs)
      {
        RowTextsOf(rows[i], hs);
      }
    }
  }

  lemma RowTextsOf(row: Row, hs: seq<string>)
    ensures CsvReader.Texts(RowCells(row, hs)) == RowTexts(row, hs)
  {
    var cs := RowCells(row, hs);
    forall j | 0 <= j < |hs|
      ensures cs[j].text == TextOf(OrderedMaps.Get(row, hs[j]))
    {
      CellReadBack(OrderedMaps.Get(row, hs[j]));
      assert CsvReader.Texts([cs[j]])[0] == cs[j].text;
    }
  }
}
