/** A reader for the CSV text the serialisers write: records separated by
    newlines, fields by commas, a field in double quotes may hold commas and
    newlines and writes a quote as two quotes. It is the partner against
    which the writers' output is checked: reading it back gives the cells. */
module CsvReader {
  import Strings

  /** The unquoted text up to the next comma or newline, and what follows. */
  function ReadPlain(s: string): (r: (string, string))
    ensures r.0 + r.1 == s
    ensures ',' !in r.0 && '\n' !in r.0
    ensures r.1 == [] || r.1[0] == ',' || r.1[0] == '\n'
    decreases |s|
  {
    if s == [] || s[0] == ',' || s[0] == '\n' then ("", s)
    else
      var t := ReadPlain(s[1..]);
      ([s[0]] + t.0, t.1)
  }

  /** The inside of a quoted field up to its closing quote, with doubled
      quotes read as one, and what follows the closing quote. */
  function ReadQuoted(s: string): (r: (string, string))
    ensures |r.1| <= |s|
    decreases |s|
  {
    if s == [] then ("", "")
    else if s[0] == '"' then
      if |s| >= 2 && s[1] == '"' then
        var t := ReadQuoted(s[2..]);
        (['"'] + t.0, t.1)
      else ("", s[1..])
    else
      var t := ReadQuoted(s[1..]);
      ([s[0]] + t.0, t.1)
  }

  /** One field and the text after it, which is empty or starts with a
      comma or a newline. Text after a closing quote is kept as plain text. */
  function ReadField(s: string): (r: (string, string))
    ensures |r.1| <= |s|
    ensures r.1 == [] || r.1[0] == ',' || r.1[0] == '\n'
  {
    if s != [] && s[0] == '"' then
      var q := ReadQuoted(s[1..]);
      var p := ReadPlain(q.1);
      (q.0 + p.0, p.1)
    else ReadPlain(s)
  }

  /** The fields of one record and the text after it, which is empty or
      starts with a newline. */
  function ReadRecord(s: string): (r: (seq<string>, string))
    ensures |r.0| >= 1
    ensures |r.1| <= |s|
    ensures r.1 == [] || r.1[0] == '\n'
    decreases |s|
  {
    var f := ReadField(s);
    if f.1 != [] && f.1[0] == ',' then
      var rest := ReadRecord(f.1[1..]);
      ([f.0] + rest.0, rest.1)
    else ([f.0], f.1)
  }

  /** All records of a text. */
  function ReadCsv(s: string): (r: seq<seq<string>>)
    ensures |r| >= 1
    decreases |s|
  {
    var rec := ReadRecord(s);
    if rec.1 != [] then [rec.0] + ReadCsv(rec.1[1..]) else [rec.0]
  }

  /** How a cell is written: as it is, or between quotes with its quotes doubled. */
  datatype Cell = Plain(text: string) | Quoted(text: string)

  function Render(c: Cell): string {
    match c
    case Plain(t) => t
    case Quoted(t) => "\"" + Strings.DoubleQuotes(t) + "\""
  }

  /** A plain cell must not hold a separator or a quote to be read back. */
  predicate Readable(c: Cell) {
    c.Quoted? || (',' !in c.text && '\n' !in c.text && '"' !in c.text)
  }

  /** The text that may follow a field. */
  predicate FieldEnd(rest: string) {
    rest == [] || rest[0] == ',' || rest[0] == '\n'
  }

  lemma {:induction false} ReadPlainBack(t: string, rest: string)
    requires ',' !in t && '\n' !in t
    requires FieldEnd(rest)
    ensures ReadPlain(t + rest) == (t, rest)
    decreases |t|
  {
    var s := t + rest;
    if t != [] {
      ReadPlainBack(t[1..], rest);
      assert s[0] == t[0] && t[0] in t;
      assert s[1..] == t[1..] + rest;
      assert [t[0]] + t[1..] == t;
    } else {
      assert s == rest;
    }
  }

  lemma {:induction false} ReadQuotedBack(t: string, rest: string)
    requires rest == [] || rest[0] != '"'
    ensures ReadQuoted(Strings.DoubleQuotes(t) + "\"" + rest) == (t, rest)
    decreases |t|
  {
    var s := Strings.DoubleQuotes(t) + "\"" + rest;
    if t != [] {
      var x := Strings.DoubleQuotes(t[1..]) + "\"" + rest;
      ReadQuotedBack(t[1..], rest);
      assert [t[0]] + t[1..] == t;
      if t[0] == '"' {
        assert s == "\"\"" + x;
        assert s[2..] == x;
      } else {
        assert s == [t[0]] + x;
        assert s[1..] == x;
      }
    } else {
      assert s == "\"" + rest;
      assert s[1..] == rest;
    }
  }

  /** A readable cell reads back as its text. */
  lemma ReadFieldBack(c: Cell, rest: string)
    requires Readable(c) && FieldEnd(rest)
    ensures ReadField(Render(c) + rest) == (c.text, rest)
  {
    match c
    case Plain(t) =>
      ReadPlainBack(t, rest);
      if t != [] {
        assert (t + rest)[0] == t[0];
      }
    case Quoted(t) =>
      var s := Render(c) + rest;
      assert s[0] == '"';
      assert s[1..] == Strings.DoubleQuotes(t) + "\"" + rest;
      ReadQuotedBack(t, rest);
      ReadPlainBack("", rest);
      assert "" + rest == rest;
      assert t + "" == t;
  }

  /** The texts of a sequence of cells. */
  function Texts(cs: seq<Cell>): (ts: seq<string>)
    ensures |ts| == |cs|
    ensures forall i | 0 <= i < |cs| :: ts[i] == cs[i].text
  {
    seq(|cs|, i requires 0 <= i < |cs| => cs[i].text)
  }

  /** The written cells, comma-separated. */
  function RenderLine(cs: seq<Cell>): string
    decreases |cs|
  {
    if |cs| == 0 then ""
    else if |cs| == 1 then Render(cs[0])
    else Render(cs[0]) + "," + RenderLine(cs[1..])
  }

  /** A line of readable cells reads back as their texts. */
  lemma {:induction false} ReadRecordBack(cs: seq<Cell>, rest: string)
    requires |cs| >= 1
    requires forall i | 0 <= i < |cs| :: Readable(cs[i])
    requires rest == [] || rest[0] == '\n'
    ensures ReadRecord(RenderLine(cs) + rest) == (Texts(cs), rest)
    decreases |cs|
  {
    if |cs| == 1 {
      ReadFieldBack(cs[0], rest);
      ReadRecordLast(RenderLine(cs) + rest, cs[0].text, rest);
      assert Texts(cs) == [cs[0].text];
    } else {
      ReadRecordBack(cs[1..], rest);
      ReadRecordCons(cs, rest);
    }
  }

  /** The step of `ReadRecordBack`: one more cell in front of a line that reads back. */
  lemma ReadRecordCons(cs: seq<Cell>, rest: string)
    requires |cs| >= 2 && Readable(cs[0])
    requires ReadRecord(RenderLine(cs[1..]) + rest) == (Texts(cs[1..]), rest)
    ensures ReadRecord(RenderLine(cs) + rest) == (Texts(cs), rest)
  {
    var tail := "," + (RenderLine(cs[1..]) + rest);
    LineSplit(cs, rest);
    ReadFieldBack(cs[0], tail);
    TailAfterComma(RenderLine(cs[1..]) + rest);
    TextsCons(cs);
    ReadRecordNext(Render(cs[0]) + tail, cs[0].text, tail);
  }

  lemma LineSplit(cs: seq<Cell>, rest: string)
    requires |cs| >= 2
    ensures RenderLine(cs) + rest == Render(cs[0]) + ("," + (RenderLine(cs[1..]) + rest))
  {
    var a, b := Render(cs[0]), RenderLine(cs[1..]);
    assert RenderLine(cs) == a + "," + b;
    Associate(a, ",", b, rest);
  }

  lemma Associate(a: string, c: string, b: string, rest: string)
    ensures a + c + b + rest == a + (c + (b + rest))
  {
  }

  lemma TailAfterComma(x: string)
    ensures ("," + x)[1..] == x
  {
  }

  lemma TextsCons(cs: seq<Cell>)
    requires |cs| >= 1
    ensures Texts(cs) == [cs[0].text] + Texts(cs[1..])
  {
  }

  lemma ReadRecordNext(s: string, f: string, tail: string)
    requires ReadField(s) == (f, tail) && tail != [] && tail[0] == ','
    ensures ReadRecord(s) == ([f] + ReadRecord(tail[1..]).0, ReadRecord(tail[1..]).1)
  {
  }

  lemma ReadRecordLast(s: string, f: string, rest: string)
    requires ReadField(s) == (f, rest) && (rest == [] || rest[0] == '\n')
    ensures ReadRecord(s) == ([f], rest)
  {
  }

  /** The written lines, newline-separated. */
  function RenderLines(lines: seq<seq<Cell>>): string
    decreases |lines|
  {
    if |lines| == 0 then ""
    else if |lines| == 1 then RenderLine(lines[0])
    else RenderLine(lines[0]) + "\n" + RenderLines(lines[1..])
  }

  /** The texts of every line. */
  function Table(lines: seq<seq<Cell>>): (t: seq<seq<string>>)
    ensures |t| == |lines|
    ensures forall i | 0 <= i < |lines| :: t[i] == Texts(lines[i])
  {
    seq(|lines|, i requires 0 <= i < |lines| => Texts(lines[i]))
  }

  /** A text of readable lines reads back as the table of their texts. */
  lemma {:induction false} ReadCsvBack(lines: seq<seq<Cell>>)
    requires |lines| >= 1
    requires forall i | 0 <= i < |lines| :: |lines[i]| >= 1
    requires forall i, j | 0 <= i < |lines| && 0 <= j < |lines[i]| :: Readable(lines[i][j])
    ensures ReadCsv(RenderLines(lines)) == Table(lines)
    decreases |lines|
  {
    if |lines| == 1 {
      ReadRecordBack(lines[0], "");
      assert RenderLine(lines[0]) + "" == RenderLine(lines[0]);
    } else {
      var rest := "\n" + RenderLines(lines[1..]);
      ReadRecordBack(lines[0], rest);
      assert RenderLines(lines) == RenderLine(lines[0]) + rest;
      assert rest[1..] == RenderLines(lines[1..]);
      ReadCsvBack(lines[1..]);
      assert Table(lines) == [Texts(lines[0])] + Table(lines[1..]);
    }
  }

  /** The written cells of a line. */
  function Renders(cs: seq<Cell>): (r: seq<string>)
    ensures |r| == |cs|
    ensures forall i | 0 <= i < |cs| :: r[i] == Render(cs[i])
  {
    seq(|cs|, i requires 0 <= i < |cs| => Render(cs[i]))
  }

  /** A written line is the comma-join of its written cells. */
  lemma {:induction false} RenderLineJoin(cs: seq<Cell>)
    ensures RenderLine(cs) == Strings.Join(",", Renders(cs))
    decreases |cs|
  {
    if |cs| >= 2 {
      RenderLineJoin(cs[1..]);
      assert Renders(cs)[1..] == Renders(cs[1..]);
    }
  }

  /** The written lines of a table. */
  function RenderEach(lines: seq<seq<Cell>>): (r: seq<string>)
    ensures |r| == |lines|
    ensures forall i | 0 <= i < |lines| :: r[i] == RenderLine(lines[i])
  {
    seq(|lines|, i requires 0 <= i < |lines| => RenderLine(lines[i]))
  }

  /** A written table is the newline-join of its written lines. */
  lemma {:induction false} RenderLinesJoin(lines: seq<seq<Cell>>)
    ensures RenderLines(lines) == Strings.Join("\n", RenderEach(lines))
    decreases |lines|
  {
    if |lines| >= 2 {
      RenderLinesJoin(lines[1..]);
      assert RenderEach(lines)[1..] == RenderEach(lines[1..]);
    }
  }

  lemma TableCons(l: seq<Cell>, ls: seq<seq<Cell>>)
    ensures Table([l] + ls) == [Texts(l)] + Table(ls)
  {
  }

  lemma RenderEachCons(l: seq<Cell>, ls: seq<seq<Cell>>)
    ensures RenderEach([l] + ls) == [RenderLine(l)] + RenderEach(ls)
  {
  }
}
