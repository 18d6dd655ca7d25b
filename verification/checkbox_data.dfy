/** `generateCheckboxData`, `toCSV` and `generateMultiple`: the rows of test
    data for one checkbox group, their CSV text, and several groups keyed by
    name. */
module CheckboxData {
  import opened Wrappers
  import Oracle
  import Numerals
  import Sequences
  import Strings
  import OrderedMaps
  import CsvReader

  /** The argument of `generateCheckboxData`. A name of "" is an absent or
      empty name; a count that is `None` was left out and takes its default. */
  datatype CheckboxSpec = CheckboxSpec(
    name: string,
    inspectedCount: Option<int>,
    selectedCount: Option<int>,
    records: Option<int>)

  /** One option of the group: its value and a random label. */
  datatype CheckboxOption = CheckboxOption(value: string, labelText: string)

  /** One generated record. */
  datatype CheckboxRow = CheckboxRow(fieldName: string, options: seq<string>, selected: seq<string>)

  /** The value of the option at position `i`: `val_1`, `val_2`, ... */
  function OptionValue(i: nat): string {
    "val_" + Numerals.Decimal(i + 1)
  }

  /** The values `val_1` .. `val_n` in order, none when `n` is not positive. */
  function ValOptions(n: int): (r: seq<string>)
    ensures |r| == Max(n, 0)
    ensures forall i | 0 <= i < |r| :: r[i] == OptionValue(i)
  {
    seq(Max(n, 0), i requires 0 <= i => OptionValue(i))
  }

  /** Different positions have different values. */
  lemma ValOptionsDistinct(n: int)
    ensures Sequences.Distinct(ValOptions(n))
  {
    var r := ValOptions(n);
    forall i, j | 0 <= i < j < |r|
      ensures r[i] != r[j]
    {
      assert r[i][4..] == Numerals.Decimal(i + 1);
      assert r[j][4..] == Numerals.Decimal(j + 1);
      if Numerals.Decimal(i + 1) == Numerals.Decimal(j + 1) {
        Numerals.DecimalInjective(i + 1, j + 1);
      }
    }
  }

  /** `randLabel(prefix)`: the prefix, an underscore and up to six base-36 digits. */
  ghost predicate IsLabel(s: string, prefix: string) {
    && |s| > |prefix|
    && s[..|prefix| + 1] == prefix + "_"
    && Oracle.IsToken(s[|prefix| + 1..], 6)
  }

  /** The options at positions `from` .. `n - 1`, one label draw each. */
  function MakeOptions(prefix: string, from: nat, n: nat, rand: Oracle.Rng, k: nat): (r: Oracle.Drawn<seq<CheckboxOption>>)
    requires from <= n
    ensures |r.value| == n - from && r.next == k + (n - from)
    ensures forall j | 0 <= j < |r.value| :: r.value[j].value == OptionValue(from + j)
    ensures forall j | 0 <= j < |r.value| :: IsLabel(r.value[j].labelText, prefix)
    decreases n - from
  {
    if from == n then Oracle.Drawn([], k)
    else
      var t := Oracle.RandomString(6, rand, k);
      var caption := prefix + "_" + t.value;
      assert caption[..|prefix| + 1] == prefix + "_" && caption[|prefix| + 1..] == t.value;
      var rest := MakeOptions(prefix, from + 1, n, rand, t.next);
      Oracle.Drawn([CheckboxOption(OptionValue(from), caption)] + rest.value, rest.next)
  }

  /** `options.map(o => o.value)`. */
  function Values(os: seq<CheckboxOption>): (vs: seq<string>)
    ensures |vs| == |os|
    ensures forall i | 0 <= i < |os| :: vs[i] == os[i].value
  {
    seq(|os|, i requires 0 <= i < |os| => os[i].value)
  }

  /** `[...Array(n).keys()]`. */
  function Range(n: nat): (r: seq<nat>)
    ensures |r| == n
    ensures forall i | 0 <= i < n :: r[i] == i
  {
    seq(n, i requires 0 <= i => i)
  }

  lemma RangeDistinct(n: nat)
    ensures Sequences.Distinct(Range(n))
  {
  }

  /** The positions `from` .. `n - 1` whose coin, drawn in order with one
      call each, came up: `randBool(0.3)` for each option. */
  function Heads(rand: Oracle.Rng, k: nat, from: nat, n: nat): (ps: seq<nat>)
    requires from <= n
    ensures forall j | 0 <= j < |ps| :: from <= ps[j] < n && Oracle.RandBool(rand, k + ps[j]).value
    ensures forall i | from <= i < n && Oracle.RandBool(rand, k + i).value :: i in ps
    ensures forall a, b | 0 <= a < b < |ps| :: ps[a] < ps[b]
    decreases n - from
  {
    if from == n then []
    else
      var rest := Heads(rand, k, from + 1, n);
      if Oracle.RandBool(rand, k + from).value then [from] + rest else rest
  }

  /** The calls one record makes. */
  function PerRecord(n: nat, sel: nat): nat {
    if sel > 0 then sel else n
  }

  /** The `selected` list of one record, in the order the values are added
      to the set: `sel` positions drawn without replacement when `sel` is
      positive, else the options whose coin came up. */
  function SelectOnce(options: seq<string>, sel: nat, rand: Oracle.Rng, k: nat): (r: Oracle.Drawn<seq<string>>)
    requires sel <= |options|
    ensures r.next == k + PerRecord(|options|, sel)
    ensures sel > 0 ==> |r.value| == sel
  {
    if sel > 0 then
      var picks := Oracle.PickDistinct(Range(|options|), sel, rand, k);
      InRange(picks.value, |options|);
      Oracle.Drawn(Sequences.At(options, picks.value), picks.next)
    else
      var hs := Heads(rand, k, 0, |options|);
      Oracle.Drawn(Sequences.At(options, hs), k + |options|)
  }

  /** Positions picked from `Range(n)` are below `n` and distinct. */
  lemma InRange(picks: seq<nat>, n: nat)
    requires multiset(picks) <= multiset(Range(n))
    ensures forall j | 0 <= j < |picks| :: picks[j] < n
    ensures Sequences.Distinct(picks)
  {
    RangeDistinct(n);
    Oracle.SubMultisetDistinct(picks, Range(n));
    forall j | 0 <= j < |picks|
      ensures picks[j] < n
    {
      assert picks[j] in Range(n);
    }
  }

  /** What one record's selection is: distinct options, `sel` of them drawn
      as if from the values directly when `sel` is positive, else exactly the
      options whose coin came up. */
  lemma SelectOnceFacts(options: seq<string>, sel: nat, rand: Oracle.Rng, k: nat)
    requires sel <= |options| && Sequences.Distinct(options)
    ensures var r := SelectOnce(options, sel, rand, k).value;
      && Sequences.Distinct(r)
      && (forall x | x in r :: x in options)
      && (sel > 0 ==> r == Oracle.PickDistinct(options, sel, rand, k).value)
      && (sel == 0 ==> forall i | 0 <= i < |options| :: options[i] in r <==> Oracle.RandBool(rand, k + i).value)
  {
    if sel > 0 {
      var picks := Oracle.PickDistinct(Range(|options|), sel, rand, k).value;
      InRange(picks, |options|);
      AtFacts(options, picks);
      IndexPickIsDirect(options, sel, rand, k);
    } else {
      var hs := Heads(rand, k, 0, |options|);
      assert SelectOnce(options, sel, rand, k).value == Sequences.At(options, hs);
      CoinFacts(options, rand, k);
    }
  }

  /** Elements at distinct positions of a sequence without repetitions are
      distinct elements of it. */
  lemma AtFacts<T>(xs: seq<T>, ps: seq<nat>)
    requires Sequences.Distinct(xs) && Sequences.Distinct(ps)
    requires forall j | 0 <= j < |ps| :: ps[j] < |xs|
    ensures Sequences.Distinct(Sequences.At(xs, ps))
    ensures forall x | x in Sequences.At(xs, ps) :: x in xs
  {
    var r := Sequences.At(xs, ps);
    forall x | x in r
      ensures x in xs
    {
      var j :| 0 <= j < |r| && r[j] == x;
      assert xs[ps[j]] == x;
    }
  }

  /** The coin path keeps exactly the options whose coin came up. */
  lemma CoinFacts(options: seq<string>, rand: Oracle.Rng, k: nat)
    requires Sequences.Distinct(options)
    ensures var r := Sequences.At(options, Heads(rand, k, 0, |options|));
      && Sequences.Distinct(r)
      && (forall x | x in r :: x in options)
      && (forall i | 0 <= i < |options| :: options[i] in r <==> Oracle.RandBool(rand, k + i).value)
  {
    var hs := Heads(rand, k, 0, |options|);
    assert Sequences.Distinct(hs);
    AtFacts(options, hs);
    CoinPath(options, hs, rand, k);
  }

  /** Reading the options at exactly the positions whose coin came up
      selects exactly the options whose coin came up. */
  lemma CoinPath(options: seq<string>, hs: seq<nat>, rand: Oracle.Rng, k: nat)
    requires Sequences.Distinct(options)
    requires forall j | 0 <= j < |hs| :: hs[j] < |options| && Oracle.RandBool(rand, k + hs[j]).value
    requires forall i | 0 <= i < |options| && Oracle.RandBool(rand, k + i).value :: i in hs
    ensures forall i | 0 <= i < |options| :: options[i] in Sequences.At(options, hs) <==> Oracle.RandBool(rand, k + i).value
  {
    forall i | 0 <= i < |options|
      ensures options[i] in Sequences.At(options, hs) <==> Oracle.RandBool(rand, k + i).value
    {
      if options[i] in Sequences.At(options, hs) {
        SelectedHasCoin(options, hs, i, rand, k);
      }
      if Oracle.RandBool(rand, k + i).value {
        CoinIsSelected(options, hs, i);
      }
    }
  }

  /** An option read at positions whose coin came up had its coin come up. */
  lemma SelectedHasCoin(options: seq<string>, hs: seq<nat>, i: nat, rand: Oracle.Rng, k: nat)
    requires Sequences.Distinct(options) && i < |options|
    requires forall j | 0 <= j < |hs| :: hs[j] < |options| && Oracle.RandBool(rand, k + hs[j]).value
    requires options[i] in Sequences.At(options, hs)
    ensures Oracle.RandBool(rand, k + i).value
  {
    var r := Sequences.At(options, hs);
    var j :| 0 <= j < |r| && r[j] == options[i];
    assert options[hs[j]] == options[i];
  }

  /** The option at a listed position is read. */
  lemma CoinIsSelected(options: seq<string>, hs: seq<nat>, i: nat)
    requires i < |options| && i in hs
    requires forall j | 0 <= j < |hs| :: hs[j] < |options|
    ensures options[i] in Sequences.At(options, hs)
  {
    var j :| 0 <= j < |hs| && hs[j] == i;
    assert Sequences.At(options, hs)[j] == options[i];
  }

  /** Drawing positions and reading the options there, as the source does,
      picks what drawing from the option values themselves would. */
  lemma IndexPickIsDirect(options: seq<string>, sel: nat, rand: Oracle.Rng, k: nat)
    requires 0 < sel <= |options|
    ensures SelectOnce(options, sel, rand, k).value == Oracle.PickDistinct(options, sel, rand, k).value
  {
    var n := |options|;
    var f := (i: nat) => if i < n then options[i] else "";
    var picks := Oracle.PickDistinct(Range(n), sel, rand, k).value;
    InRange(picks, n);
    Oracle.PickDistinctMap(f, Range(n), sel, rand, k);
    assert Oracle.Map(f, Range(n)) == options;
    assert Oracle.Map(f, picks) == Sequences.At(options, picks);
  }

  /** What a generated record is: the field name and all options, and a
      selection of distinct options, exactly `sel` of them when `sel` is positive. */
  predicate IsRecord(row: CheckboxRow, fieldName: string, options: seq<string>, sel: nat) {
    && row.fieldName == fieldName
    && row.options == options
    && Sequences.Distinct(row.selected)
    && (forall x | x in row.selected :: x in options)
    && (sel > 0 ==> |row.selected| == sel)
  }

  /** The record loop: `count` records, each with its own selection. */
  function Records(fieldName: string, options: seq<string>, sel: nat, count: nat, rand: Oracle.Rng, k: nat): (r: Oracle.Drawn<seq<CheckboxRow>>)
    requires sel <= |options| && Sequences.Distinct(options)
    ensures |r.value| == count
    ensures r.next == k + count * PerRecord(|options|, sel)
    ensures forall i | 0 <= i < count :: IsRecord(r.value[i], fieldName, options, sel)
    decreases count
  {
    if count == 0 then Oracle.Drawn([], k)
    else
      var s := SelectOnce(options, sel, rand, k);
      SelectionIsRecord(fieldName, options, sel, rand, k);
      var rest := Records(fieldName, options, sel, count - 1, rand, s.next);
      MulStep(count, PerRecord(|options|, sel));
      Oracle.Drawn([CheckboxRow(fieldName, options, s.value)] + rest.value, rest.next)
  }

  lemma SelectionIsRecord(fieldName: string, options: seq<string>, sel: nat, rand: Oracle.Rng, k: nat)
    requires sel <= |options| && Sequences.Distinct(options)
    ensures IsRecord(CheckboxRow(fieldName, options, SelectOnce(options, sel, rand, k).value), fieldName, options, sel)
  {
    SelectOnceFacts(options, sel, rand, k);
  }

  lemma MulStep(count: nat, p: nat)
    requires count >= 1
    ensures count * p == p + (count - 1) * p
  {
  }

  /** The number of options: `inspectedCount`, by default 1. */
  function OptionCount(spec: CheckboxSpec): nat {
    Max(spec.inspectedCount.GetOr(1), 0)
  }

  /** `selectedCount`, by default 0, clamped to the number of options. */
  function Clamped(spec: CheckboxSpec): (sel: nat)
    ensures sel <= OptionCount(spec)
    ensures spec.selectedCount.GetOr(0) <= 0 ==> sel == 0
    ensures 0 <= spec.selectedCount.GetOr(0) <= OptionCount(spec) ==> sel == spec.selectedCount.GetOr(0)
    ensures spec.selectedCount.GetOr(0) >= OptionCount(spec) ==> sel == OptionCount(spec)
  {
    Max(0, Min(spec.selectedCount.GetOr(0), OptionCount(spec)))
  }

  /** `generateCheckboxData(spec)`: first one label draw per option, then
      `records` (by default 1) records. */
  function GenerateCheckboxData(spec: CheckboxSpec, rand: Oracle.Rng, k: nat): (r: Oracle.Drawn<seq<CheckboxRow>>)
    ensures |r.value| == Max(spec.records.GetOr(1), 0)
    ensures forall i | 0 <= i < |r.value| ::
      IsRecord(r.value[i], Strings.OrDefault(spec.name, "checkbox"), ValOptions(OptionCount(spec)), Clamped(spec))
    ensures r.next == k + OptionCount(spec) + |r.value| * PerRecord(OptionCount(spec), Clamped(spec))
  {
    var n := OptionCount(spec);
    var os := MakeOptions(Strings.OrDefault(spec.name, "chk"), 0, n, rand, k);
    var values := Values(os.value);
    assert values == ValOptions(n);
    ValOptionsDistinct(n);
    Records(Strings.OrDefault(spec.name, "checkbox"), values, Clamped(spec), Max(spec.records.GetOr(1), 0), rand, os.next)
  }

  /** The CSV header of `toCSV`. */
  const Header: seq<string> := ["fieldName", "options", "selected"]

  /** A text between double quotes, with nothing escaped. */
  function Quote(s: string): string {
    "\"" + s + "\""
  }

  /** One data line of `toCSV`: the field name as it is, the options and the
      selection as quoted `|`-joins. */
  function Line(row: CheckboxRow): string {
    Strings.Join(",", [row.fieldName, Quote(Strings.Join("|", row.options)), Quote(Strings.Join("|", row.selected))])
  }

  function Lines(rows: seq<CheckboxRow>): (ls: seq<string>)
    ensures |ls| == |rows|
    ensures forall i | 0 <= i < |rows| :: ls[i] == Line(rows[i])
  {
    seq(|rows|, i requires 0 <= i < |rows| => Line(rows[i]))
  }

  /** `toCSV(rows)`. */
  function ToCsv(rows: seq<CheckboxRow>): (r: string)
    ensures r == "" <==> rows == []
  {
    if rows == [] then ""
    else Strings.Join("\n", [Strings.Join(",", Header)] + Lines(rows))
  }

  /** The cells a row is read back as. */
  function Cells(row: CheckboxRow): seq<string> {
    [row.fieldName, Strings.Join("|", row.options), Strings.Join("|", row.selected)]
  }

  /** A row whose name needs no quoting and whose items hold no quote. */
  predicate Writable(row: CheckboxRow) {
    && ',' !in row.fieldName && '\n' !in row.fieldName && '"' !in row.fieldName
    && (forall i | 0 <= i < |row.options| :: '"' !in row.options[i])
    && (forall i | 0 <= i < |row.selected| :: '"' !in row.selected[i])
  }

  /** Reading the CSV text back gives the header and then, line by line, the
      field name and the joined options and selection of each row. */
  lemma ToCsvReadBack(rows: seq<CheckboxRow>)
    requires rows != []
    requires forall i | 0 <= i < |rows| :: Writable(rows[i])
    ensures CsvReader.ReadCsv(ToCsv(rows)) == [Header] + AllCells(rows)
  {
    var lines := CellLines(rows);
    CellLinesReadable(rows);
    CsvReader.ReadCsvBack(lines);
    CellLinesWritten(rows);
    CellLinesTable(rows);
  }

  /** The cells every row is read back as. */
  function AllCells(rows: seq<CheckboxRow>): (t: seq<seq<string>>)
    ensures |t| == |rows|
    ensures forall i | 0 <= i < |rows| :: t[i] == Cells(rows[i])
  {
    seq(|rows|, i requires 0 <= i < |rows| => Cells(rows[i]))
  }

  const HeaderCells: seq<CsvReader.Cell> := [CsvReader.Plain("fieldName"), CsvReader.Plain("options"), CsvReader.Plain("selected")]

  /** The written table, cell by cell. */
  function CellLines(rows: seq<CheckboxRow>): seq<seq<CsvReader.Cell>> {
    [HeaderCells] + Body(rows)
  }

  /** The written data lines, cell by cell. */
  function Body(rows: seq<CheckboxRow>): (b: seq<seq<CsvReader.Cell>>)
    ensures |b| == |rows|
    ensures forall i | 0 <= i < |rows| :: b[i] == RowCells(rows[i])
  {
    seq(|rows|, i requires 0 <= i < |rows| => RowCells(rows[i]))
  }

  lemma CellLinesReadable(rows: seq<CheckboxRow>)
    requires forall i | 0 <= i < |rows| :: Writable(rows[i])
    ensures forall i | 0 <= i < |CellLines(rows)| :: |CellLines(rows)[i]| >= 1
    ensures forall i, j | 0 <= i < |CellLines(rows)| && 0 <= j < |CellLines(rows)[i]| :: CsvReader.Readable(CellLines(rows)[i][j])
  {
    var b := Body(rows);
    var ls := [HeaderCells] + b;
    forall i | 0 <= i < |ls|
      ensures |ls[i]| >= 1
      ensures forall j | 0 <= j < |ls[i]| :: CsvReader.Readable(ls[i][j])
    {
      if i > 0 {
        assert ls[i] == b[i - 1];
      }
    }
  }

  lemma CellLinesWritten(rows: seq<CheckboxRow>)
    requires rows != []
    requires forall i | 0 <= i < |rows| :: Writable(rows[i])
    ensures CsvReader.RenderLines(CellLines(rows)) == ToCsv(rows)
  {
    var b := Body(rows);
    CsvReader.RenderLinesJoin([HeaderCells] + b);
    CsvReader.RenderEachCons(HeaderCells, b);
    assert CsvReader.RenderLine(HeaderCells) == Strings.Join(",", Header) by {
      CsvReader.RenderLineJoin(HeaderCells);
      assert CsvReader.Renders(HeaderCells) == Header;
    }
    assert CsvReader.RenderEach(b) == Lines(rows) by {
      forall i | 0 <= i < |rows|
        ensures CsvReader.RenderLine(b[i]) == Line(rows[i])
      {
        RowLine(rows[i]);
      }
    }
  }

  lemma CellLinesTable(rows: seq<CheckboxRow>)
    ensures CsvReader.Table(CellLines(rows)) == [Header] + AllCells(rows)
  {
    var b := Body(rows);
    CsvReader.TableCons(HeaderCells, b);
    HeaderTexts();
    assert CsvReader.Table(b) == AllCells(rows) by {
      forall i | 0 <= i < |rows|
        ensures CsvReader.Texts(b[i]) == Cells(rows[i])
      {
        RowTexts(rows[i]);
      }
    }
  }

  lemma HeaderTexts()
    ensures CsvReader.Texts(HeaderCells) == Header
  {
  }

  lemma RowTexts(row: CheckboxRow)
    ensures CsvReader.Texts(RowCells(row)) == Cells(row)
  {
  }

  /** How a row is written, cell by cell. */
  function RowCells(row: CheckboxRow): seq<CsvReader.Cell> {
    [CsvReader.Plain(row.fieldName), CsvReader.Quoted(Strings.Join("|", row.options)), CsvReader.Quoted(Strings.Join("|", row.selected))]
  }

  lemma RowLine(row: CheckboxRow)
    requires Writable(row)
    ensures CsvReader.RenderLine(RowCells(row)) == Line(row)
  {
    var cs := RowCells(row);
    Strings.JoinAvoids("|", row.options, '"');
    Strings.JoinAvoids("|", row.selected, '"');
    CsvReader.RenderLineJoin(cs);
    assert CsvReader.Renders(cs) == [row.fieldName, Quote(Strings.Join("|", row.options)), Quote(Strings.Join("|", row.selected))];
  }

  /** Generated rows can always be written when the group's name needs no quoting. */
  lemma GeneratedWritable(spec: CheckboxSpec, rand: Oracle.Rng, k: nat)
    requires ',' !in spec.name && '\n' !in spec.name && '"' !in spec.name
    ensures forall i | 0 <= i < |GenerateCheckboxData(spec, rand, k).value| :: Writable(GenerateCheckboxData(spec, rand, k).value[i])
  {
    var opts := ValOptions(OptionCount(spec));
    forall j | 0 <= j < |opts|
      ensures '"' !in opts[j]
    {
      OptionValueUnquoted(j);
    }
    RecordsWritable(GenerateCheckboxData(spec, rand, k).value, Strings.OrDefault(spec.name, "checkbox"), opts, Clamped(spec));
  }

  lemma RecordsWritable(rows: seq<CheckboxRow>, fieldName: string, options: seq<string>, sel: nat)
    requires ',' !in fieldName && '\n' !in fieldName && '"' !in fieldName
    requires forall j | 0 <= j < |options| :: '"' !in options[j]
    requires forall i | 0 <= i < |rows| :: IsRecord(rows[i], fieldName, options, sel)
    ensures forall i | 0 <= i < |rows| :: Writable(rows[i])
  {
    forall i, j | 0 <= i < |rows| && 0 <= j < |rows[i].selected|
      ensures '"' !in rows[i].selected[j]
    {
      assert rows[i].selected[j] in options;
    }
  }

  lemma OptionValueUnquoted(i: nat)
    ensures '"' !in OptionValue(i)
  {
    Numerals.DecimalRoundTrip(i + 1);
    assert forall c | c in Numerals.Decimal(i + 1) :: Numerals.IsDigit(c);
  }

  /** `generateMultiple(specs)`: each spec's rows under its name, or under
      `checkbox_<count + 1>` when it has none; a later spec with the same key
      replaces an earlier one in place. */
  function GenerateMultiple(specs: seq<CheckboxSpec>, rand: Oracle.Rng, k: nat): (r: Oracle.Drawn<OrderedMaps.OrderedMap<string, seq<CheckboxRow>>>)
    ensures OrderedMaps.DistinctKeys(r.value)
    ensures |r.value| <= |specs|
    ensures forall i | 0 <= i < |specs| && specs[i].name != "" :: specs[i].name in OrderedMaps.Keys(r.value)
    decreases |specs|
  {
    if specs == [] then Oracle.Drawn([], k)
    else
      var last := specs[|specs| - 1];
      var prev := GenerateMultiple(specs[..|specs| - 1], rand, k);
      var key := Strings.OrDefault(last.name, "checkbox_" + Numerals.Decimal(|prev.value| + 1));
      var rows := GenerateCheckboxData(last, rand, prev.next);
      MultipleStep(specs, specs[..|specs| - 1], prev.value, key, rows.value);
      Oracle.Drawn(OrderedMaps.Put(prev.value, key, rows.value), rows.next)
  }

  /** Putting the last spec's rows keeps the keys distinct, adds at most one
      and keeps every name present. */
  lemma MultipleStep(specs: seq<CheckboxSpec>, pre: seq<CheckboxSpec>, prev: OrderedMaps.OrderedMap<string, seq<CheckboxRow>>, key: string, rows: seq<CheckboxRow>)
    requires specs != [] && pre == specs[..|specs| - 1]
    requires OrderedMaps.DistinctKeys(prev) && |prev| <= |pre|
    requires forall i | 0 <= i < |pre| && pre[i].name != "" :: pre[i].name in OrderedMaps.Keys(prev)
    requires specs[|specs| - 1].name != "" ==> key == specs[|specs| - 1].name
    ensures var m := OrderedMaps.Put(prev, key, rows);
      && OrderedMaps.DistinctKeys(m)
      && |m| <= |specs|
      && forall i | 0 <= i < |specs| && specs[i].name != "" :: specs[i].name in OrderedMaps.Keys(m)
  {
    OrderedMaps.PutKeepsKeysDistinct(prev, key, rows);
    var m := OrderedMaps.Put(prev, key, rows);
    assert |OrderedMaps.Keys(m)| <= |OrderedMaps.Keys(prev)| + 1;
    assert forall i | 0 <= i < |specs| - 1 :: specs[i] == pre[i];
  }

  /** A name that a spec without a name can never be given. */
  predicate NotSynthesized(name: string) {
    |name| < 9 || name[..9] != "checkbox_"
  }

  /** No spec after the `i`-th takes its key: none has the same name, and
      when a later spec has no name at all, the name is not one of the form
      `checkbox_<n>` given to such specs. */
  predicate NoLaterKey(specs: seq<CheckboxSpec>, i: nat) {
    && i < |specs|
    && specs[i].name != ""
    && (forall j | i < j < |specs| :: specs[j].name != specs[i].name)
    && (forall j | i < j < |specs| :: specs[j].name == "" ==> NotSynthesized(specs[i].name))
  }

  /** The rows drawn for the `i`-th spec: drawn where the specs before it
      leave the cursor. */
  function RowsOf(specs: seq<CheckboxSpec>, i: nat, rand: Oracle.Rng, k: nat): seq<CheckboxRow>
    requires i < |specs|
  {
    GenerateCheckboxData(specs[i], rand, GenerateMultiple(specs[..i], rand, k).next).value
  }

  /** The value under a spec's name is the rows drawn for that spec when no
      later spec takes the same key. */
  lemma {:induction false} GenerateMultipleNamed(specs: seq<CheckboxSpec>, rand: Oracle.Rng, k: nat, i: nat)
    requires NoLaterKey(specs, i)
    ensures OrderedMaps.Get(GenerateMultiple(specs, rand, k).value, specs[i].name) == Some(RowsOf(specs, i, rand, k))
    decreases |specs|
  {
    if i == |specs| - 1 {
      NamedLast(specs, rand, k);
    } else {
      NoLaterKeyPrefix(specs, i, rand, k);
      GenerateMultipleNamed(specs[..|specs| - 1], rand, k, i);
      NamedEarlier(specs, rand, k, i);
    }
  }

  lemma NoLaterKeyPrefix(specs: seq<CheckboxSpec>, i: nat, rand: Oracle.Rng, k: nat)
    requires NoLaterKey(specs, i) && i < |specs| - 1
    ensures NoLaterKey(specs[..|specs| - 1], i)
    ensures RowsOf(specs[..|specs| - 1], i, rand, k) == RowsOf(specs, i, rand, k)
  {
    assert specs[..|specs| - 1][..i] == specs[..i];
  }

  /** The last spec's rows sit under its name. */
  lemma NamedLast(specs: seq<CheckboxSpec>, rand: Oracle.Rng, k: nat)
    requires specs != [] && specs[|specs| - 1].name != ""
    ensures OrderedMaps.Get(GenerateMultiple(specs, rand, k).value, specs[|specs| - 1].name) == Some(RowsOf(specs, |specs| - 1, rand, k))
  {
    MultipleLast(specs, rand, k);
  }

  /** Putting the last spec leaves an earlier spec's entry where it was. */
  lemma NamedEarlier(specs: seq<CheckboxSpec>, rand: Oracle.Rng, k: nat, i: nat)
    requires NoLaterKey(specs, i) && i < |specs| - 1
    ensures OrderedMaps.Get(GenerateMultiple(specs, rand, k).value, specs[i].name)
         == OrderedMaps.Get(GenerateMultiple(specs[..|specs| - 1], rand, k).value, specs[i].name)
  {
    LastKeyDiffers(specs, i, |GenerateMultiple(specs[..|specs| - 1], rand, k).value| + 1);
    MultipleElsewhere(specs, rand, k, specs[i].name);
  }

  /** Under any other name than the last spec's key, nothing changes. */
  lemma MultipleElsewhere(specs: seq<CheckboxSpec>, rand: Oracle.Rng, k: nat, name: string)
    requires specs != []
    requires var prev := GenerateMultiple(specs[..|specs| - 1], rand, k);
      name != Strings.OrDefault(specs[|specs| - 1].name, "checkbox_" + Numerals.Decimal(|prev.value| + 1))
    ensures OrderedMaps.Get(GenerateMultiple(specs, rand, k).value, name)
         == OrderedMaps.Get(GenerateMultiple(specs[..|specs| - 1], rand, k).value, name)
  {
    MultipleLast(specs, rand, k);
  }

  /** The last spec's key is not the `i`-th spec's name. */
  lemma LastKeyDiffers(specs: seq<CheckboxSpec>, i: nat, count: nat)
    requires NoLaterKey(specs, i) && i < |specs| - 1
    ensures Strings.OrDefault(specs[|specs| - 1].name, "checkbox_" + Numerals.Decimal(count)) != specs[i].name
  {
    if specs[|specs| - 1].name == "" {
      SynthesizedKey(specs[i].name, count);
    }
  }

  /** The last spec's rows are put under its key, on the map of the others. */
  lemma MultipleLast(specs: seq<CheckboxSpec>, rand: Oracle.Rng, k: nat)
    requires specs != []
    ensures var prev := GenerateMultiple(specs[..|specs| - 1], rand, k);
      GenerateMultiple(specs, rand, k).value
      == OrderedMaps.Put(prev.value, Strings.OrDefault(specs[|specs| - 1].name, "checkbox_" + Numerals.Decimal(|prev.value| + 1)),
                         GenerateCheckboxData(specs[|specs| - 1], rand, prev.next).value)
  {
  }

  /** A synthesised key `checkbox_<n>` is never a name of another form. */
  lemma SynthesizedKey(name: string, n: nat)
    requires NotSynthesized(name)
    ensures name != "checkbox_" + Numerals.Decimal(n)
  {
    assert ("checkbox_" + Numerals.Decimal(n))[..9] == "checkbox_";
  }
}
