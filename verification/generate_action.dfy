/** The "Generate" handler of the checkbox test-data panel: the record count
    it reads, the chooser's include boxes and generator overrides applied to
    the detected specs, and the single-checkbox spec it falls back to when
    nothing was detected. */
module GenerateAction {
  import opened Wrappers
  import Strings
  import Numerals
  import Oracle
  import Sequences
  import OrderedMaps
  import opened FieldSpecs
  import FormData
  import CsvWriter
  import CheckboxData

  /** One chooser row: the value of its generator `<select>` and the state of
      its include box, each `None` when the element is missing. */
  datatype Choice = Choice(generator: Option<string>, included: Option<bool>)

  /** The chooser row of the spec at position `i`; a row that is missing has
      neither element. */
  function ChoiceAt(choices: seq<Choice>, i: nat): Choice {
    if i < |choices| then choices[i] else Choice(None, None)
  }

  /** `chk ? chk.checked : true`. */
  predicate Included(c: Choice) {
    c.included.GetOr(true)
  }

  /** `sel && sel.value`: a non-empty selected generator. */
  predicate Overrides(c: Choice) {
    c.generator.Some? && c.generator.value != ""
  }

  /** The copy of a spec with the chooser's generator, when it names one. */
  function Chosen(s: FieldSpec, c: Choice): FieldSpec {
    if Overrides(c) then s.(generator := c.generator.value) else s
  }

  /** The positions `from` .. `n - 1` whose spec is included, in order. */
  function Kept(choices: seq<Choice>, from: nat, n: nat): (ps: seq<nat>)
    requires from <= n
    ensures forall j | 0 <= j < |ps| :: from <= ps[j] < n && Included(ChoiceAt(choices, ps[j]))
    ensures forall i | from <= i < n && Included(ChoiceAt(choices, i)) :: i in ps
    ensures forall a, b | 0 <= a < b < |ps| :: ps[a] < ps[b]
    decreases n - from
  {
    if from == n then []
    else
      var rest := Kept(choices, from + 1, n);
      if Included(ChoiceAt(choices, from)) then [from] + rest else rest
  }

  /** The chooser step: without a chooser the specs are used as they are;
      with one, exactly the included specs are kept, in their order, each
      with its generator replaced by a non-empty chosen one and nothing else
      changed. The source's temporary `_include` key has no counterpart here. */
  function ApplyChooser(specs: seq<FieldSpec>, chooser: Option<seq<Choice>>): (r: seq<FieldSpec>)
    ensures chooser.None? ==> r == specs
    ensures chooser.Some? ==>
      var ps := Kept(chooser.value, 0, |specs|);
      && |r| == |ps|
      && (forall j | 0 <= j < |r| :: r[j].(generator := specs[ps[j]].generator) == specs[ps[j]])
      && (forall j | 0 <= j < |r| :: Overrides(ChoiceAt(chooser.value, ps[j])) ==> r[j].generator == ChoiceAt(chooser.value, ps[j]).generator.value)
      && (forall j | 0 <= j < |r| :: !Overrides(ChoiceAt(chooser.value, ps[j])) ==> r[j].generator == specs[ps[j]].generator)
  {
    match chooser
    case None => specs
    case Some(choices) =>
      var ps := Kept(choices, 0, |specs|);
      seq(|ps|, j requires 0 <= j < |ps| => Chosen(specs[ps[j]], ChoiceAt(choices, ps[j])))
  }

  /** A chooser left as it was built (every box checked, every select on
      "auto") changes nothing but the generator, which becomes "auto". */
  lemma DefaultChooser(specs: seq<FieldSpec>, choices: seq<Choice>)
    requires |choices| == |specs|
    requires forall i | 0 <= i < |choices| :: choices[i] == Choice(Some("auto"), Some(true))
    ensures ApplyChooser(specs, Some(choices)) == seq(|specs|, i requires 0 <= i < |specs| => specs[i].(generator := "auto"))
  {
    AllKept(choices, 0, |specs|);
  }

  /** When every spec is included, every position is kept. */
  lemma {:induction false} AllKept(choices: seq<Choice>, from: nat, n: nat)
    requires from <= n
    requires forall i | from <= i < n :: Included(ChoiceAt(choices, i))
    ensures |Kept(choices, from, n)| == n - from
    ensures forall j | 0 <= j < n - from :: Kept(choices, from, n)[j] == from + j
    decreases n - from
  {
    if from < n {
      AllKept(choices, from + 1, n);
      var rest := Kept(choices, from + 1, n);
      assert Kept(choices, from, n) == [from] + rest;
      forall j | 0 <= j < n - from
        ensures Kept(choices, from, n)[j] == from + j
      {
        if j > 0 {
          assert ([from] + rest)[j] == rest[j - 1];
        }
      }
    }
  }

  /** The record count: `parseInt(value, 10) || 1`. */
  function RecordCount(recordsIn: string): (n: int)
    ensures n != 0
    ensures Numerals.ParseInt(recordsIn) == Some(n) || n == 1
    ensures Numerals.ParseInt(recordsIn).Some? && Numerals.ParseInt(recordsIn).value != 0 ==> n == Numerals.ParseInt(recordsIn).value
  {
    Numerals.ParseIntOr(recordsIn, 1)
  }

  /** The single-checkbox spec of the fallback: the trimmed name or
      "checkbox", `val_1` .. `val_n` for the parsed inspected count (1 when it
      does not parse or is 0), and the parsed selected count (0 when it does
      not parse). */
  function FallbackSpec(nameIn: string, inspectedIn: string, selectedIn: string): (s: FieldSpec)
    ensures s.name != "" && (Strings.Trim(nameIn) != "" ==> s.name == Strings.Trim(nameIn))
    ensures Strings.Trim(nameIn) == "" ==> s.name == "checkbox"
    ensures s.kind == "checkbox" && s.generator == "" && !s.multiple
    ensures s.options == CheckboxData.ValOptions(Numerals.ParseIntOr(inspectedIn, 1))
    ensures s.selectedCount == Some(Numerals.ParseIntOr(selectedIn, 0))
  {
    var name := Strings.OrDefault(Strings.Trim(nameIn), "checkbox");
    var inspected := Numerals.ParseIntOr(inspectedIn, 1);
    var selected := Numerals.ParseIntOr(selectedIn, 0);
    FieldSpec(name, "checkbox", CheckboxData.ValOptions(inspected), false, Some(selected), "", "", "")
  }

  /** Counts that do not parse, or parse as 0, give one option and a
      selected count of 0. */
  lemma FallbackDefaults(nameIn: string, inspectedIn: string, selectedIn: string)
    requires Numerals.ParseInt(inspectedIn) == None || Numerals.ParseInt(inspectedIn) == Some(0)
    requires Numerals.ParseInt(selectedIn) == None || Numerals.ParseInt(selectedIn) == Some(0)
    ensures FallbackSpec(nameIn, inspectedIn, selectedIn).options == ["val_1"]
    ensures FallbackSpec(nameIn, inspectedIn, selectedIn).selectedCount == Some(0)
  {
    var opts := FallbackSpec(nameIn, inspectedIn, selectedIn).options;
    assert Numerals.Decimal(1) == "1";
    assert opts[0] == "val_1";
  }

  /** What a click on "Generate" ends in. */
  datatype Outcome = NoFieldsSelected | Generated(specs: seq<FieldSpec>, rows: seq<Row>, csv: string)

  /** The specs a click generates from, or none when the chooser left none:
      the detected specs through the chooser, or the fallback spec when
      nothing was detected. */
  function SpecsToUse(detected: seq<FieldSpec>, chooser: Option<seq<Choice>>, nameIn: string, inspectedIn: string, selectedIn: string): seq<FieldSpec> {
    if detected != [] then ApplyChooser(detected, chooser)
    else [FallbackSpec(nameIn, inspectedIn, selectedIn)]
  }

  /** The click handler: generate the rows and their CSV text from the specs
      to use, or report that no field is selected. */
  function OnGenerate(
    detected: seq<FieldSpec>, chooser: Option<seq<Choice>>,
    recordsIn: string, nameIn: string, inspectedIn: string, selectedIn: string,
    rand: Oracle.Rng, k: nat): (r: Oracle.Drawn<Outcome>)
    ensures r.value.NoFieldsSelected? <==> detected != [] && ApplyChooser(detected, chooser) == []
    ensures r.value.Generated? ==>
      && r.value.specs == SpecsToUse(detected, chooser, nameIn, inspectedIn, selectedIn)
      && |r.value.rows| == Max(RecordCount(recordsIn), 0)
      && (forall i | 0 <= i < |r.value.rows| :: FormData.RowFits(r.value.specs, r.value.rows[i]))
      && (r.value.csv == "" <==> r.value.rows == [])
      && r.value.csv == CsvWriter.ToCsvFromObjects(r.value.rows, r.value.specs)
      && ((forall i, h | 0 <= i < |r.value.rows| :: CsvWriter.QuoteFreeLists(OrderedMaps.Get(r.value.rows[i], h)))
          ==> r.value.csv == CsvWriter.ToCsvFromObjectsAsWritten(r.value.rows, r.value.specs))
  {
    var specs := SpecsToUse(detected, chooser, nameIn, inspectedIn, selectedIn);
    if specs == [] then Oracle.Drawn(NoFieldsSelected, k)
    else
      var rows := FormData.GenerateFormData(specs, RecordCount(recordsIn), rand, k);
      CsvWriter.AsWrittenAgreesWhen(rows.value, specs);
      Oracle.Drawn(Generated(specs, rows.value, CsvWriter.ToCsvFromObjects(rows.value, specs)), rows.next)
  }

  /** In the fallback every row holds, under the spec's name, a list of
      distinct values among `val_1` .. `val_n`, as many as the selected count
      clamped to `0 .. n`. */
  lemma FallbackRows(recordsIn: string, nameIn: string, inspectedIn: string, selectedIn: string, rand: Oracle.Rng, k: nat)
    ensures var r := OnGenerate([], None, recordsIn, nameIn, inspectedIn, selectedIn, rand, k).value;
      var s := FallbackSpec(nameIn, inspectedIn, selectedIn);
      && r.Generated?
      && forall i | 0 <= i < |r.rows| :: FallbackCell(s, OrderedMaps.Get(r.rows[i], s.name))
  {
    var r := OnGenerate([], None, recordsIn, nameIn, inspectedIn, selectedIn, rand, k).value;
    var s := FallbackSpec(nameIn, inspectedIn, selectedIn);
    CheckboxData.ValOptionsDistinct(Numerals.ParseIntOr(inspectedIn, 1));
    forall i | 0 <= i < |r.rows|
      ensures FallbackCell(s, OrderedMaps.Get(r.rows[i], s.name))
    {
      OneSpecRow(s, r.rows[i]);
    }
  }

  /** The cell the fallback spec yields. */
  predicate FallbackCell(s: FieldSpec, cell: Option<Value>) {
    && cell.Some? && cell.value.List?
    && Sequences.Distinct(cell.value.items)
    && (forall j | 0 <= j < |cell.value.items| :: cell.value.items[j] in s.options)
    && (s.selectedCount.Some? ==> |cell.value.items| == Min(Max(s.selectedCount.value, 0), |s.options|))
  }

  lemma OneSpecRow(s: FieldSpec, row: Row)
    requires s.name != "" && s.kind == "checkbox" && s.generator == ""
    requires Sequences.Distinct(s.options)
    requires FormData.RowFits([s], row)
    ensures FallbackCell(s, OrderedMaps.Get(row, s.name))
  {
    var ns := FormData.Names([s]);
    assert ns[0] == s.name;
    assert Sequences.LastIndex(ns, ns[0]) == 0;
    var v := OrderedMaps.Get(row, s.name).value;
    assert FormData.Fits(s, v);
    assert FormData.OverrideOf(s.generator) == FormData.NoOverride;
    assert FormData.KindOf(s.kind) == FormData.CheckboxKind;
    Oracle.SubMultisetDistinct(v.items, s.options);
  }
}
