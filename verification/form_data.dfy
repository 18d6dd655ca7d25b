/** `generateFormData` (checkboxData.js): one row per record, one cell per
    field spec, the cell chosen by the spec's generator override or else by
    its type. */
module FormData {
  import opened Wrappers
  import Strings
  import Sequences
  import Oracle
  import OrderedMaps
  import Generators
  import opened FieldSpecs

  /** The generator override of a spec, after lower-casing. "" and "auto"
      mean none; any other unknown word selects the six-character string. */
  datatype Override = NoOverride | NameGen | EmailGen | PhoneGen | DateGen | AddressGen | NumberGen | TextGen | OtherGen

  function OverrideOf(generator: string): (o: Override)
    ensures o == NoOverride <==> Strings.Lower(generator) in {"", "auto"}
    ensures o == NumberGen <==> Strings.Lower(generator) == "number"
    ensures o == OtherGen <==> Strings.Lower(generator) !in {"", "auto", "name", "email", "phone", "date", "address", "number", "text"}
  {
    var g := Strings.Lower(generator);
    if g == "" || g == "auto" then NoOverride
    else if g == "name" then NameGen
    else if g == "email" then EmailGen
    else if g == "phone" then PhoneGen
    else if g == "date" then DateGen
    else if g == "address" then AddressGen
    else if g == "number" then NumberGen
    else if g == "text" then TextGen
    else OtherGen
  }

  /** The branches of the type dispatch; an absent type counts as "text". */
  datatype Kind = TextKind | NumberKind | SelectKind | RadioKind | CheckboxKind | ButtonKind | OtherKind

  function KindOf(kind: string): (c: Kind)
    ensures c == TextKind <==> Strings.Lower(kind) in {"", "text", "textarea"}
    ensures c == OtherKind <==> Strings.Lower(kind) !in {"", "text", "textarea", "number", "select", "radio", "checkbox", "button"}
  {
    var t := Strings.Lower(if kind == "" then "text" else kind);
    assert kind == "" ==> t == "text";
    if t == "text" || t == "textarea" then TextKind
    else if t == "number" then NumberKind
    else if t == "select" then SelectKind
    else if t == "radio" then RadioKind
    else if t == "checkbox" then CheckboxKind
    else if t == "button" then ButtonKind
    else OtherKind
  }

  /** Every type schema inference assigns has a branch of its own. */
  lemma InferredKindsDispatched(kind: string)
    requires kind in InferredKinds
    ensures KindOf(kind) != OtherKind
  {
  }

  /** The row key of a spec: its name, or "field". */
  function NameOf(s: FieldSpec): (n: string)
    ensures n != ""
    ensures s.name != "" ==> n == s.name
    ensures s.name == "" ==> n == "field"
  {
    if s.name != "" then s.name else "field"
  }

  /** Picks that take each element of the pool at most as often as it occurs there. */
  predicate Picked(items: seq<string>, pool: seq<string>) {
    multiset(items) <= multiset(pool)
  }

  /** What a cell generated for the spec `s` may be. */
  ghost predicate Fits(s: FieldSpec, v: Value) {
    match OverrideOf(s.generator)
    case NoOverride => FitsKind(s, v)
    case NameGen => v.Str? && Generators.IsName(v.text)
    case EmailGen => v.Str? && Generators.IsEmail(v.text)
    case PhoneGen => v.Str? && Generators.IsPhone(v.text)
    case DateGen => v.Str? && Generators.IsDate(v.text, DateEndYear)
    case AddressGen => v.Str? && Generators.IsAddress(v.text)
    case NumberGen => v.Str? && Generators.IsNumeral(v.text, 9999)
    case TextGen => v.Str? && Oracle.IsToken(v.text, 8)
    case OtherGen => v.Str? && Oracle.IsToken(v.text, 6)
  }

  /** What the type dispatch may produce for the spec `s`. */
  ghost predicate FitsKind(s: FieldSpec, v: Value) {
    match KindOf(s.kind)
    case TextKind => v.Str? && Oracle.IsToken(v.text, 8)
    case NumberKind => v.Str? && Generators.IsNumeral(v.text, 9999)
    case SelectKind =>
      if s.multiple then
        && v.List? && Picked(v.items, s.options) && |v.items| <= 2
        && (s.options != [] <==> |v.items| >= 1)
      else FitsOne(s.options, v)
    case RadioKind => FitsOne(s.options, v)
    case CheckboxKind =>
      && v.List? && Picked(v.items, s.options)
      && (s.selectedCount.Some? ==> |v.items| == Min(Max(s.selectedCount.value, 0), |s.options|))
    case ButtonKind => v == Str(if s.labelText != "" then s.labelText else "button")
    case OtherKind => v.Str? && Oracle.IsToken(v.text, 6)
  }

  /** One of the options, or "" when there is none. */
  predicate FitsOne(options: seq<string>, v: Value) {
    v.Str? && (if options == [] then v.text == "" else v.text in options)
  }

  /** The last year of `randomDate(1970, 2025)`. */
  const DateEndYear := 2025

  /** The picks of a multiple select: `Math.max(1, floor(random * min(n, 3)))`
      positions, which is 1 or 2 and never 3, drawn without replacement. */
  function PickSome(options: seq<string>, rand: Oracle.Rng, k: nat): (r: Oracle.Drawn<seq<string>>)
    ensures Picked(r.value, options) && |r.value| <= 2
    ensures options != [] <==> |r.value| >= 1
    ensures |options| <= 2 ==> |r.value| == Min(|options|, 1)
    ensures r.next == k + 1 + |r.value|
  {
    var c := Oracle.Below(rand, k, Min(|options|, 3));
    Oracle.PickDistinct(options, Max(1, c.value), rand, c.next)
  }

  /** The picks of a checkbox group: the spec's selected count, or a random
      count from 0 to the number of options, drawn without replacement. */
  function PickChecked(s: FieldSpec, rand: Oracle.Rng, k: nat): (r: Oracle.Drawn<seq<string>>)
    ensures Picked(r.value, s.options)
    ensures s.selectedCount.Some? ==> |r.value| == Min(Max(s.selectedCount.value, 0), |s.options|)
  {
    var c := match s.selectedCount
      case Some(n) => Oracle.Drawn(n, k)
      case None =>
        var d := Oracle.Below(rand, k, |s.options| + 1);
        Oracle.Drawn(d.value as int, d.next);
    Oracle.PickDistinct(s.options, c.value, rand, c.next)
  }

  /** The type dispatch. */
  function ByKind(s: FieldSpec, rand: Oracle.Rng, k: nat): (r: Oracle.Drawn<Value>)
    ensures FitsKind(s, r.value)
    ensures KindOf(s.kind) == ButtonKind ==> r.next == k
    ensures r.next >= k
  {
    match KindOf(s.kind)
    case TextKind => var t := Oracle.RandomString(8, rand, k); Oracle.Drawn(Str(t.value), t.next)
    case NumberKind => var t := Generators.RandomNumeral(9999, rand, k); Oracle.Drawn(Str(t.value), t.next)
    case SelectKind =>
      if s.multiple then
        var p := PickSome(s.options, rand, k);
        Oracle.Drawn(List(p.value), p.next)
      else
        var t := Generators.ChooseRandom(s.options, rand, k);
        Oracle.Drawn(Str(t.value), t.next)
    case RadioKind => var t := Generators.ChooseRandom(s.options, rand, k); Oracle.Drawn(Str(t.value), t.next)
    case CheckboxKind => var p := PickChecked(s, rand, k); Oracle.Drawn(List(p.value), p.next)
    case ButtonKind => Oracle.Drawn(Str(if s.labelText != "" then s.labelText else "button"), k)
    case OtherKind => var t := Oracle.RandomString(6, rand, k); Oracle.Drawn(Str(t.value), t.next)
  }

  /** The override dispatch, which ends the cell without looking at the type. */
  function ByOverride(s: FieldSpec, o: Override, rand: Oracle.Rng, k: nat): (r: Oracle.Drawn<string>)
    requires o != NoOverride && o == OverrideOf(s.generator)
    ensures Fits(s, Str(r.value))
    ensures r.next > k
  {
    match o
    case NameGen => Generators.RandomName(rand, k)
    case EmailGen =>
      if s.exampleName != "" then Generators.RandomEmail(s.exampleName, rand, k)
      else
        var n := Generators.RandomName(rand, k);
        Generators.RandomEmail(n.value, rand, n.next)
    case PhoneGen => Generators.RandomPhone(rand, k)
    case DateGen => Generators.RandomDate(DateEndYear, rand, k)
    case AddressGen => Generators.RandomAddress(rand, k)
    case NumberGen => Generators.RandomNumeral(9999, rand, k)
    case TextGen => Oracle.RandomString(8, rand, k)
    case OtherGen => Oracle.RandomString(6, rand, k)
  }

  /** The cell of one spec in one record. */
  function GenerateValue(s: FieldSpec, rand: Oracle.Rng, k: nat): (r: Oracle.Drawn<Value>)
    ensures Fits(s, r.value)
    ensures r.next >= k
  {
    var o := OverrideOf(s.generator);
    if o != NoOverride then
      var t := ByOverride(s, o, rand, k);
      Oracle.Drawn(Str(t.value), t.next)
    else ByKind(s, rand, k)
  }

  /** An override makes the type irrelevant: specs that differ only in
      their type produce the same cell from the same draws. */
  lemma OverrideIgnoresKind(s: FieldSpec, kind: string, rand: Oracle.Rng, k: nat)
    requires OverrideOf(s.generator) != NoOverride
    ensures GenerateValue(s, rand, k) == GenerateValue(s.(kind := kind), rand, k)
  {
  }

  /** The row keys of a list of specs, in spec order, repetitions kept. */
  function Names(specs: seq<FieldSpec>): (ns: seq<string>)
    ensures |ns| == |specs|
    ensures forall i | 0 <= i < |specs| :: ns[i] == NameOf(specs[i])
  {
    seq(|specs|, i requires 0 <= i < |specs| => NameOf(specs[i]))
  }

  /** A row generated from `specs`: a key for every spec name and no other,
      each key once, and under each key a cell fitting the LAST spec of
      that name, since a later spec of the same name overwrites the cell. */
  ghost predicate RowFits(specs: seq<FieldSpec>, row: Row) {
    RowFitsWith(FitsRel, specs, row)
  }

  ghost const FitsRel: (FieldSpec, Value) -> bool := (s, v) => Fits(s, v)

  /** `RowFits` for any relation `fits` between specs and cells. */
  ghost predicate RowFitsWith(fits: (FieldSpec, Value) -> bool, specs: seq<FieldSpec>, row: Row) {
    RowKeys(Names(specs), row) && RowCells(fits, specs, row)
  }

  /** The keys of `row` are the elements of `ns`, each once. */
  predicate RowKeys(ns: seq<string>, row: Row) {
    && OrderedMaps.DistinctKeys(row)
    && (forall i | 0 <= i < |ns| :: ns[i] in OrderedMaps.Keys(row))
    && (forall i | 0 <= i < |row| :: row[i].0 in ns)
  }

  /** Under each spec name, a cell that `fits` the last spec of that name. */
  ghost predicate RowCells(fits: (FieldSpec, Value) -> bool, specs: seq<FieldSpec>, row: Row) {
    var ns := Names(specs);
    forall i | 0 <= i < |ns| ::
      && OrderedMaps.Get(row, ns[i]).Some?
      && fits(specs[Sequences.LastIndex(ns, ns[i])], OrderedMaps.Get(row, ns[i]).value)
  }

  /** One record: every spec in turn writes its cell under its name. */
  function FillRow(specs: seq<FieldSpec>, rand: Oracle.Rng, k: nat): (r: Oracle.Drawn<Row>)
    ensures RowFitsWith(FitsRel, specs, r.value)
    ensures r.next >= k
    decreases |specs|
  {
    if specs == [] then Oracle.Drawn([], k)
    else
      var init := specs[..|specs| - 1];
      var last := specs[|specs| - 1];
      var prev := FillRow(init, rand, k);
      var v := GenerateValue(last, rand, prev.next);
      var row := OrderedMaps.Put(prev.value, NameOf(last), v.value);
      assert FitsRel(last, v.value);
      FillRowStep(FitsRel, init, last, prev.value, v.value);
      Sequences.SplitLast(specs);
      Oracle.Drawn(row, v.next)
  }

  /** Writing the cell of one more spec keeps a row fitting. */
  lemma FillRowStep(fits: (FieldSpec, Value) -> bool, init: seq<FieldSpec>, last: FieldSpec, prev: Row, v: Value)
    requires RowFitsWith(fits, init, prev)
    requires fits(last, v)
    ensures RowFitsWith(fits, init + [last], OrderedMaps.Put(prev, NameOf(last), v))
  {
    NamesAppend(init, last);
    PutKeys(Names(init), prev, NameOf(last), v);
    PutCells(fits, init, last, prev, v);
  }

  /** Putting a key keeps `RowKeys` with that key appended to the names. */
  lemma PutKeys(ns: seq<string>, prev: Row, n: string, v: Value)
    requires RowKeys(ns, prev)
    ensures RowKeys(ns + [n], OrderedMaps.Put(prev, n, v))
  {
    var row := OrderedMaps.Put(prev, n, v);
    var ns' := ns + [n];
    OrderedMaps.PutKeepsKeysDistinct(prev, n, v);
    forall i | 0 <= i < |ns'|
      ensures ns'[i] in OrderedMaps.Keys(row)
    {
      if i < |ns| {
        assert ns'[i] == ns[i];
      }
    }
    forall i | 0 <= i < |row|
      ensures row[i].0 in ns'
    {
      assert row[i].0 in OrderedMaps.Keys(row);
    }
  }

  /** Putting the cell of one more spec keeps `RowCells`. */
  lemma PutCells(fits: (FieldSpec, Value) -> bool, init: seq<FieldSpec>, last: FieldSpec, prev: Row, v: Value)
    requires RowCells(fits, init, prev)
    requires fits(last, v)
    requires Names(init + [last]) == Names(init) + [NameOf(last)]
    ensures RowCells(fits, init + [last], OrderedMaps.Put(prev, NameOf(last), v))
  {
    var specs := init + [last];
    var ns := Names(specs);
    var n := NameOf(last);
    var row := OrderedMaps.Put(prev, n, v);
    forall i | 0 <= i < |ns|
      ensures OrderedMaps.Get(row, ns[i]).Some?
      ensures fits(specs[Sequences.LastIndex(ns, ns[i])], OrderedMaps.Get(row, ns[i]).value)
    {
      if ns[i] == n {
        assert Sequences.LastIndex(ns, n) == |ns| - 1;
      } else {
        assert ns[i] == Names(init)[i];
        LastIndexAppend(Names(init), n, ns[i]);
      }
    }
  }

  lemma NamesAppend(init: seq<FieldSpec>, last: FieldSpec)
    ensures Names(init + [last]) == Names(init) + [NameOf(last)]
  {
  }

  /** Appending a different element leaves the last index of `x` where it was. */
  lemma LastIndexAppend(xs: seq<string>, y: string, x: string)
    requires x in xs && x != y
    ensures x in xs + [y]
    ensures Sequences.LastIndex(xs + [y], x) == Sequences.LastIndex(xs, x)
  {
    var ys := xs + [y];
    assert ys[..|ys| - 1] == xs;
  }

  /** `generateFormData(specs, records)`: `records` rows (none when it is 0
      or negative), each generated afresh and fitting the specs. */
  function GenerateFormData(specs: seq<FieldSpec>, records: int, rand: Oracle.Rng, k: nat): (r: Oracle.Drawn<seq<Row>>)
    ensures |r.value| == Max(records, 0)
    ensures forall i | 0 <= i < |r.value| :: RowFits(specs, r.value[i])
    ensures r.next >= k
    decreases Max(records, 0)
  {
    if records <= 0 then Oracle.Drawn([], k)
    else
      var prev := GenerateFormData(specs, records - 1, rand, k);
      var row := FillRow(specs, rand, prev.next);
      Oracle.Drawn(prev.value + [row.value], row.next)
  }
}
