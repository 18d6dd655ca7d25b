/** Form-schema inference (`ui-checkbox.js`, the "use inspected" handler):
    from the controls of a captured fragment, in document order, one field
    spec per distinct name. */
module SchemaInference {
  import opened Wrappers
  import Strings
  import Sequences
  import Oracle
  import opened Dom
  import opened FieldSpecs

  /** The `name` attribute, else `data-name`, else `id`; none when all are empty. */
  function DerivedName(e: Element): Option<string> {
    if e.name != "" then Some(e.name)
    else if e.dataName != "" then Some(e.dataName)
    else if e.id != "" then Some(e.id)
    else None
  }

  /** A name made up for an unnamed control: its tag, `_`, and up to four
      base-36 digits from one random draw. */
  ghost predicate IsSynthesized(n: string, tag: Tag) {
    var prefix := tag.Name() + "_";
    && |prefix| <= |n|
    && n[..|prefix|] == prefix
    && Oracle.IsToken(n[|prefix|..], 4)
  }

  /** The name of every control, in order; each unnamed control consumes one draw. */
  function ElementNames(controls: seq<Element>, rand: Oracle.Rng, k: nat): (r: Oracle.Drawn<seq<string>>)
    ensures |r.value| == |controls|
    ensures forall i | 0 <= i < |controls| ::
      var e := controls[i];
      && (e.name != "" ==> r.value[i] == e.name)
      && (e.name == "" && e.dataName != "" ==> r.value[i] == e.dataName)
      && (e.name == "" && e.dataName == "" && e.id != "" ==> r.value[i] == e.id)
      && (e.name == "" && e.dataName == "" && e.id == "" ==> IsSynthesized(r.value[i], e.tag))
    ensures forall i | 0 <= i < |controls| :: r.value[i] != ""
    ensures r.next >= k
    decreases |controls|
  {
    if controls == [] then Oracle.Drawn([], k)
    else
      var e := controls[0];
      var first := match DerivedName(e)
        case Some(n) => Oracle.Drawn(n, k)
        case None =>
          var suffix := Oracle.RandomString(4, rand, k);
          var n := e.tag.Name() + "_" + suffix.value;
          assert n[..|e.tag.Name() + "_"|] == e.tag.Name() + "_";
          assert n[|e.tag.Name() + "_"|..] == suffix.value;
          Oracle.Drawn(n, suffix.next);
      var rest := ElementNames(controls[1..], rand, first.next);
      Oracle.Drawn([first.value] + rest.value, rest.next)
  }

  /** The inputs of the document matched by `input[type="<kind>"][name="<name>"]`. */
  function Group(controls: seq<Element>, kind: string, name: string): (g: seq<Element>)
    ensures |g| <= |controls|
    ensures forall i | 0 <= i < |g| :: g[i] in controls && g[i].tag == Input && Strings.Lower(g[i].typeAttr) == kind && g[i].name == name
    ensures forall i | 0 <= i < |controls| && controls[i].tag == Input && Strings.Lower(controls[i].typeAttr) == kind && controls[i].name == name :: controls[i] in g
    decreases |controls|
  {
    if controls == [] then []
    else
      var e := controls[0];
      var rest := Group(controls[1..], kind, name);
      if e.tag == Input && Strings.Lower(e.typeAttr) == kind && e.name == name then [e] + rest else rest
  }

  /** Which controls the group selector matches. */
  function GroupMask(controls: seq<Element>, kind: string, name: string): (m: seq<bool>)
    ensures |m| == |controls|
    ensures forall i | 0 <= i < |controls| ::
      m[i] == (controls[i].tag == Input && Strings.Lower(controls[i].typeAttr) == kind && controls[i].name == name)
  {
    seq(|controls|, i requires 0 <= i < |controls| =>
      controls[i].tag == Input && Strings.Lower(controls[i].typeAttr) == kind && controls[i].name == name)
  }

  lemma {:induction false} GroupFrom(controls: seq<Element>, kind: string, name: string, from: nat)
    requires from <= |controls|
    ensures Group(controls[from..], kind, name) == Sequences.At(controls, Sequences.Marked(GroupMask(controls, kind, name), from))
    decreases |controls| - from
  {
    if from < |controls| {
      GroupFrom(controls, kind, name, from + 1);
      assert controls[from..][1..] == controls[from + 1..];
      var e := controls[from];
      if e.tag == Input && Strings.Lower(e.typeAttr) == kind && e.name == name {
        Sequences.AtCons(controls, from, Sequences.Marked(GroupMask(controls, kind, name), from + 1));
      }
    }
  }

  /** The group is the controls at exactly the positions the selector
      matches, in document order. */
  lemma GroupInOrder(controls: seq<Element>, kind: string, name: string)
    ensures Group(controls, kind, name) == Sequences.At(controls, Sequences.Marked(GroupMask(controls, kind, name), 0))
  {
    GroupFrom(controls, kind, name, 0);
    assert controls[0..] == controls;
  }

  /** An option value of a checkbox or radio group: the value, else the id,
      else the value attribute, else "on". */
  function GroupValue(e: Element): (v: string)
    ensures v != ""
    ensures e.value != "" ==> v == e.value
    ensures e.value == "" && e.id != "" ==> v == e.id
    ensures e.value == "" && e.id == "" && e.valueAttr != "" ==> v == e.valueAttr
    ensures e.value == "" && e.id == "" && e.valueAttr == "" ==> v == "on"
  {
    if e.value != "" then e.value
    else if e.id != "" then e.id
    else if e.valueAttr != "" then e.valueAttr
    else "on"
  }

  function GroupValues(g: seq<Element>): (vs: seq<string>)
    ensures |vs| == |g|
    ensures forall i | 0 <= i < |g| :: vs[i] == GroupValue(g[i])
  {
    seq(|g|, i requires 0 <= i < |g| => GroupValue(g[i]))
  }

  /** An option of a select: its value, else its trimmed text. */
  function OptionText(o: OptionElem): string {
    if o.value != "" then o.value else Strings.Trim(o.text)
  }

  function OptionTexts(os: seq<OptionElem>): (vs: seq<string>)
    ensures |vs| == |os|
    ensures forall i | 0 <= i < |os| :: vs[i] == OptionText(os[i])
  {
    seq(|os|, i requires 0 <= i < |os| => OptionText(os[i]))
  }

  /** A button's label: its trimmed text, else its value, else "button". */
  function ButtonLabel(e: Element): (l: string)
    ensures l != ""
    ensures Strings.Trim(e.text) != "" ==> l == Strings.Trim(e.text)
    ensures Strings.Trim(e.text) == "" && e.value != "" ==> l == e.value
    ensures Strings.Trim(e.text) == "" && e.value == "" ==> l == "button"
  {
    var t := Strings.Trim(e.text);
    if t != "" then t else if e.value != "" then e.value else "button"
  }

  /** The spec of the control `e` under `name`, classified by tag and type
      (the classification itself is stated by `DescribeClassifies`). */
  function Describe(doc: Document, e: Element, name: string): (s: FieldSpec)
    ensures s.name == name && s.generator == "" && s.exampleName == ""
    ensures s.kind in InferredKinds
  {
    var spec := Named(name);
    match e.tag
    case Select => spec.(kind := "select", multiple := e.multiple, options := OptionTexts(e.options))
    case Textarea => spec.(kind := "textarea")
    case Button => spec.(kind := "button", labelText := ButtonLabel(e))
    case Input =>
      var t := Strings.Lower(e.typeAttr);
      if t == "checkbox" then
        var g := Group(doc.controls, "checkbox", name);
        spec.(kind := "checkbox", options := GroupValues(g), selectedCount := Some(CountChecked(g)))
      else if t == "radio" then
        spec.(kind := "radio", options := GroupValues(Group(doc.controls, "radio", name)))
      else if t == "number" then spec.(kind := "number")
      else spec.(kind := "text")
  }

  /** What `Describe` makes of each kind of control. */
  lemma DescribeClassifies(doc: Document, e: Element, name: string)
    ensures var s := Describe(doc, e, name);
      && (s.kind == "select" <==> e.tag == Select)
      && (s.kind == "textarea" <==> e.tag == Textarea)
      && (s.kind == "button" <==> e.tag == Button)
      && (s.kind == "checkbox" <==> IsCheckbox(e))
      && (s.kind == "radio" <==> IsRadio(e))
      && (s.kind == "number" <==> e.tag == Input && Strings.Lower(e.typeAttr) == "number")
      && (s.kind == "text" <==> e.tag == Input && Strings.Lower(e.typeAttr) !in {"checkbox", "radio", "number"})
      && (s.multiple <==> e.tag == Select && e.multiple)
      && (e.tag == Select ==> s.options == OptionTexts(e.options))
      && (IsCheckbox(e) ==> s.options == GroupValues(Group(doc.controls, "checkbox", name)))
      && (IsRadio(e) ==> s.options == GroupValues(Group(doc.controls, "radio", name)))
      && (s.options != [] ==> e.tag == Select || IsCheckbox(e) || IsRadio(e))
      && (s.selectedCount.Some? <==> IsCheckbox(e))
      && (s.selectedCount.Some? ==> && s.selectedCount.value == CountChecked(Group(doc.controls, "checkbox", name)) && 0 <= s.selectedCount.value <= |s.options|)
      && (s.labelText != "" <==> e.tag == Button)
      && (e.tag == Button ==> s.labelText == ButtonLabel(e))
  {
  }

  /** `{ ...s, generator: 'auto' }` for every spec. */
  function WithAuto(specs: seq<FieldSpec>): (r: seq<FieldSpec>)
    ensures |r| == |specs|
    ensures forall i | 0 <= i < |specs| ::
      r[i].generator == "auto" && r[i].(generator := specs[i].generator) == specs[i]
  {
    seq(|specs|, i requires 0 <= i < |specs| => specs[i].(generator := "auto"))
  }

  /** The inferred schema of a document. The source's loop skips a control
      whose name it has already seen and otherwise appends its description;
      here the positions it keeps are computed first (`FirstOccurrences`)
      and then described, which yields the same list. The names are drawn
      first (`ElementNames`), then `Schema` builds the specs. */
  function Infer(doc: Document, rand: Oracle.Rng, k: nat): (r: Oracle.Drawn<seq<FieldSpec>>)
    ensures IsSchemaOf(r.value, doc, ElementNames(doc.controls, rand, k).value)
    ensures r.next >= k
  {
    var names := ElementNames(doc.controls, rand, k);
    Oracle.Drawn(Schema(doc, names.value), names.next)
  }

  /** `r` has one spec per distinct name of `ns`, in order of first
      occurrence, each the description of the first control of that name
      with the generator "auto". */
  ghost predicate IsSchemaOf(r: seq<FieldSpec>, doc: Document, ns: seq<string>) {
    && |r| <= |doc.controls|
    && |ns| == |doc.controls|
    && (forall a, b | 0 <= a < b < |r| :: r[a].name != r[b].name)
    && (forall m | 0 <= m < |ns| :: exists j | 0 <= j < |r| :: r[j].name == ns[m])
    && (forall j | 0 <= j < |r| ::
          && r[j].name in ns
          && r[j] == Describe(doc, doc.controls[Sequences.FirstIndex(ns, r[j].name)], r[j].name).(generator := "auto"))
    && (forall a, b | 0 <= a < b < |r| ::
          r[a].name in ns && r[b].name in ns &&
          Sequences.FirstIndex(ns, r[a].name) < Sequences.FirstIndex(ns, r[b].name))
  }

  lemma Witness(at: seq<string>, n: string, r: seq<FieldSpec>)
    requires n in at && |r| == |at|
    requires forall j | 0 <= j < |r| :: r[j].name == at[j]
    ensures exists j | 0 <= j < |r| :: r[j].name == n
  {
    var j :| 0 <= j < |at| && at[j] == n;
    assert r[j].name == n;
  }

  /** The specs of a document whose controls are named `ns`. */
  function Schema(doc: Document, ns: seq<string>): (r: seq<FieldSpec>)
    requires |ns| == |doc.controls|
    ensures IsSchemaOf(r, doc, ns)
  {
    assert (set x | x in ns[..0]) == {};
    var firsts := Sequences.FirstOccurrences(ns, 0, {});
    var specs := seq(|firsts|, j requires 0 <= j < |firsts| => Describe(doc, doc.controls[firsts[j]], ns[firsts[j]]));
    var r := WithAuto(specs);
    InferFacts(doc, ns, firsts, r);
    r
  }

  lemma InferFacts(doc: Document, ns: seq<string>, firsts: seq<nat>, r: seq<FieldSpec>)
    requires |ns| == |doc.controls|
    requires forall j | 0 <= j < |firsts| :: firsts[j] < |ns| && ns[firsts[j]] !in ns[..firsts[j]]
    requires forall a, b | 0 <= a < b < |firsts| :: firsts[a] < firsts[b]
    requires forall m | 0 <= m < |ns| :: ns[m] in Sequences.At(ns, firsts)
    requires |r| == |firsts|
    requires forall j | 0 <= j < |firsts| :: r[j] == Describe(doc, doc.controls[firsts[j]], ns[firsts[j]]).(generator := "auto")
    ensures IsSchemaOf(r, doc, ns)
  {
    var at := Sequences.At(ns, firsts);
    Sequences.FirstOccurrencesFacts(ns, firsts);
    forall j | 0 <= j < |r|
      ensures r[j].name == at[j] && r[j].name in ns && Sequences.FirstIndex(ns, r[j].name) == firsts[j]
      ensures r[j] == Describe(doc, doc.controls[Sequences.FirstIndex(ns, r[j].name)], r[j].name).(generator := "auto")
    {
      assert r[j].name == ns[firsts[j]];
    }
    forall a, b | 0 <= a < b < |r|
      ensures r[a].name != r[b].name
    {
      assert at[a] != at[b];
    }
    forall m | 0 <= m < |ns|
      ensures exists j | 0 <= j < |r| :: r[j].name == ns[m]
    {
      Witness(at, ns[m], r);
    }
  }
}
