/** The checkbox page object: a summary of the checkbox groups of a
    document, and filling a group from a generated row. */
module CheckboxPage {
  import opened Wrappers
  import Strings
  import Sequences
  import opened Dom
  import CheckboxData

  /** The checkboxes of the document, in document order. */
  function Checkboxes(controls: seq<Element>): (bs: seq<Element>)
    ensures |bs| <= |controls|
    ensures forall i | 0 <= i < |bs| :: IsCheckbox(bs[i]) && bs[i] in controls
    ensures forall i | 0 <= i < |controls| && IsCheckbox(controls[i]) :: controls[i] in bs
    ensures bs == [] <==> forall i | 0 <= i < |controls| :: !IsCheckbox(controls[i])
    decreases |controls|
  {
    if controls == [] then []
    else
      var rest := Checkboxes(controls[1..]);
      if IsCheckbox(controls[0]) then [controls[0]] + rest else rest
  }

  /** Which controls are checkboxes. */
  function CheckboxMask(controls: seq<Element>): (m: seq<bool>)
    ensures |m| == |controls|
    ensures forall i | 0 <= i < |controls| :: m[i] == IsCheckbox(controls[i])
  {
    seq(|controls|, i requires 0 <= i < |controls| => IsCheckbox(controls[i]))
  }

  lemma {:induction false} CheckboxesFrom(controls: seq<Element>, from: nat)
    requires from <= |controls|
    ensures Checkboxes(controls[from..]) == Sequences.At(controls, Sequences.Marked(CheckboxMask(controls), from))
    decreases |controls| - from
  {
    if from < |controls| {
      CheckboxesFrom(controls, from + 1);
      assert controls[from..][1..] == controls[from + 1..];
      if IsCheckbox(controls[from]) {
        Sequences.AtCons(controls, from, Sequences.Marked(CheckboxMask(controls), from + 1));
      }
    }
  }

  /** The checkboxes are the controls at exactly the checkbox positions, in
      increasing order. */
  lemma CheckboxesInOrder(controls: seq<Element>)
    ensures Checkboxes(controls) == Sequences.At(controls, Sequences.Marked(CheckboxMask(controls), 0))
  {
    CheckboxesFrom(controls, 0);
    assert controls[0..] == controls;
  }

  /** The group a checkbox belongs to: its name, else its `data-name`, else
      "checkbox". */
  function GroupKey(e: Element): (key: string)
    ensures key != ""
    ensures e.name != "" ==> key == e.name
    ensures e.name == "" && e.dataName != "" ==> key == e.dataName
    ensures e.name == "" && e.dataName == "" ==> key == "checkbox"
  {
    Strings.OrDefault(Strings.OrDefault(e.name, e.dataName), "checkbox")
  }

  function GroupKeys(bs: seq<Element>): (ks: seq<string>)
    ensures |ks| == |bs|
    ensures forall i | 0 <= i < |bs| :: ks[i] == GroupKey(bs[i])
  {
    seq(|bs|, i requires 0 <= i < |bs| => GroupKey(bs[i]))
  }

  /** The first `<label>` whose `for` attribute is `id`, as `querySelector` finds it. */
  function LabelFor(labels: seq<Label>, id: string): (r: Option<Label>)
    ensures r.Some? ==> r.value in labels && r.value.htmlFor == id
    ensures r.None? <==> forall i | 0 <= i < |labels| :: labels[i].htmlFor != id
    decreases |labels|
  {
    if labels == [] then None
    else if labels[0].htmlFor == id then Some(labels[0])
    else LabelFor(labels[1..], id)
  }

  /** No label before the one found has that `for`. */
  lemma {:induction false} LabelForFirst(labels: seq<Label>, id: string)
    requires LabelFor(labels, id).Some?
    ensures exists i | 0 <= i < |labels| :: labels[i] == LabelFor(labels, id).value && forall j | 0 <= j < i :: labels[j].htmlFor != id
    decreases |labels|
  {
    if labels[0].htmlFor != id {
      LabelForFirst(labels[1..], id);
      var i :| 0 <= i < |labels| - 1 && labels[1..][i] == LabelFor(labels, id).value && forall j | 0 <= j < i :: labels[1..][j].htmlFor != id;
      assert labels[i + 1] == LabelFor(labels, id).value;
      forall j | 0 <= j < i + 1
        ensures labels[j].htmlFor != id
      {
        if j > 0 {
          assert labels[j] == labels[1..][j - 1];
        }
      }
    } else {
      assert labels[0] == LabelFor(labels, id).value;
    }
  }

  /** `_findLabelText(el)`: the trimmed text of the label whose `for` is the
      element's id, when it has an id and there is one; else the trimmed
      text of an enclosing parent `<label>`; else nothing. */
  function FindLabelText(labels: seq<Label>, e: Element): (r: Option<string>)
    ensures e.id != "" && LabelFor(labels, e.id).Some? ==> r == Some(Strings.Trim(LabelFor(labels, e.id).value.text))
    ensures (e.id == "" || LabelFor(labels, e.id).None?) && e.parentLabel.Some? ==> r == Some(Strings.Trim(e.parentLabel.value))
    ensures r.None? <==> (e.id == "" || forall i | 0 <= i < |labels| :: labels[i].htmlFor != e.id) && e.parentLabel.None?
  {
    var byFor := if e.id != "" then LabelFor(labels, e.id) else None;
    if byFor.Some? then Some(Strings.Trim(byFor.value.text))
    else if e.parentLabel.Some? then Some(Strings.Trim(e.parentLabel.value))
    else None
  }

  /** The label shown for a checkbox: its label text, else its value, else
      its id, else "". */
  function LabelOf(labels: seq<Label>, e: Element): (l: string)
    ensures FindLabelText(labels, e).GetOr("") != "" ==> l == FindLabelText(labels, e).value
    ensures FindLabelText(labels, e).GetOr("") == "" && e.value != "" ==> l == e.value
    ensures FindLabelText(labels, e).GetOr("") == "" && e.value == "" ==> l == e.id
  {
    Strings.OrDefault(Strings.OrDefault(FindLabelText(labels, e).GetOr(""), e.value), e.id)
  }

  /** One entry of `inspect()`. */
  datatype GroupSummary = GroupSummary(name: string, inspectedCount: nat, selectedCount: nat, labels: seq<string>)

  /** The checkboxes of the group `key`, in document order. */
  function Members(bs: seq<Element>, key: string): (g: seq<Element>)
    ensures |g| <= |bs|
    ensures forall i | 0 <= i < |g| :: GroupKey(g[i]) == key && g[i] in bs
    ensures forall i | 0 <= i < |bs| && GroupKey(bs[i]) == key :: bs[i] in g
    decreases |bs|
  {
    if bs == [] then []
    else
      var rest := Members(bs[1..], key);
      if GroupKey(bs[0]) == key then [bs[0]] + rest else rest
  }

  /** Which checkboxes belong to the group `key`. */
  function MemberMask(bs: seq<Element>, key: string): (m: seq<bool>)
    ensures |m| == |bs|
    ensures forall i | 0 <= i < |bs| :: m[i] == (GroupKey(bs[i]) == key)
  {
    seq(|bs|, i requires 0 <= i < |bs| => GroupKey(bs[i]) == key)
  }

  lemma {:induction false} MembersFrom(bs: seq<Element>, key: string, from: nat)
    requires from <= |bs|
    ensures Members(bs[from..], key) == Sequences.At(bs, Sequences.Marked(MemberMask(bs, key), from))
    decreases |bs| - from
  {
    if from < |bs| {
      MembersFrom(bs, key, from + 1);
      assert bs[from..][1..] == bs[from + 1..];
      if GroupKey(bs[from]) == key {
        Sequences.AtCons(bs, from, Sequences.Marked(MemberMask(bs, key), from + 1));
      }
    }
  }

  /** The members of a group are the checkboxes at exactly the positions
      whose group key is `key`, in increasing order. */
  lemma MembersInOrder(bs: seq<Element>, key: string)
    ensures Members(bs, key) == Sequences.At(bs, Sequences.Marked(MemberMask(bs, key), 0))
  {
    MembersFrom(bs, key, 0);
    assert bs[0..] == bs;
  }

  function Summary(labels: seq<Label>, bs: seq<Element>, key: string): GroupSummary {
    var g := Members(bs, key);
    GroupSummary(key, |g|, CountChecked(g), seq(|g|, i requires 0 <= i < |g| => LabelOf(labels, g[i])))
  }

  /** `inspect()`: one summary per group key, in order of the key's first
      checkbox. The source fills a `Map` in document order and reads it back
      in insertion order; here the first occurrences are found first. */
  function Inspect(doc: Document): (r: seq<GroupSummary>)
    ensures r == [] <==> Checkboxes(doc.controls) == []
    ensures IsInspection(r, doc)
  {
    var bs := Checkboxes(doc.controls);
    if bs == [] then []
    else
      var ks := GroupKeys(bs);
      var firsts := FirstKeys(ks);
      var r := Summaries(doc.labels, bs, ks, firsts);
      InspectFacts(doc, bs, ks, firsts, r);
      r
  }

  /** The positions where a key occurs for the first time, in order. */
  function FirstKeys(ks: seq<string>): (firsts: seq<nat>)
    ensures forall j | 0 <= j < |firsts| :: firsts[j] < |ks| && ks[firsts[j]] !in ks[..firsts[j]]
    ensures forall a, b | 0 <= a < b < |firsts| :: firsts[a] < firsts[b]
    ensures forall m | 0 <= m < |ks| :: ks[m] in Sequences.At(ks, firsts)
  {
    assert (set x | x in ks[..0]) == {};
    var firsts := Sequences.FirstOccurrences(ks, 0, {});
    Sequences.FirstOccurrencesFacts(ks, firsts);
    firsts
  }

  /** One summary per first position, of the group keyed there. */
  function Summaries(labels: seq<Label>, bs: seq<Element>, ks: seq<string>, firsts: seq<nat>): (r: seq<GroupSummary>)
    requires forall j | 0 <= j < |firsts| :: firsts[j] < |ks|
    ensures |r| == |firsts|
    ensures forall j | 0 <= j < |r| :: r[j] == Summary(labels, bs, ks[firsts[j]])
  {
    seq(|firsts|, j requires 0 <= j < |firsts| => Summary(labels, bs, ks[firsts[j]]))
  }

  /** What `inspect()` promises: distinct group names covering every
      checkbox's key, in order of first appearance; per group the number of
      its checkboxes, how many of them are checked, and a label each. */
  ghost predicate IsInspection(r: seq<GroupSummary>, doc: Document) {
    var bs := Checkboxes(doc.controls);
    var ks := GroupKeys(bs);
    var ns := Names(r);
    && Sequences.Distinct(ns)
    && (forall i | 0 <= i < |bs| :: GroupKey(bs[i]) in ns)
    && (forall j | 0 <= j < |ns| :: ns[j] in ks)
    && (forall a, b | 0 <= a < b < |ns| :: Sequences.FirstIndex(ks, ns[a]) < Sequences.FirstIndex(ks, ns[b]))
    && (forall j | 0 <= j < |r| :: r[j] == Summary(doc.labels, bs, ns[j]))
  }

  lemma InspectFacts(doc: Document, bs: seq<Element>, ks: seq<string>, firsts: seq<nat>, r: seq<GroupSummary>)
    requires bs == Checkboxes(doc.controls) && ks == GroupKeys(bs)
    requires forall j | 0 <= j < |firsts| :: firsts[j] < |ks| && ks[firsts[j]] !in ks[..firsts[j]]
    requires forall a, b | 0 <= a < b < |firsts| :: firsts[a] < firsts[b]
    requires forall m | 0 <= m < |ks| :: ks[m] in Sequences.At(ks, firsts)
    requires |r| == |firsts|
    requires forall j | 0 <= j < |r| :: r[j] == Summary(doc.labels, bs, ks[firsts[j]])
    ensures IsInspection(r, doc)
    ensures bs != [] ==> r != []
  {
    if bs != [] {
      assert ks[0] in Sequences.At(ks, firsts);
    }
    var ns := Names(r);
    assert ns == Sequences.At(ks, firsts);
    NameFacts(ks, firsts);
    forall i | 0 <= i < |bs|
      ensures GroupKey(bs[i]) in ns
    {
      assert ks[i] == GroupKey(bs[i]);
    }
  }

  /** The keys at their first occurrences are distinct, in order of first
      occurrence, and found where they first occur. */
  lemma NameFacts(ks: seq<string>, firsts: seq<nat>)
    requires forall j | 0 <= j < |firsts| :: firsts[j] < |ks| && ks[firsts[j]] !in ks[..firsts[j]]
    requires forall a, b | 0 <= a < b < |firsts| :: firsts[a] < firsts[b]
    ensures var ns := Sequences.At(ks, firsts);
      && Sequences.Distinct(ns)
      && (forall j | 0 <= j < |ns| :: ns[j] in ks)
      && (forall a, b | 0 <= a < b < |ns| :: Sequences.FirstIndex(ks, ns[a]) < Sequences.FirstIndex(ks, ns[b]))
  {
    var ns := Sequences.At(ks, firsts);
    Sequences.FirstOccurrencesFacts(ks, firsts);
    forall j | 0 <= j < |ns|
      ensures ns[j] in ks && Sequences.FirstIndex(ks, ns[j]) == firsts[j]
    {
    }
  }

  /** Each group has at least one checkbox and no more checked ones than it has. */
  lemma InspectCounts(doc: Document)
    ensures forall j | 0 <= j < |Inspect(doc)| ::
      1 <= Inspect(doc)[j].inspectedCount && Inspect(doc)[j].selectedCount <= Inspect(doc)[j].inspectedCount
      && |Inspect(doc)[j].labels| == Inspect(doc)[j].inspectedCount
  {
    var r := Inspect(doc);
    var bs := Checkboxes(doc.controls);
    var ks := GroupKeys(bs);
    forall j | 0 <= j < |r|
      ensures 1 <= r[j].inspectedCount
    {
      var i := Sequences.FirstIndex(ks, r[j].name);
      assert GroupKey(bs[i]) == r[j].name;
      assert bs[i] in Members(bs, r[j].name);
    }
  }

  /** Every checkbox is counted in exactly one group: the counts add up to
      the number of checkboxes. */
  lemma InspectTotal(doc: Document)
    ensures TotalCount(Inspect(doc)) == |Checkboxes(doc.controls)|
  {
    var r := Inspect(doc);
    var bs := Checkboxes(doc.controls);
    forall j | 0 <= j < |r|
      ensures r[j].inspectedCount == |Members(bs, Names(r)[j])|
    {
      assert r[j] == Summary(doc.labels, bs, Names(r)[j]);
    }
    GroupsTotal(r, bs);
  }

  lemma GroupsTotal(r: seq<GroupSummary>, bs: seq<Element>)
    requires Sequences.Distinct(Names(r))
    requires forall i | 0 <= i < |bs| :: GroupKey(bs[i]) in Names(r)
    requires forall j | 0 <= j < |r| :: r[j].inspectedCount == |Members(bs, Names(r)[j])|
    ensures TotalCount(r) == |bs|
  {
    SumMembers(bs, Names(r));
    TotalIsSum(r, bs);
  }

  function Names(r: seq<GroupSummary>): (ns: seq<string>)
    ensures |ns| == |r|
    ensures forall j | 0 <= j < |r| :: ns[j] == r[j].name
  {
    seq(|r|, j requires 0 <= j < |r| => r[j].name)
  }

  /** The sum of the groups' `inspectedCount`. */
  function TotalCount(r: seq<GroupSummary>): nat
    decreases |r|
  {
    if r == [] then 0 else r[0].inspectedCount + TotalCount(r[1..])
  }

  /** The sizes of the groups of `keys`, added up. */
  function MemberTotal(bs: seq<Element>, keys: seq<string>): nat
    decreases |keys|
  {
    if keys == [] then 0 else |Members(bs, keys[0])| + MemberTotal(bs, keys[1..])
  }

  lemma {:induction false} TotalIsSum(r: seq<GroupSummary>, bs: seq<Element>)
    requires forall j | 0 <= j < |r| :: r[j].inspectedCount == |Members(bs, r[j].name)|
    ensures TotalCount(r) == MemberTotal(bs, Names(r))
    decreases |r|
  {
    if r != [] {
      TotalIsSum(r[1..], bs);
      assert Names(r)[1..] == Names(r[1..]);
    }
  }

  /** Splitting the groups of distinct keys that cover every checkbox
      accounts for each checkbox once. */
  lemma {:induction false} SumMembers(bs: seq<Element>, keys: seq<string>)
    requires Sequences.Distinct(keys)
    requires forall i | 0 <= i < |bs| :: GroupKey(bs[i]) in keys
    ensures MemberTotal(bs, keys) == |bs|
    decreases |bs|
  {
    if bs != [] {
      assert forall i | 0 <= i < |bs| - 1 :: bs[1..][i] == bs[i + 1];
      SumMembers(bs[1..], keys);
      MemberTotalCons(bs, keys);
      HitsOnce(GroupKey(bs[0]), keys);
    } else {
      MemberTotalEmpty(keys);
    }
  }

  /** How many of `keys` equal `key`. */
  function Hits(key: string, keys: seq<string>): nat
    decreases |keys|
  {
    if keys == [] then 0 else (if keys[0] == key then 1 else 0) + Hits(key, keys[1..])
  }

  lemma {:induction false} HitsOnce(key: string, keys: seq<string>)
    requires Sequences.Distinct(keys) && key in keys
    ensures Hits(key, keys) == 1
    decreases |keys|
  {
    if keys[0] == key {
      HitsNone(key, keys[1..]);
    } else {
      HitsOnce(key, keys[1..]);
    }
  }

  lemma {:induction false} HitsNone(key: string, keys: seq<string>)
    requires key !in keys
    ensures Hits(key, keys) == 0
    decreases |keys|
  {
    if keys != [] {
      HitsNone(key, keys[1..]);
    }
  }

  lemma {:induction false} MemberTotalEmpty(keys: seq<string>)
    ensures MemberTotal([], keys) == 0
    decreases |keys|
  {
    if keys != [] {
      MemberTotalEmpty(keys[1..]);
    }
  }

  lemma {:induction false} MemberTotalCons(bs: seq<Element>, keys: seq<string>)
    requires bs != []
    ensures MemberTotal(bs, keys) == Hits(GroupKey(bs[0]), keys) + MemberTotal(bs[1..], keys)
    decreases |keys|
  {
    if keys != [] {
      MemberTotalCons(bs, keys[1..]);
    }
  }

  /** The checkboxes `applyRow` touches: those whose name is the row's field name. */
  predicate Targeted(e: Element, name: string) {
    IsCheckbox(e) && e.name == name
  }

  /** The value `applyRow` compares: the value, else the value attribute, else "". */
  function NodeValue(e: Element): string {
    Strings.OrDefault(e.value, e.valueAttr)
  }

  function SetChecked(e: Element, row: CheckboxData.CheckboxRow): Element {
    if Targeted(e, row.fieldName) then e.(checked := NodeValue(e) in row.selected) else e
  }

  /** `applyRow(row)`: false and no change when no checkbox has the row's
      name; otherwise true, and each such checkbox is checked exactly when
      its value is selected. */
  function ApplyRow(doc: Document, row: CheckboxData.CheckboxRow): (r: (bool, Document))
    ensures r.0 <==> exists i | 0 <= i < |doc.controls| :: Targeted(doc.controls[i], row.fieldName)
    ensures !r.0 ==> r.1 == doc
    ensures r.1.labels == doc.labels && |r.1.controls| == |doc.controls|
    ensures forall i | 0 <= i < |doc.controls| && Targeted(doc.controls[i], row.fieldName) ::
      r.1.controls[i] == doc.controls[i].(checked := NodeValue(doc.controls[i]) in row.selected)
    ensures forall i | 0 <= i < |doc.controls| && !Targeted(doc.controls[i], row.fieldName) ::
      r.1.controls[i] == doc.controls[i]
  {
    if forall i | 0 <= i < |doc.controls| :: !Targeted(doc.controls[i], row.fieldName) then (false, doc)
    else
      var cs := seq(|doc.controls|, i requires 0 <= i < |doc.controls| => SetChecked(doc.controls[i], row));
      (true, doc.(controls := cs))
  }

  /** Applying the same row twice is applying it once. */
  lemma ApplyRowIdempotent(doc: Document, row: CheckboxData.CheckboxRow)
    ensures ApplyRow(ApplyRow(doc, row).1, row) == ApplyRow(doc, row)
  {
    var once := ApplyRow(doc, row);
    var twice := ApplyRow(once.1, row);
    forall i | 0 <= i < |doc.controls|
      ensures Targeted(once.1.controls[i], row.fieldName) <==> Targeted(doc.controls[i], row.fieldName)
      ensures twice.1.controls[i] == once.1.controls[i]
    {
    }
    if once.0 {
      var i :| 0 <= i < |doc.controls| && Targeted(doc.controls[i], row.fieldName);
      assert Targeted(once.1.controls[i], row.fieldName);
      assert twice.1.controls == once.1.controls;
      assert twice.1 == once.1;
    }
  }
}
