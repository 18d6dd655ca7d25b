/** The part of the DOM the feature reads: form controls in document order,
    with the attributes and properties the source consults, and the
    `<label>` elements of the document. Parsing HTML and running CSS
    selectors are not modelled; a query is a filter over these sequences. */
module Dom {
  import opened Wrappers
  import Strings
  import Sequences

  /** The elements matched by `input, select, textarea, button`. */
  datatype Tag = Input | Select | Textarea | Button {
    /** `tagName.toLowerCase()`. */
    function Name(): string {
      match this
      case Input => "input"
      case Select => "select"
      case Textarea => "textarea"
      case Button => "button"
    }
  }

  /** An `<option>` of a `<select>`: its `value` property and its text content. */
  datatype OptionElem = OptionElem(value: string, text: string)

  /** A form control. An absent attribute reads as "", which the source
      treats like an empty one (both are falsy).
      - `typeAttr`, `name`, `dataName`, `id`, `valueAttr`: the attributes
        `type`, `name`, `data-name`, `id` and `value`;
      - `value`, `checked`, `multiple`: the live properties;
      - `text`: the text content;
      - `options`: the `<option>` descendants of a `<select>`;
      - `parentLabel`: the text content of the parent element when that
        parent is a `<label>`. */
  datatype Element = Element(
    tag: Tag,
    typeAttr: string,
    name: string,
    dataName: string,
    id: string,
    value: string,
    valueAttr: string,
    checked: bool,
    multiple: bool,
    text: string,
    options: seq<OptionElem>,
    parentLabel: Option<string>)

  /** A `<label>` element: its `for` attribute and its text content. */
  datatype Label = Label(htmlFor: string, text: string)

  datatype Document = Document(controls: seq<Element>, labels: seq<Label>)

  /** Matches `input[type="checkbox"]`; HTML compares the `type` attribute
      without regard to ASCII case. */
  predicate IsCheckbox(e: Element) {
    e.tag == Input && Strings.Lower(e.typeAttr) == "checkbox"
  }

  /** Matches `input[type="radio"]`. */
  predicate IsRadio(e: Element) {
    e.tag == Input && Strings.Lower(e.typeAttr) == "radio"
  }

  /** How many elements of `g` are checked. */
  function CountChecked(g: seq<Element>): (n: nat)
    ensures n <= |g|
    ensures n == |g| <==> forall i | 0 <= i < |g| :: g[i].checked
    ensures n == 0 <==> forall i | 0 <= i < |g| :: !g[i].checked
    decreases |g|
  {
    if g == [] then 0 else (if g[0].checked then 1 else 0) + CountChecked(g[1..])
  }

  /** Which elements of `g` are checked. */
  function CheckedMask(g: seq<Element>): (m: seq<bool>)
    ensures |m| == |g|
    ensures forall i | 0 <= i < |g| :: m[i] == g[i].checked
  {
    seq(|g|, i requires 0 <= i < |g| => g[i].checked)
  }

  lemma {:induction false} CountCheckedFrom(g: seq<Element>, from: nat)
    requires from <= |g|
    ensures CountChecked(g[from..]) == |Sequences.Marked(CheckedMask(g), from)|
    decreases |g| - from
  {
    if from < |g| {
      CountCheckedFrom(g, from + 1);
      assert g[from..][1..] == g[from + 1..];
    }
  }

  /** The count is the number of checked positions. */
  lemma CountCheckedIsMarked(g: seq<Element>)
    ensures CountChecked(g) == |Sequences.Marked(CheckedMask(g), 0)|
  {
    CountCheckedFrom(g, 0);
    assert g[0..] == g;
  }
}
