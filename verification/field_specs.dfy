/** The field specification that schema inference produces and row
    generation consumes, and the values and rows generation builds. */
module FieldSpecs {
  import opened Wrappers
  import OrderedMaps

  /** One detected form control. `kind` is the spec's `type` key and
      `labelText` its `label` key. A key the source leaves out is ""
      (strings), `[]` (options), `false` (multiple) or `None`
      (selectedCount, where the source tests `!= null`). */
  datatype FieldSpec = FieldSpec(
    name: string,
    kind: string,
    options: seq<string>,
    multiple: bool,
    selectedCount: Option<int>,
    labelText: string,
    generator: string,
    exampleName: string)

  /** The spec `{ name }` before any other key is set. */
  function Named(name: string): FieldSpec {
    FieldSpec(name, "", [], false, None, "", "", "")
  }

  /** The seven control types schema inference assigns. */
  const InferredKinds: set<string> := {"select", "textarea", "button", "checkbox", "radio", "number", "text"}

  /** A generated cell: a string, or a list for multiple selects and checkbox groups. */
  datatype Value = Str(text: string) | List(items: seq<string>)

  /** A generated row: field name to value, keys in insertion order. */
  type Row = OrderedMaps.OrderedMap<string, Value>
}
