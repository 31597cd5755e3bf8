/** Rows as the engine builds them: Python dicts from column names to
    cells. `row[k] = v` is `r[k := v]`, `row.update(other)` is `r + other`
    (the right operand wins), `row.get(k)` is a lookup that may miss. */
module Rows {
  import opened Xml

  /** A cell: `None`, a string, an lxml element stored as-is, or a list of
      cells when collections are allowed. */
  datatype Value = VNone | VText(text: string) | VNode(node: Element) | VList(items: seq<Value>)

  type Row = map<string, Value>
}
