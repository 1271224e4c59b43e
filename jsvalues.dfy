/**
  The few JavaScript value semantics the build relies on when it reads a
  spreadsheet cell: truthiness (`if (row.definition)`) and template-literal
  interpolation (`${row.commenturl}`).
*/
module JsValues {

  /** A cell of a parsed spreadsheet row: a missing key (`undefined`), an explicit `null`, or a string. */
  datatype Field = Undefined | Null | Str(s: string)

  /** JavaScript truthiness of a cell: only a non-empty string is truthy. */
  predicate Truthy(f: Field) {
    f.Str? && f.s != ""
  }

  /** What `${f}` produces inside a template literal. */
  function Show(f: Field): string {
    match f
    case Undefined => "undefined"
    case Null => "null"
    case Str(s) => s
  }
}
