/** A parsed CSV row as the dashboard sees it: a map from header to cell
    value, where a header missing from the map reads as JavaScript
    `undefined`. The cell values modelled are those the parser's dynamic
    typing yields for plain CSV text: numbers (with the text `String(n)`
    gives for them), booleans, strings and `null` for an empty cell. */
module Cells {

  import opened Wrappers

  datatype Value =
    | Num(n: real, text: string)
    | Bool(b: bool)
    | Str(s: string)
    | Null

  type Row = map<string, Value>

  /** `row[key]`: `None` stands for `undefined`. */
  function Get(row: Row, key: string): Option<Value> {
    if key in row then Some(row[key]) else None
  }

  /** `String(v)`. */
  function Text(v: Option<Value>): string {
    match v
    case None => "undefined"
    case Some(Num(_, t)) => t
    case Some(Bool(b)) => if b then "true" else "false"
    case Some(Str(s)) => s
    case Some(Null) => "null"
  }

  /** How `Array.prototype.join` renders an element: `undefined` and `null`
      become the empty string, everything else its `String` form. */
  function JoinText(v: Option<Value>): string {
    if v.None? || v == Some(Null) then "" else Text(v)
  }

  /** The characters `Number` trims: JavaScript's white space (tab,
      vertical tab, form feed, space, no-break space, the byte order mark
      and the other space separators of Unicode category Zs) and its line
      terminators. */
  predicate IsSpace(c: char) {
    || c == '\t' || c == '\U{000B}' || c == '\U{000C}' || c == ' ' || c == '\U{00A0}' || c == '\U{FEFF}'
    || c == '\U{1680}' || ('\U{2000}' <= c <= '\U{200A}') || c == '\U{202F}' || c == '\U{205F}' || c == '\U{3000}'
    || c == '\n' || c == '\r' || c == '\U{2028}' || c == '\U{2029}'
  }

  predicate IsBlank(s: string) {
    forall i :: 0 <= i < |s| ==> IsSpace(s[i])
  }

  /** `Number(v)`, with `None` for NaN: `null`, `false` and blank strings
      give 0, `true` gives 1, `undefined` and other strings give NaN. */
  function NumberOf(v: Option<Value>): (r: Option<real>)
    ensures v.Some? && v.value.Num? ==> r == Some(v.value.n)
    ensures v.None? ==> r.None?
    ensures v == Some(Null) ==> r == Some(0.0)
    ensures v.Some? && v.value.Bool? ==> r == Some(if v.value.b then 1.0 else 0.0)
    ensures v.Some? && v.value.Str? ==> (r.Some? <==> IsBlank(v.value.s)) && (r.Some? ==> r == Some(0.0))
  {
    match v
    case None => None
    case Some(Num(n, _)) => Some(n)
    case Some(Bool(b)) => Some(if b then 1.0 else 0.0)
    case Some(Str(s)) => if IsBlank(s) then Some(0.0) else None
    case Some(Null) => Some(0.0)
  }

  /** `typeof v === 'number'`. */
  predicate IsNumber(v: Option<Value>) {
    v.Some? && v.value.Num?
  }
}
