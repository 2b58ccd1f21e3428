/**
 * The JavaScript values a spreadsheet cell can hold after the workbook has
 * been read, with the language's truthiness and string conversions.
 * Numbers are integers.
 */
module JsValues {
  import opened Wrappers
  import Text

  /**
   * A cell value. `Undefined` is a missing property, `Null` an empty cell;
   * `Date` and `Obj` are the values for which `typeof v === 'object'` holds.
   */
  datatype Value =
    | Undefined
    | Null
    | Str(s: string)
    | Num(n: int)
    | Bool(b: bool)
    | Date(iso: string)
    | Obj(cell: CellObject)

  /**
   * A structured cell value: a hyperlink (`hyperlink` and `text`), rich text
   * (`richText`, the text of each run), a formula (`formula` and `result`), or
   * an error (`error`). The empty string stands for an absent string property
   * and `None` for an absent `richText` array.
   */
  datatype CellObject = CellObject(
    hyperlink: string,
    text: string,
    richText: Option<seq<string>>,
    formula: string,
    result: Value,
    error: string)

  /** JavaScript truthiness: `undefined`, `null`, `""`, `0` and `false` are falsy. */
  predicate Truthy(v: Value) {
    match v
    case Undefined => false
    case Null => false
    case Str(s) => s != ""
    case Num(n) => n != 0
    case Bool(b) => b
    case Date(_) => true
    case Obj(_) => true
  }

  /** `typeof v === 'object'` for a value that is not `null`. */
  predicate IsObject(v: Value) {
    v.Date? || v.Obj?
  }

  /** `v || ''`: the result is never a falsy value other than the empty string, and is truthy exactly when `v` is. */
  function OrEmpty(v: Value): (r: Value)
    ensures Truthy(r) || r == Str("")
    ensures Truthy(r) <==> Truthy(v)
  {
    if Truthy(v) then v else Str("")
  }

  function DigitChar(d: nat): (c: char)
    requires d < 10
    ensures '0' <= c <= '9'
  {
    "0123456789"[d]
  }

  function NatDecimal(n: nat): (r: string)
    ensures |r| > 0
  {
    if n < 10 then [DigitChar(n)] else NatDecimal(n / 10) + [DigitChar(n % 10)]
  }

  /** The decimal form JavaScript gives an integral number. */
  function IntDecimal(n: int): (r: string)
    ensures |r| > 0
  {
    if n < 0 then "-" + NatDecimal(-n) else NatDecimal(n)
  }

  /**
   * `String(v)`. A date converts to its ISO form here; JavaScript's
   * `Date.prototype.toString` depends on the time zone.
   */
  function JsString(v: Value): string {
    match v
    case Undefined => "undefined"
    case Null => "null"
    case Str(s) => s
    case Num(n) => IntDecimal(n)
    case Bool(b) => if b then "true" else "false"
    case Date(iso) => iso
    case Obj(_) => "[object Object]"
  }

  function Quote(s: string): string {
    "\"" + s + "\""
  }

  /**
   * `JSON.stringify(v)`, simplified: the present properties of a structured
   * value in a fixed order, strings quoted without escaping. `undefined` only
   * arises as an omitted property and is written `null` here.
   */
  function Json(v: Value): (r: string)
    ensures |r| > 0
    ensures v.Obj? ==> r[0] == '{'
  {
    match v
    case Undefined => "null"
    case Null => "null"
    case Str(s) => Quote(s)
    case Num(n) => IntDecimal(n)
    case Bool(b) => if b then "true" else "false"
    case Date(iso) => Quote(iso)
    case Obj(o) =>
      var members :=
        (if o.formula != "" then [Quote("formula") + ":" + Quote(o.formula)] else []) +
        (if !o.result.Undefined? then [Quote("result") + ":" + Json(o.result)] else []) +
        (if o.text != "" then [Quote("text") + ":" + Quote(o.text)] else []) +
        (if o.hyperlink != "" then [Quote("hyperlink") + ":" + Quote(o.hyperlink)] else []) +
        (if o.richText.Some? then [Quote("richText") + ":" + RichTextJson(o.richText.value)] else []) +
        (if o.error != "" then [Quote("error") + ":" + Quote(o.error)] else []);
      "{" + Text.Join(members, ",") + "}"
  }

  function RichTextJson(runs: seq<string>): string {
    "[" + Text.Join(seq(|runs|, i requires 0 <= i < |runs| => "{" + Quote("text") + ":" + Quote(runs[i]) + "}"), ",") + "]"
  }
}
