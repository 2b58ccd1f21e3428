/**
 * The conversion of one raw cell value into the value stored in a row
 * record (server.js, lines 55-71).
 */
module CellNormaliser {
  import opened Wrappers
  import opened JsValues
  import Text

  /** The anchor element a hyperlink cell becomes; it opens in a new browsing context. */
  function Anchor(href: string, text: string): string {
    "<a href=\"" + href + "\" target=\"_blank\">" + text + "</a>"
  }

  /**
   * The value stored for a raw cell value `v`. A structured value is replaced
   * by the first that applies of: its hyperlink anchor, its concatenated
   * rich-text runs, a truthy formula result, its text, its serialisation;
   * then every falsy value becomes the empty string.
   */
  function Normalise(v: Value): (r: Value)
    ensures Truthy(r) || r == Str("")
    ensures !Truthy(v) ==> r == Str("")
    ensures Truthy(v) && !IsObject(v) ==> r == v
  {
    var picked :=
      match v
      case Obj(o) =>
        if o.hyperlink != "" && o.text != "" then Str(Anchor(o.hyperlink, o.text))
        else if o.richText.Some? then Str(Text.Join(o.richText.value, ""))
        else if Truthy(o.result) then o.result
        else if o.text != "" then Str(o.text)
        else Str(Json(v))
      case Date(_) => Str(Json(v))
      case _ => v;
    OrEmpty(picked)
  }

  /** The order in which the properties of a structured cell are consulted. */
  lemma NormalisePriority(o: CellObject)
    ensures o.hyperlink != "" && o.text != "" ==>
      Normalise(Obj(o)) == Str(Anchor(o.hyperlink, o.text))
    ensures !(o.hyperlink != "" && o.text != "") && o.richText.Some? ==>
      Normalise(Obj(o)) == Str(Text.Join(o.richText.value, ""))
    ensures !(o.hyperlink != "" && o.text != "") && o.richText.None? && Truthy(o.result) ==>
      Normalise(Obj(o)) == o.result
    ensures !(o.hyperlink != "" && o.text != "") && o.richText.None? && !Truthy(o.result) && o.text != "" ==>
      Normalise(Obj(o)) == Str(o.text)
    ensures !(o.hyperlink != "" && o.text != "") && o.richText.None? && !Truthy(o.result) && o.text == "" ==>
      Normalise(Obj(o)) == Str(Json(Obj(o)))
  {
  }

  /**
   * A falsy formula result (`0`, `false`, `""`) is never stored: the cell
   * falls through to its text or to its serialisation.
   */
  lemma FalsyResultFallsThrough(o: CellObject)
    requires o.hyperlink == "" || o.text == ""
    requires o.richText.None?
    requires !Truthy(o.result)
    ensures Normalise(Obj(o)) != o.result
    ensures Normalise(Obj(o)) == if o.text != "" then Str(o.text) else Str(Json(Obj(o)))
  {
  }

  /** The formula `=A1-A1`, whose result is 0, is stored as its serialisation, not as 0. */
  lemma ZeroResultIsSerialised()
    ensures var stored := Normalise(Obj(CellObject("", "", None, "A1-A1", Num(0), "")));
      stored.Str? && stored.s[0] == '{'
  {
  }

  /** A date is an object without the consulted properties, so it is stored as its quoted ISO form. */
  lemma NormaliseDate(iso: string)
    ensures Normalise(Date(iso)) == Str("\"" + iso + "\"")
  {
  }

  /**
   * A stored value is an object only when it is the truthy object result of a
   * formula cell that is neither a complete hyperlink nor rich text.
   */
  lemma {:induction false} StoredObjectComesFromResult(v: Value)
    requires IsObject(Normalise(v))
    ensures v.Obj? && Normalise(v) == v.cell.result
    ensures v.cell.richText.None? && (v.cell.hyperlink == "" || v.cell.text == "")
  {
  }

  /** Normalising a stored value that is not an object gives it back unchanged. */
  lemma NormaliseStable(v: Value)
    requires !IsObject(Normalise(v))
    ensures Normalise(Normalise(v)) == Normalise(v)
  {
  }
}
