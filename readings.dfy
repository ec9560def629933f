/** One row of the dashboard's data source, as the browser receives it. */
module Readings {
  import opened Wrappers

  /** A field of a JSON row as JavaScript sees it: missing (`undefined`),
      `null`, or a value, known by its text (`String(x)`) and by its
      numeric reading (`Number(x)`, `None` when that is `NaN`). How a
      string turns into a number is not modelled: the two views are given. */
  datatype JsValue = Undefined | Null | Value(text: string, number: Option<real>)

  /** A reading: the row's date `fecha` (`dd/mm/yyyy`) and time `hora`
      (`hh:mm`), each `None` when missing or `null`, then the heart rate
      `fc`, the oxygen saturation `spo2` and the fetal movement count
      `patadas`. */
  datatype Reading = Reading(fecha: Option<string>, hora: Option<string>,
                             fc: JsValue, spo2: JsValue, patadas: JsValue)

  /** `Number(v)`: `null` reads as 0, a missing field as `NaN` (`None`). */
  function ToNumber(v: JsValue): (n: Option<real>)
    ensures v == Null ==> n == Some(0.0)
    ensures v == Undefined ==> n.None?
    ensures v.Value? ==> n == v.number
  {
    match v
    case Undefined => None
    case Null => Some(0.0)
    case Value(_, n) => n
  }

  /** `s || ''` for a text field: a missing or empty text gives "". */
  function OrEmpty(s: Option<string>): string
  {
    match s
    case None => ""
    case Some(t) => t
  }

  /** `v ?? ''`: the text of a value, or "" when it is `null` or missing. */
  function TextOrEmpty(v: JsValue): string
  {
    match v
    case Value(t, _) => t
    case _ => ""
  }
}
