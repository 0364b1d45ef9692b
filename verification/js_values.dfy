/**
 The few JavaScript value shapes the editor block passes around: a string
 that may also be `null` or `undefined`, and an optional value.
 */
module JsValues {

  /** A JavaScript value that is a string, `null` or `undefined`. */
  datatype JsString = Null | Undefined | Str(value: string)

  /** JavaScript truthiness: `null`, `undefined` and `""` are falsy. */
  predicate Falsy(v: JsString)
  {
    v.Null? || v.Undefined? || (v.Str? && v.value == "")
  }

  /**
   A value that may be absent: an attachment cell that holds no files, a
   write the debounce has not scheduled.
   */
  datatype Option<+T> = None | Some(value: T) {

    /** `x || default` for a cell read: what is there, else the fallback. */
    function GetOr(default: T): T
    {
      match this
      case Some(v) => v
      case None => default
    }
  }
}
