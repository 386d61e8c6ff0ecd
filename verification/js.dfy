/**
 JavaScript value conventions the handlers rely on: an optional value stands for a
 property that may be `undefined`, and a template literal renders `undefined` as the
 text "undefined".
 */
module Js {

  /** A value that may be absent (`undefined` or `null` in the handlers' code). */
  datatype Option<+T> = None | Some(value: T) {

    /** The value, or `default` when absent (the `??` operator). */
    function GetOr(default: T): (v: T) {
      match this
      case Some(v) => v
      case None => default
    }
  }

  /** How `${x}` renders an optional string inside a template literal. */
  function Render(x: Option<string>): (r: string)
    ensures x.Some? ==> r == x.value
    ensures x.None? ==> r == "undefined"
  {
    x.GetOr("undefined")
  }

  /** `x || ""` on an optional string: absent and empty both become "". */
  function OrEmpty(x: Option<string>): (r: string)
    ensures r == "" <==> (x.None? || x.value == "")
    ensures r != "" ==> x == Some(r)
  {
    x.GetOr("")
  }

  /** A thrown value: `isError` is `value instanceof Error`; `name` and `message`
      are its `name` and `message` properties, when it has them. */
  datatype Thrown = Thrown(isError: bool, name: Option<string>, message: Option<string>)
}
