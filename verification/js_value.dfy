/** The host values the bridge hands out handles for, as a closed datatype.
    Host library behaviour that the bridge only calls (number-to-text,
    `JSON.stringify`) is supplied by the caller where it is needed. */
module JsValue {
  import opened Wrappers
  import opened Numeric

  /** A host string: UTF-16 code units, lone surrogates allowed. */
  type JsString = seq<Unit>

  datatype Value =
    | Undefined
    | Null
    | Bool(b: bool)
    | Number(x: real)
    | Str(units: JsString)
      /** `description` is `None` when the symbol has none. */
    | Symbol(description: Option<JsString>)
      /** `name` is `None` when the function's `name` is not a string;
          `original` is the callback record a wrapped guest closure
          carries (`real.original`), `None` for any other function. */
    | Function(name: Option<JsString>, original: Option<nat>)
    | Array(elems: seq<Value>)
      /** Any other object. `className` is the tag `Object.prototype.toString`
          reports for it ("Object" for a plain object); `id` names it for the
          host library. */
    | Object(className: JsString, id: nat)
    | Error(errorName: JsString, message: JsString, stack: JsString)

  /** `isLikeNone`: the values the guest sees as "no value". */
  predicate IsLikeNone(v: Value) {
    v.Undefined? || v.Null?
  }

  /** An ASCII literal as a host string. */
  function Lit(s: string): (r: JsString)
    ensures |r| == |s|
    ensures forall i :: 0 <= i < |s| && s[i] as int < 0x1_0000 ==> r[i] == s[i] as int
  {
    seq(|s|, i requires 0 <= i < |s| => if s[i] as int < 0x1_0000 then s[i] as int else 0xFFFD)
  }
}
