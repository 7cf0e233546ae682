/**
 * The dynamically typed values the grading functions receive.  The source
 * checks `typeof x === "string"` and `Array.isArray(x)` before using its
 * arguments; every other kind of value (numbers, objects, `null`,
 * `undefined`, ...) takes the same path, so one constructor stands for all
 * of them.
 */
module JsValues {

  datatype JsValue =
    | JsString(s: string)
    | JsArray(items: seq<JsValue>)
    | JsOther

  /** An array of strings, as produced by `String.prototype.split`. */
  function StringArray(strs: seq<string>): (v: JsValue)
    ensures v.JsArray? && |v.items| == |strs|
    ensures forall i :: 0 <= i < |strs| ==> v.items[i] == JsString(strs[i])
  {
    JsArray(Strings(strs))
  }

  function Strings(strs: seq<string>): (vs: seq<JsValue>)
    ensures |vs| == |strs|
    ensures forall i :: 0 <= i < |strs| ==> vs[i] == JsString(strs[i])
    decreases |strs|
  {
    if strs == [] then [] else [JsString(strs[0])] + Strings(strs[1..])
  }
}
