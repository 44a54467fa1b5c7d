/** JavaScript values as the button group sees them: what the caller passes in
    `options.buttons`, what a handler returns, what `context` holds.
    Functions are opaque (only their identity matters); objects are bags of
    own enumerable properties. */
module JsValues {

  datatype Option<T> = None | Some(value: T)

  datatype Value =
    | Undefined
    | Null
    | Bool(b: bool)
    | Num(n: int)
    | Str(s: string)
    | Func(id: nat)
    | Obj(props: map<string, Value>)

  /** JavaScript truthiness: `undefined`, `null`, `false`, `0` and `""` are falsy. */
  predicate Truthy(v: Value)
    ensures Truthy(v) <==> !(v == Undefined || v == Null || v == Bool(false) || v == Num(0) || v == Str(""))
  {
    match v
    case Undefined => false
    case Null => false
    case Bool(b) => b
    case Num(n) => n != 0
    case Str(s) => s != ""
    case Func(_) => true
    case Obj(_) => true
  }

  /** `o[name]` on an object, `undefined` when the property is absent. */
  function Prop(props: map<string, Value>, name: string): Value
  {
    if name in props then props[name] else Undefined
  }

  /** The property read `v.name` for values that can carry properties in this
      model (objects); every other value yields `undefined`. */
  function Member(v: Value, name: string): Value
  {
    if v.Obj? then Prop(v.props, name) else Undefined
  }

  /** The duck-typed thenable test `prom && _.isFunction(prom.promise)`. */
  predicate IsThenable(v: Value)
    ensures IsThenable(v) <==> v.Obj? && "promise" in v.props && v.props["promise"].Func?
  {
    Truthy(v) && Member(v, "promise").Func?
  }

  /** `_.result(prom, 'state')`: `undefined` for `null`/`undefined`, the
      property's value otherwise, and when that value is a function the value
      it returns when called on `prom`, which is supplied as `called`. */
  function ResultState(prom: Value, called: Value): (r: Value)
    ensures !prom.Obj? ==> r == Undefined
    ensures prom.Obj? && "state" !in prom.props ==> r == Undefined
    ensures prom.Obj? && "state" in prom.props && !prom.props["state"].Func? ==> r == prom.props["state"]
    ensures prom.Obj? && "state" in prom.props && prom.props["state"].Func? ==> r == called
  {
    var s := Member(prom, "state");
    if s.Func? then called else s
  }
}
