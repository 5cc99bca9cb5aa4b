/**
 * The JavaScript values that `JSON.parse` can produce, and the two things the
 * mention code asks of such a value: JavaScript truthiness and the result of
 * reading its `empId` property. `JSON.parse` itself is a builtin that is not
 * modelled; callers receive it as a function `string -> Option<Json>` whose
 * `None` stands for a thrown `SyntaxError`.
 */
module Json {
  import opened Wrappers

  datatype Json =
    | Null
    | Bool(b: bool)
    | Number(n: real)          // the double JSON.parse produced, after rounding
    | Str(text: string)
    | Array(elems: seq<Json>)
    | Object(fields: map<string, Json>)

  /** What reading `v.empId` does in JavaScript. */
  datatype Property = Throws | Undefined | Defined(value: Json)

  /** `v.empId`: an own field of an object; `undefined` on strings, numbers, booleans and arrays; a `TypeError` on `null`. */
  function EmpIdOf(v: Json): (p: Property)
    ensures p.Defined? <==> v.Object? && "empId" in v.fields
    ensures p.Throws? <==> v.Null?
  {
    match v
    case Null => Throws
    case Object(fields) => if "empId" in fields then Defined(fields["empId"]) else Undefined
    case _ => Undefined
  }

  /** JavaScript truthiness: `false`, `0`, `""`, `null` and `undefined` are falsy. */
  predicate IsTruthy(v: Json) {
    match v
    case Null => false
    case Bool(b) => b
    case Number(n) => n != 0.0
    case Str(t) => t != []
    case Array(_) => true
    case Object(_) => true
  }

  /** `!!v.empId` for a value whose read did not throw. */
  predicate HasTruthyEmpId(v: Json) {
    EmpIdOf(v).Defined? && IsTruthy(EmpIdOf(v).value)
  }
}
