/** The JavaScript values the admin forms hold in their id fields, the truthiness
    tests their save handlers make, and the request a save handler ends in. */
module FrontendForms {
  import opened Wrappers
  import opened Decimal

  /** A form field's value: `null` or `undefined`, a number, a string, or a `File`
      chosen in a file input (known here by its name). */
  datatype JsValue = Null | Undefined | Number(n: int) | Text(s: string) | File(name: string)

  /** JavaScript truthiness: `null`, `undefined`, `0` and `""` are falsy, every other
      number and string and every object is truthy. */
  predicate Truthy(v: JsValue) {
    match v
    case Null => false
    case Undefined => false
    case Number(n) => n != 0
    case Text(s) => s != ""
    case File(_) => true
  }

  /** `a || b`: the first operand when it is truthy, otherwise the second. */
  function Or(a: JsValue, b: JsValue): (r: JsValue)
    ensures Truthy(a) ==> r == a
    ensures !Truthy(a) ==> r == b
    ensures Truthy(r) <==> Truthy(a) || Truthy(b)
  {
    if Truthy(a) then a else b
  }

  /** `n == v` for a number `n`: a string is compared by its numeric value, where the
      empty string counts as `0`; `null`, `undefined` and objects are never equal to a
      number. Only plain digit strings are read as numbers. */
  predicate LooseEqualsNumber(n: int, v: JsValue) {
    match v
    case Number(m) => n == m
    case Text(s) => (s == "" && n == 0) || (s != "" && AllDigits(s) && DecimalValue(s) == n)
    case _ => false
  }

  /** Where a save handler's request goes, if it gets that far. */
  datatype Request<P> =
    | Refused(alert: string)      // a guard failed: an alert and no request
    | UploadFailed(alert: string) // an upload threw before the request was made
    | Post(payload: P)
    | Put(id: int, payload: P)

  /** `if (editId)`: a PUT to the edited item when an id is set (and not `0`), a POST
      otherwise. */
  function Target<P>(editId: Option<int>, payload: P): (r: Request<P>)
    ensures r.Put? <==> editId.Some? && editId.value != 0
    ensures r.Post? <==> !r.Put?
    ensures r.Put? ==> r.id == editId.value
    ensures r.payload == payload
  {
    if editId.Some? && editId.value != 0 then Put(editId.value, payload) else Post(payload)
  }
}
