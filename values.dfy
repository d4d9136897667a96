/** Values that cross the boundary between the HTTP layer, the repositories and
    the MySQL driver: JavaScript values, thrown errors and HTTP responses. */
module Values {

  /** A JavaScript value as it appears in a request, a bound parameter or a row.
      Numbers are integers here: every number the modelled code computes or
      compares is an identifier, a count, a page or a limit. */
  datatype Value = Undefined | Null | Num(n: int) | Str(s: string) | Bool(b: bool)

  /** JavaScript `===` on these values: same type and same content. */
  predicate StrictEquals(a: Value, b: Value) {
    match (a, b)
    case (Undefined, Undefined) => true
    case (Null, Null) => true
    case (Num(x), Num(y)) => x == y
    case (Str(x), Str(y)) => x == y
    case (Bool(x), Bool(y)) => x == y
    case _ => false
  }

  /** JavaScript truthiness, as used by `cond ? a : b` and `if (!x)`. */
  predicate Truthy(v: Value) {
    match v
    case Undefined => false
    case Null => false
    case Num(n) => n != 0
    case Str(s) => s != ""
    case Bool(b) => b
  }

  lemma StrictEqualsIsIdentity(a: Value, b: Value)
    ensures StrictEquals(a, b) <==> a == b
  {
  }

  /** The driver call or statement that rejected. */
  datatype Step =
    | GetConnection
    | BeginTransaction
    | Execute(index: nat)
    | Commit
    | Rollback
    | PoolQuery

  /** What a rejected promise carries: a driver error naming the failed call,
      a JavaScript TypeError (a missing method, a property read on undefined,
      iteration over a non-iterable), or an error a transaction callback throws. */
  datatype Error =
    | DriverError(step: Step)
    | TypeError(reason: string)
    | Thrown(code: nat)

  datatype Result<T> = Ok(value: T) | Err(error: Error)

  datatype Option<T> = None | Some(value: T)

  /** The JSON body of a response: a payload, `{message}` or `{error}`. */
  datatype Body<T> = Payload(data: T) | Message(message: string) | ErrorMessage(error: string)

  datatype Response<T> = Response(status: nat, body: Body<T>)
}
