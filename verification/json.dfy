/** The parsed form metadata: a JSON-like tree addressed by position, with
    Python's indexing, iteration, truthiness and comparison rules on it. */
module Json {
  import opened Wrappers

  /** A value as `json.loads` returns it (objects and floats do not occur in the
      positions the program reads). */
  datatype J = JNull | JBool(b: bool) | JNum(n: int) | JStr(s: string) | JArr(items: seq<J>)

  /** How the pipeline can stop early.
      - Unsupported: the metadata gate refused the form (a `None` result in the program);
      - Malformed: indexing or iterating the tree raised IndexError or TypeError;
      - MissingKey: a descriptor lacked a key the renderer reads (KeyError);
      - BadOperand: any other TypeError (a non-string label, an unhashable type code,
        iterating a missing field list). */
  datatype Error = Unsupported | Malformed | MissingKey(key: string) | BadOperand

  /** Python truthiness of a value. */
  predicate Truthy(j: J) {
    match j
    case JNull => false
    case JBool(b) => b
    case JNum(n) => n != 0
    case JStr(s) => |s| > 0
    case JArr(xs) => |xs| > 0
  }

  /** Python's `j[i]` for a non-negative index: lists give their element,
      strings give a one-character string, everything else raises. */
  function At(j: J, i: nat): (r: Result<J, Error>)
    ensures r.Failure? ==> r.error == Malformed
  {
    match j
    case JArr(xs) => if i < |xs| then Success(xs[i]) else Failure(Malformed)
    case JStr(s) => if i < |s| then Success(JStr([s[i]])) else Failure(Malformed)
    case _ => Failure(Malformed)
  }

  /** What `for x in j` visits: list elements, or the characters of a string. */
  function Items(j: J): (r: Result<seq<J>, Error>)
    ensures r.Failure? ==> r.error == Malformed
  {
    match j
    case JArr(xs) => Success(xs)
    case JStr(s) => Success(seq(|s|, k requires 0 <= k < |s| => JStr([s[k]])))
    case _ => Failure(Malformed)
  }

  /** Python's `j == 1`; `True == 1` holds in Python. */
  predicate EqualsOne(j: J) {
    j == JNum(1) || j == JBool(true)
  }

  /** Python's `j > 1`: numbers and booleans compare, anything else raises. */
  function GreaterThanOne(j: J): (r: Result<bool, Error>)
    ensures r.Success? <==> j.JNum? || j.JBool?
    ensures r.Success? ==> (r.value <==> j.JNum? && j.n > 1)
    ensures r.Failure? ==> r.error == Malformed
  {
    match j
    case JNum(n) => Success(n > 1)
    case JBool(_) => Success(false)
    case _ => Failure(Malformed)
  }
}
