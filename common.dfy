/** Small value types shared by every module of the model. */
module Common {

  /** Document ids (MongoDB ObjectIds, compared through their string form). */
  type Id = string

  /** A nullable or optional value: `null` and `undefined` are both `None`. */
  datatype Option<+T> = None | Some(value: T)

  /** The outcome of a resolver that can reject (throw) instead of returning. */
  datatype Result<+T, +E> = Ok(value: T) | Err(error: E)

  /** Why a resolver rejected. */
  datatype Failure =
    | DuplicateKey   // the store refused a write that breaks a unique index
    | MissingHash    // bcrypt's compare was handed a stored user without a password

  /**
   * The numeric `version` column. In JavaScript, `undefined + 1` is NaN, and
   * NaN + 1 is NaN again, so a version computed from a missing record is NaN.
   */
  datatype Version = Num(n: int) | NaN

  /** `version + 1` in JavaScript arithmetic. */
  function Next(v: Version): Version
  {
    match v
    case Num(n) => Num(n + 1)
    case NaN => NaN
  }

  /** `(found?.version as number) + 1`: the version after a rewrite, NaN when nothing was found. */
  function VersionAfter(found: Option<Version>): Version
  {
    if found.Some? then Next(found.value) else NaN
  }

  /** A page of a list query: the selected documents and their count. */
  datatype Connection<T> = Connection(nodes: seq<T>, totalCount: int)

  /**
   * One field of a GraphQL input object: absent from the object, or present
   * with a value (which may itself be null). Spreading the input over a
   * record (`{ ...record, ...input }`) overrides exactly the present fields.
   */
  datatype Input<+T> = Absent | Given(value: T) {
    function Or(current: T): T
    {
      match this
      case Absent => current
      case Given(v) => v
    }
  }

  /** JavaScript truthiness of an optional string: null, undefined and "" are falsy. */
  predicate Truthy(s: Option<string>)
  {
    s.Some? && s.value != ""
  }
}
