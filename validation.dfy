/** The pieces of Laravel's request validation that the blog's rules use: the
    shape of a JSON field, the `required`, `string`, `boolean` and `array`
    rules, and the outcome of validating a request. */
module Validation {

  datatype Option<+T> = None | Some(value: T)

  /** A field of a decoded JSON request body. `Missing` is a key that is absent. */
  datatype Value =
    | Missing
    | Null
    | Str(s: string)
    | Int(i: int)
    | Bool(b: bool)
    | List(items: seq<Value>)

  /** The request fields a rule can reject. */
  datatype Field = Name | IsActive | Content | PublishedAt | Categories

  /** Either the validated data or the set of fields that failed. */
  datatype Validated<+T> = Passes(value: T) | Fails(errors: set<Field>)

  /** The characters PHP's `trim` removes. */
  predicate TrimChar(c: char)
  {
    c == ' ' || c == '\t' || c == '\n' || c == '\r' || c == '\0' || c == '\U{000B}'
  }

  /** A string that `trim` reduces to the empty string. */
  predicate TrimsToEmpty(s: string)
  {
    forall i :: 0 <= i < |s| ==> TrimChar(s[i])
  }

  /** The `required` rule: present, not null, not a blank string, not an empty list. */
  predicate Required(v: Value)
  {
    match v
    case Missing => false
    case Null => false
    case Str(s) => !TrimsToEmpty(s)
    case List(items) => items != []
    case _ => true
  }

  /** The `string` rule. */
  predicate IsString(v: Value)
  {
    v.Str?
  }

  /** The `boolean` rule: one of true, false, 1, 0, "1" and "0". */
  predicate IsBoolean(v: Value)
  {
    v.Bool? || v == Int(0) || v == Int(1) || v == Str("0") || v == Str("1")
  }

  /** The truth value a value accepted by `boolean` is stored as. */
  function AsBool(v: Value): (b: bool)
    requires IsBoolean(v)
    ensures b <==> v == Bool(true) || v == Int(1) || v == Str("1")
  {
    match v
    case Bool(b) => b
    case Int(i) => i == 1
    case Str(s) => s == "1"
  }

  /** Collects the fields whose rules failed. */
  function ErrorIf(failed: bool, f: Field): set<Field>
  {
    if failed then {f} else {}
  }
}
