/** Small shared vocabulary: optional request fields and PHP's notion of a blank string. */
module Common {

  /** A request field that may be absent. */
  datatype Option<+T> = None | Some(value: T)
  {
    function GetOr(default: T): T
    {
      match this
      case Some(v) => v
      case None => default
    }
  }

  /** The characters PHP's `trim` removes by default: space, tab, newline,
      carriage return, NUL and vertical tab. */
  predicate IsTrimmed(c: char)
  {
    c == ' ' || c == '\t' || c == '\n' || c == '\r' || c == '\0' || c == '\U{B}'
  }

  /** Laravel's `required` rule on a string: the value is not empty once trimmed. */
  predicate Filled(s: string)
  {
    exists i :: 0 <= i < |s| && !IsTrimmed(s[i])
  }

  /** A present field that passes `required|string`. */
  predicate FilledField(f: Option<string>)
  {
    f.Some? && Filled(f.value)
  }
}
