/** Values shared by every part of the engine: optional results, the exceptions
    the C# code throws (as values), and the blank-string test the registry uses. */
module Common {

  datatype Option<+T> = None | Some(value: T)

  /** Which ArgumentException check raised the error. */
  datatype ArgumentReason =
    | TooFewPoints    // a point trace with fewer than 2 points
    | GestureInUse    // "Provided gesture ... is already in use!"
    | CommandExists   // "Command ... already exists!"
    | DuplicateKey    // Dictionary.Add on a key that is already present

  /** Which KeyNotFoundException check raised the error. */
  datatype KeyReason =
    | UnknownCommand   // the id is not in the command catalog
    | CommandNotFound  // the id has no entry in the gesture registry

  /** The exceptions of the engine, one constructor per exception class. */
  datatype Error =
    | ArgumentNull(paramName: string)
    | Argument(reason: ArgumentReason)
    | KeyNotFound(keyReason: KeyReason)
    | InvalidOperation   // Enumerable.First found no matching element

  /** A value, or the exception that was thrown instead. */
  datatype Result<+T> = Success(value: T) | Failure(error: Error)

  /** A void operation that either returns normally or throws. */
  datatype Outcome = Pass | Fail(error: Error)

  /** The characters for which .NET's Char.IsWhiteSpace holds. */
  predicate IsWhiteSpace(c: char)
  {
    || ('\t' <= c <= '\r')
    || c == ' ' || c == '\U{85}' || c == '\U{A0}' || c == '\U{1680}'
    || ('\U{2000}' <= c <= '\U{200A}')
    || c == '\U{2028}' || c == '\U{2029}' || c == '\U{202F}' || c == '\U{205F}' || c == '\U{3000}'
  }

  /** string.IsNullOrWhiteSpace; references are never null here, so only the
      empty and the all-white-space strings are blank. */
  predicate IsNullOrWhiteSpace(s: string)
  {
    forall k :: 0 <= k < |s| ==> IsWhiteSpace(s[k])
  }

  /** The position of the first element equal to x (for a class type, the first
      reference to that very object), or None when x does not occur. */
  function IndexOf<T(==)>(xs: seq<T>, x: T): (r: Option<nat>)
    ensures r.None? <==> x !in xs
    ensures r.Some? ==> r.value < |xs| && xs[r.value] == x && x !in xs[..r.value]
  {
    if xs == [] then None
    else if xs[0] == x then Some(0)
    else
      match IndexOf(xs[1..], x)
      case None => None
      case Some(k) =>
        assert xs[..k + 1] == [xs[0]] + xs[1..][..k];
        Some(k + 1)
  }

  /** List<T>.Remove: deletes the first element equal to x, or nothing when there is none. */
  function RemoveFirst<T(==)>(xs: seq<T>, x: T): (r: seq<T>)
    ensures x !in xs ==> r == xs
    ensures x in xs ==> |r| == |xs| - 1
  {
    match IndexOf(xs, x)
    case None => xs
    case Some(k) => xs[..k] + xs[k + 1..]
  }

  /** Removing the first element equal to xs[k], when no earlier element equals it,
      removes position k. */
  lemma RemoveFirstAt<T>(xs: seq<T>, k: nat)
    requires k < |xs| && xs[k] !in xs[..k]
    ensures RemoveFirst(xs, xs[k]) == xs[..k] + xs[k + 1..]
  {
  }
}
