/**
 * The value types the service passes between its parts: the period units,
 * the validated request, and the optional and fallible results.
 */
module Models {
  import opened Calendar

  datatype Option<T> = None | Some(value: T)

  datatype Result<T, E> = Success(value: T) | Failure(error: E)

  /** The period units; any other suffix is carried as `Unknown`. */
  datatype Unit = Hours | Days | Months | Years | Unknown(text: string) {
    predicate Known() { !Unknown? }
  }

  /** The text a unit is written as in a period token. */
  function UnitText(u: Unit): string {
    match u
    case Hours => "h"
    case Days => "d"
    case Months => "mo"
    case Years => "y"
    case Unknown(t) => t
  }

  /** The unit a suffix names; every suffix is read back as itself. */
  function UnitOf(s: string): (u: Unit)
    ensures UnitText(u) == s
    ensures u.Unknown? <==> s !in {"h", "d", "mo", "y"}
  {
    if s == "h" then Hours
    else if s == "d" then Days
    else if s == "mo" then Months
    else if s == "y" then Years
    else Unknown(s)
  }

  lemma UnitOfText(u: Unit)
    requires u.Known()
    ensures UnitOf(UnitText(u)) == u
  {
  }

  /**
   * A request that passed validation: the period token as sent, the
   * location to read the calendar in, and the two bounds as instants.
   */
  datatype Request = Request(period: string, location: Location, t1: Instant, t2: Instant)
}
