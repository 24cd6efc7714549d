/**
 * Request validation: the endpoint, then the period against the
 * whitelist, then the timezone, t1 and t2 (each first present, then
 * readable), then the order of t1 and t2. The first check that fails
 * decides the error; only a request that passes every check is parsed.
 *
 * Reading a timezone name and reading a time text belong to the time
 * library and are parameters here: `load` gives the location a name
 * stands for, if any, and `parse` the instant a text denotes under a
 * layout, if any.
 */
module Validator {
  import opened Calendar
  import opened Models

  datatype ValidationError =
    | EndpointDoesNotExist
    | NoPeriod
    | PeriodUnsupported
    | NoTimezone
    | TimezoneNotIANA
    | NoT1
    | T1Invalid
    | NoT2
    | T2Invalid
    | T2NotAfterT1

  /** The message each error is reported with. */
  function Message(e: ValidationError): string {
    match e
    case EndpointDoesNotExist => "The requested endpoint does not exist"
    case PeriodUnsupported => "The requested period is not supported"
    case NoPeriod => "No period value provided"
    case T1Invalid => "The t1 time value is invalid"
    case NoT1 => "No t1 value provided"
    case T2Invalid => "The t2 time value is invalid"
    case NoT2 => "No t2 value provided"
    case TimezoneNotIANA => "The timezone provided is not an IANA timezone"
    case NoTimezone => "No timezone value provided"
    case T2NotAfterT1 => "t2 must be after t1"
  }

  /** Distinct errors are reported with distinct messages, so a message names its error. */
  lemma MessagesDistinct(a: ValidationError, b: ValidationError)
    requires Message(a) == Message(b)
    ensures a == b
  {
    match a
    case EndpointDoesNotExist =>
    case NoPeriod =>
    case PeriodUnsupported =>
    case NoTimezone =>
    case TimezoneNotIANA =>
    case NoT1 =>
    case T1Invalid =>
    case NoT2 =>
    case T2Invalid =>
    case T2NotAfterT1 =>
  }

  /** The position of a check in the order the validator applies them. */
  function Rank(e: ValidationError): (n: nat)
    ensures n < 10
  {
    match e
    case EndpointDoesNotExist => 0
    case NoPeriod => 1
    case PeriodUnsupported => 2
    case NoTimezone => 3
    case TimezoneNotIANA => 4
    case NoT1 => 5
    case T1Invalid => 6
    case NoT2 => 7
    case T2Invalid => 8
    case T2NotAfterT1 => 9
  }

  /** No two checks share a position: the order is total. */
  lemma RankInjective(a: ValidationError, b: ValidationError)
    requires Rank(a) == Rank(b)
    ensures a == b
  {
  }

  /** The validator's configuration: the one endpoint served, the time layout and the whitelisted period tokens. */
  datatype RequestValidator = RequestValidator(validEndpoint: string, validTimeFormat: string, supportedPeriods: seq<string>)

  /** Query parameters: each key with the values it was given, in order. */
  type Query = map<string, seq<string>>

  /** The first value of a key, or the empty text when the key is absent or has no value. */
  function Get(q: Query, key: string): (value: string)
    ensures key in q && q[key] != [] ==> value == q[key][0]
    ensures key !in q || q[key] == [] ==> value == ""
  {
    if key in q && q[key] != [] then q[key][0] else ""
  }

  /** Whether check `e` fails on a request, with `load` and `parse` standing for the time library. */
  predicate Fails(e: ValidationError, v: RequestValidator, path: string, q: Query,
                  load: string -> Option<Location>, parse: (string, string) -> Option<Instant>)
  {
    match e
    case EndpointDoesNotExist => path != v.validEndpoint
    case NoPeriod => "period" !in q
    case PeriodUnsupported => Get(q, "period") !in v.supportedPeriods
    case NoTimezone => "tz" !in q
    case TimezoneNotIANA => load(Get(q, "tz")).None?
    case NoT1 => "t1" !in q
    case T1Invalid => parse(v.validTimeFormat, Get(q, "t1")).None?
    case NoT2 => "t2" !in q
    case T2Invalid => parse(v.validTimeFormat, Get(q, "t2")).None?
    case T2NotAfterT1 =>
      var t1, t2 := parse(v.validTimeFormat, Get(q, "t1")), parse(v.validTimeFormat, Get(q, "t2"));
      t1.Some? && t2.Some? && t2.value <= t1.value
  }

  /**
   * The answer the validator owes a request: the error of the first check
   * that fails, every earlier check passing; or, when no check fails, the
   * request made of the period text, the location and the two instants
   * the query names.
   */
  predicate Answers(r: Result<Request, ValidationError>, v: RequestValidator, path: string, q: Query,
                    load: string -> Option<Location>, parse: (string, string) -> Option<Instant>)
  {
    match r
    case Failure(e) =>
      Fails(e, v, path, q, load, parse)
      && forall earlier :: Rank(earlier) < Rank(e) ==> !Fails(earlier, v, path, q, load, parse)
    case Success(req) =>
      (forall e :: !Fails(e, v, path, q, load, parse))
      && load(Get(q, "tz")).Some?
      && parse(v.validTimeFormat, Get(q, "t1")).Some?
      && parse(v.validTimeFormat, Get(q, "t2")).Some?
      && req == Request(Get(q, "period"), load(Get(q, "tz")).value,
                        parse(v.validTimeFormat, Get(q, "t1")).value, parse(v.validTimeFormat, Get(q, "t2")).value)
  }

  /** A request has exactly one answer. */
  lemma AnswerUnique(r1: Result<Request, ValidationError>, r2: Result<Request, ValidationError>, v: RequestValidator,
                     path: string, q: Query, load: string -> Option<Location>, parse: (string, string) -> Option<Instant>)
    requires Answers(r1, v, path, q, load, parse) && Answers(r2, v, path, q, load, parse)
    ensures r1 == r2
  {
    if r1.Failure? && r2.Failure? && Rank(r1.error) == Rank(r2.error) {
      RankInjective(r1.error, r2.error);
    }
  }

  /**
   * A request that passes validation is addressed to the endpoint, names
   * a whitelisted period, a location and two readable instants, and its
   * t1 is strictly before its t2.
   */
  lemma ValidatedRequest(req: Request, v: RequestValidator, path: string, q: Query,
                         load: string -> Option<Location>, parse: (string, string) -> Option<Instant>)
    requires Answers(Success(req), v, path, q, load, parse)
    ensures path == v.validEndpoint
    ensures "period" in q && "tz" in q && "t1" in q && "t2" in q
    ensures req.period in v.supportedPeriods
    ensures Some(req.location) == load(Get(q, "tz"))
    ensures req.t1 < req.t2
  {
    assert !Fails(EndpointDoesNotExist, v, path, q, load, parse);
    assert !Fails(NoPeriod, v, path, q, load, parse);
    assert !Fails(PeriodUnsupported, v, path, q, load, parse);
    assert !Fails(NoTimezone, v, path, q, load, parse);
    assert !Fails(NoT1, v, path, q, load, parse);
    assert !Fails(NoT2, v, path, q, load, parse);
    assert !Fails(T2NotAfterT1, v, path, q, load, parse);
  }

  /** The answer is the first failing check: the checks before it pass. */
  lemma FirstFailureDecides(e: ValidationError, r: Result<Request, ValidationError>, v: RequestValidator, path: string, q: Query,
                            load: string -> Option<Location>, parse: (string, string) -> Option<Instant>)
    requires Answers(r, v, path, q, load, parse)
    requires Fails(e, v, path, q, load, parse)
    requires forall earlier :: Rank(earlier) < Rank(e) ==> !Fails(earlier, v, path, q, load, parse)
    ensures r == Failure(e)
  {
    AnswerUnique(r, Failure(e), v, path, q, load, parse);
  }

  /** A query holding each of the four keys once, with the given period and fixed zone and times. */
  function FullQuery(period: string): Query {
    map["period" := [period], "tz" := ["Europe/Athens"], "t1" := ["20060102T150405Z"], "t2" := ["20070102T150405Z"]]
  }

  /** The whitelist {"1h", "1d", "1mo"}: "2h" is refused as unsupported, whatever the time library says. */
  lemma UnsupportedPeriodExample(r: Result<Request, ValidationError>, load: string -> Option<Location>, parse: (string, string) -> Option<Instant>)
    requires Answers(r, RequestValidator("right", "20060102T150405Z", ["1h", "1d", "1mo"]), "right", FullQuery("2h"), load, parse)
    ensures r == Failure(PeriodUnsupported)
  {
    var v, q := RequestValidator("right", "20060102T150405Z", ["1h", "1d", "1mo"]), FullQuery("2h");
    assert Get(q, "period") == "2h";
    FirstFailureDecides(PeriodUnsupported, r, v, "right", q, load, parse);
  }

  /** A query without a period is refused as such, even when the whitelist would refuse every period. */
  lemma MissingPeriodExample(r: Result<Request, ValidationError>, load: string -> Option<Location>, parse: (string, string) -> Option<Instant>)
    requires Answers(r, RequestValidator("right", "20060102T150405Z", ["invalid"]), "right", FullQuery("1h") - {"period"}, load, parse)
    ensures r == Failure(NoPeriod)
  {
    var v, q := RequestValidator("right", "20060102T150405Z", ["invalid"]), FullQuery("1h") - {"period"};
    FirstFailureDecides(NoPeriod, r, v, "right", q, load, parse);
  }

  /** With a zone the library knows and t1 before t2, a whitelisted period is accepted and passed on unchanged. */
  lemma AcceptedExample(r: Result<Request, ValidationError>, load: string -> Option<Location>, parse: (string, string) -> Option<Instant>)
    requires load("Europe/Athens").Some?
    requires parse("20060102T150405Z", "20060102T150405Z").Some? && parse("20060102T150405Z", "20070102T150405Z").Some?
    requires parse("20060102T150405Z", "20060102T150405Z").value < parse("20060102T150405Z", "20070102T150405Z").value
    requires Answers(r, RequestValidator("right", "20060102T150405Z", ["1h", "1d", "1mo"]), "right", FullQuery("1h"), load, parse)
    ensures r.Success? && r.value.period == "1h"
  {
    var v, q := RequestValidator("right", "20060102T150405Z", ["1h", "1d", "1mo"]), FullQuery("1h");
    assert Get(q, "period") == "1h" && Get(q, "tz") == "Europe/Athens";
    assert Get(q, "t1") == "20060102T150405Z" && Get(q, "t2") == "20070102T150405Z";
    if r.Failure? {
      match r.error
      case EndpointDoesNotExist =>
      case NoPeriod =>
      case PeriodUnsupported =>
      case NoTimezone =>
      case TimezoneNotIANA =>
      case NoT1 =>
      case T1Invalid =>
      case NoT2 =>
      case T2Invalid =>
      case T2NotAfterT1 =>
    }
  }

  /** The validator, one check after another, with the whitelist scanned by a loop that stops at the first match. */
  method ValidateAndParse(v: RequestValidator, path: string, query: Query,
                          load: string -> Option<Location>, parse: (string, string) -> Option<Instant>)
    returns (r: Result<Request, ValidationError>)
    ensures Answers(r, v, path, query, load, parse)
  {
    if path != v.validEndpoint {
      return Failure(EndpointDoesNotExist);
    }

    if "period" !in query {
      return Failure(NoPeriod);
    }
    var period := Get(query, "period");
    var periodSupported := false;
    var i := 0;
    while i < |v.supportedPeriods|
      invariant 0 <= i <= |v.supportedPeriods|
      invariant period !in v.supportedPeriods[..i]
    {
      if v.supportedPeriods[i] == period {
        periodSupported := true;
        break;
      }
      i := i + 1;
    }
    assert periodSupported <==> period in v.supportedPeriods by {
      if !periodSupported {
        assert v.supportedPeriods[..i] == v.supportedPeriods;
      }
    }
    if !periodSupported {
      return Failure(PeriodUnsupported);
    }

    if "tz" !in query {
      return Failure(NoTimezone);
    }
    var location := load(Get(query, "tz"));
    if location.None? {
      return Failure(TimezoneNotIANA);
    }

    if "t1" !in query {
      return Failure(NoT1);
    }
    var t1 := parse(v.validTimeFormat, Get(query, "t1"));
    if t1.None? {
      return Failure(T1Invalid);
    }

    if "t2" !in query {
      return Failure(NoT2);
    }
    var t2 := parse(v.validTimeFormat, Get(query, "t2"));
    if t2.None? {
      return Failure(T2Invalid);
    }

    if !(t2.value > t1.value) {
      return Failure(T2NotAfterT1);
    }

    return Success(Request(period, location.value, t1.value, t2.value));
  }
}
