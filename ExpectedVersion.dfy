/**
 * The expected-version sentinels of optimistic concurrency. Four negative
 * `long` constants are declared; every other value is meant as the event
 * number the stream is expected to be at. The documented "empty stream"
 * expectation has no constant (its declaration is commented out), and no
 * check that uses these values exists in this code.
 */
module ExpectedVersion {
  import opened JavaLang

  /** Disables the optimistic concurrency check. */
  const Any: int64 := -2
  /** The stream must not exist yet (the constant is spelt `NO_STRREAM`). */
  const NoStream: int64 := -1
  /** Undocumented; read here as an expectation that is always rejected. */
  const Invalid: int64 := -3
  /** The stream or its metastream must exist, at any event number. */
  const StreamExists: int64 := -4

  const Sentinels: set<int64> := {Any, NoStream, Invalid, StreamExists}

  /** What an expected-version value means. */
  datatype Expectation =
    | AnyVersion
    | MustNotExist
    | Rejected
    | MustExist
    | AtEventNumber(eventNumber: int64)
    | Undocumented(value: int64)   // a negative value that is not a sentinel

  predicate WellFormed(e: Expectation)
  {
    match e
    case AtEventNumber(n) => n >= 0
    case Undocumented(v) => v < 0 && v !in Sentinels
    case _ => true
  }

  function Classify(v: int64): (e: Expectation)
    ensures WellFormed(e)
    ensures e.AtEventNumber? <==> v >= 0
    ensures e.Undocumented? <==> v < 0 && v !in Sentinels
  {
    if v == Any then AnyVersion
    else if v == NoStream then MustNotExist
    else if v == Invalid then Rejected
    else if v == StreamExists then MustExist
    else if v >= 0 then AtEventNumber(v)
    else Undocumented(v)
  }

  /** The wire value of an expectation. */
  function ToValue(e: Expectation): int64
  {
    match e
    case AnyVersion => Any
    case MustNotExist => NoStream
    case Rejected => Invalid
    case MustExist => StreamExists
    case AtEventNumber(n) => n
    case Undocumented(v) => v
  }

  lemma ClassifyRoundTrip(v: int64)
    ensures ToValue(Classify(v)) == v
  {
  }

  lemma ToValueRoundTrip(e: Expectation)
    requires WellFormed(e)
    ensures Classify(ToValue(e)) == e
  {
  }

  /** Exactly four sentinels, pairwise distinct, all negative: none is an event number. */
  lemma SentinelsPartitionDomain()
    ensures |Sentinels| == 4
    ensures forall v :: v in Sentinels ==> v < 0
    ensures forall v :: v in Sentinels <==> -4 <= v <= -1
  {
    assert Sentinels == {-1, -2, -3, -4};
  }
}
