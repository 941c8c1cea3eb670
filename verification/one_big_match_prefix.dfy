/**
 * `one_big_match_prefix.rs`: the designator lookup through the generated
 * longest-pattern-first `match`.
 */
module OneBigMatchPrefix {
  import opened Wrappers
  import opened Units
  import opened DesignatorLookup
  import OneBigMatchPrefixGen

  /**
   * `lookup`: the unit and the bytes after the pattern of the first matching
   * arm; with no arm the error is the end of input for an empty input and
   * otherwise carries the whole input.
   */
  function Lookup(input: seq<byte>): (r: Result<Found, LookupError>)
    ensures r == Longest(input)
  {
    match OneBigMatchPrefixGen.Find(input)
    case Some((unit, len)) => Success((unit, input[len..]))
    case None => if |input| == 0 then Failure(EndOfInput) else Failure(Unrecognized(input))
  }
}
