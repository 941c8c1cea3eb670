/**
 * `one_big_match.rs`: take the longest run of designator bytes at the start
 * of the input and match it exactly against the 56 labels. The match arms
 * are the label table in table order, and a slice `match` picks the first
 * arm equal to the run, which is `ValueOf` over the table.
 */
module OneBigMatch {
  import opened Wrappers
  import opened Units
  import opened Needles
  import opened Designators
  import opened DesignatorLookup

  /** The position of the first byte at or after `k` that is no designator byte, or `|input|`. */
  function RunEnd(input: seq<byte>, k: nat): (end: nat)
    requires k <= |input|
    ensures k <= end <= |input|
    ensures forall j | k <= j < end :: IsDesignatorByte(input[j])
    ensures end < |input| ==> !IsDesignatorByte(input[end])
    decreases |input| - k
  {
    if k == |input| || !IsDesignatorByte(input[k]) then k else RunEnd(input, k + 1)
  }

  /** The `needle`: the maximal run of designator bytes that starts the input. */
  function Run(input: seq<byte>): (run: seq<byte>)
    ensures run <= input
    ensures forall j | 0 <= j < |run| :: IsDesignatorByte(run[j])
    ensures |run| < |input| ==> !IsDesignatorByte(input[|run|])
  {
    input[..RunEnd(input, 0)]
  }

  /**
   * `lookup`: an empty run is the end-of-input error, even when bytes
   * follow; a run that is a label yields its unit and the bytes after the
   * run; any other run is an error that carries the run.
   */
  function Lookup(input: seq<byte>): (r: Result<Found, LookupError>)
    ensures r == Failure(EndOfInput) <==> |input| == 0 || !IsDesignatorByte(input[0])
    ensures r.Success? <==> IsLabel(Run(input))
    ensures r.Success? ==> r.value == (ValueOf(Table(), Run(input)).value, input[|Run(input)|..])
    ensures r.Failure? && r.error != EndOfInput ==> r.error == Unrecognized(Run(input))
  {
    var needle := Run(input);
    NoEmptyLabel();
    if |needle| == 0 then Failure(EndOfInput)
    else
      match ValueOf(Table(), needle)
      case Some(unit) => Success((unit, input[|needle|..]))
      case None => Failure(Unrecognized(needle))
  }

  /**
   * The exact match agrees with the longest-label reference whenever the run
   * is a label, and succeeds exactly when the reference finds a label that
   * the end of the input or a byte that is no designator byte follows.
   */
  lemma ExactAgreesWithLongest(input: seq<byte>)
    ensures Lookup(input).Success? ==> Longest(input) == Lookup(input)
    ensures Lookup(input).Success? <==>
              && Longest(input).Success?
              && var rest := Longest(input).value.1;
                 |rest| == 0 || !IsDesignatorByte(rest[0])
  {
    var run := Run(input);
    LongestSpec(input);
    if IsLabel(run) {
      var i := LabelOf(run);
      LongestLabel(input, i);
    } else if Longest(input).Success? {
      var rest := Longest(input).value.1;
      if |rest| == 0 || !IsDesignatorByte(rest[0]) {
        LabelIsRun(input, |input| - |rest|);
      }
    }
  }

  /** A label that the end of the input or a byte that is no designator byte follows is the whole run. */
  lemma LabelIsRun(input: seq<byte>, n: nat)
    requires n <= |input| && IsLabel(input[..n])
    requires n == |input| || !IsDesignatorByte(input[n])
    ensures Run(input) == input[..n]
  {
    var run := Run(input);
    if |run| < n {
      assert input[..n][|run|] == input[|run|];
      LabelBytes(input[..n], |run|);
    }
  }

  /**
   * Where the two lookups part: input that starts with a byte that is no
   * designator byte is the end-of-input error here but carries the input
   * in the longest-label lookup.
   */
  lemma NonDesignatorStart(input: seq<byte>)
    requires |input| > 0 && !IsDesignatorByte(input[0])
    ensures Lookup(input) == Failure(EndOfInput)
    ensures Longest(input) == Failure(Unrecognized(input))
  {
    NoLabelPast(input, 0);
    LongestSpec(input);
  }
}
