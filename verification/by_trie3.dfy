/**
 * `by_trie3.rs`: the designator lookup through a static `trie3` built from
 * the 56 labels with 99 node slots and the labels' own alphabet length.
 */
module ByTrie3 {
  import opened Wrappers
  import opened Units
  import opened Needles
  import Alphabet
  import opened Trie3
  import opened Designators
  import opened DesignatorCapacity
  import opened DesignatorLookup

  /** `DesignatorTrie`'s node capacity. */
  const CAPACITY: nat := 99

  /** The construction `Trie::new(&DESIGNATOR_NEEDLES)` of the static trie. */
  function Build(): Result<Trie<Unit>, BuildError> {
    New(Table(), CAPACITY, Alphabet.New(Table()).len)
  }

  /**
   * The static trie's construction succeeds: the labels are distinct and
   * their 98 prefixes, the empty one included, fit beside FAIL in 99 slots.
   */
  lemma BuildSucceeds()
    ensures Build().Success? && Built(Build().value, Table())
  {
    DesignatorsDistinct();
    DesignatorsFit();
    NewSpec(Table(), CAPACITY, Alphabet.New(Table()).len);
  }

  /** `DESIGNATOR_TRIE`. */
  function DesignatorTrie(): (t: Trie<Unit>)
    ensures Shaped(t) && Built(t, Table())
  {
    BuildSucceeds();
    Build().value
  }

  /**
   * `lookup`: the longest label that starts the input wins; with no label the
   * error is the end of input for an empty input and otherwise carries the
   * whole input.
   */
  function Lookup(input: seq<byte>): (r: Result<Found, LookupError>)
    ensures r == Longest(input)
  {
    FindLongest(DesignatorTrie(), Table(), input);
    match Find(DesignatorTrie(), input)
    case Some((unit, offset)) => Success((unit, input[offset..]))
    case None => if |input| == 0 then Failure(EndOfInput) else Failure(Unrecognized(input))
  }
}
