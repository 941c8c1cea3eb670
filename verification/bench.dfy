/**
 * The three inputs every benchmark of `bench.rs` looks up, checked against
 * the trie lookup, the exact match and the generated prefix match alike.
 */
module Bench {
  import opened Wrappers
  import opened Units
  import opened Designators
  import opened DesignatorLookup
  import ByTrie3
  import OneBigMatch
  import OneBigMatchPrefix

  /**
   * A label followed by a byte that is no designator byte is what all three
   * lookups find, with the same rest.
   */
  lemma LookupsAgreeOnLabel(input: seq<byte>, i: nat, rest: seq<byte>)
    requires i < 56 && input == Spelling(i) + rest
    requires |rest| > 0 && !IsDesignatorByte(rest[0])
    ensures ByTrie3.Lookup(input) == Success((UnitOf(i), rest))
    ensures OneBigMatch.Lookup(input) == Success((UnitOf(i), rest))
    ensures OneBigMatchPrefix.Lookup(input) == Success((UnitOf(i), rest))
  {
    assert input[|Spelling(i)|..] == rest;
    LongestLabel(input, i);
    OneBigMatch.ExactAgreesWithLongest(input);
  }

  /** `y 5 months`: a year, then ` 5 months`. */
  lemma Short(input: seq<byte>)
    requires input == [121, 32, 53, 32, 109, 111, 110, 116, 104, 115]
    ensures ByTrie3.Lookup(input) == Success((Year, [32, 53, 32, 109, 111, 110, 116, 104, 115]))
    ensures OneBigMatch.Lookup(input) == Success((Year, [32, 53, 32, 109, 111, 110, 116, 104, 115]))
    ensures OneBigMatchPrefix.Lookup(input) == Success((Year, [32, 53, 32, 109, 111, 110, 116, 104, 115]))
  {
    LookupsAgreeOnLabel(input, 4, [32, 53, 32, 109, 111, 110, 116, 104, 115]);
  }

  /** `months 5 days`: a month, then ` 5 days`. */
  lemma Medium(input: seq<byte>)
    requires input == [109, 111, 110, 116, 104, 115, 32, 53, 32, 100, 97, 121, 115]
    ensures ByTrie3.Lookup(input) == Success((Month, [32, 53, 32, 100, 97, 121, 115]))
    ensures OneBigMatch.Lookup(input) == Success((Month, [32, 53, 32, 100, 97, 121, 115]))
    ensures OneBigMatchPrefix.Lookup(input) == Success((Month, [32, 53, 32, 100, 97, 121, 115]))
  {
    LookupsAgreeOnLabel(input, 5, [32, 53, 32, 100, 97, 121, 115]);
  }

  /** `milliseconds 5 nanoseconds`: a millisecond, then ` 5 nanoseconds`. */
  lemma Long(input: seq<byte>)
    requires input == [109, 105, 108, 108, 105, 115, 101, 99, 111, 110, 100, 115, 32, 53, 32,
                          110, 97, 110, 111, 115, 101, 99, 111, 110, 100, 115]
    ensures ByTrie3.Lookup(input) == Success((Millisecond, [32, 53, 32, 110, 97, 110, 111, 115, 101, 99, 111, 110, 100, 115]))
    ensures OneBigMatch.Lookup(input) == Success((Millisecond, [32, 53, 32, 110, 97, 110, 111, 115, 101, 99, 111, 110, 100, 115]))
    ensures OneBigMatchPrefix.Lookup(input) == Success((Millisecond, [32, 53, 32, 110, 97, 110, 111, 115, 101, 99, 111, 110, 100, 115]))
  {
    LookupsAgreeOnLabel(input, 32, [32, 53, 32, 110, 97, 110, 111, 115, 101, 99, 111, 110, 100, 115]);
  }
}
