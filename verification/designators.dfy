/**
 * The 56 unit designators every lookup recognises, in the order of the
 * needle table of `by_trie3.rs` (the exact-match arms of `one_big_match.rs`
 * list the same labels in the same order), together with the facts about
 * them the lookups rely on: labels are non-empty runs of designator bytes of
 * at most 12 bytes, pairwise distinct, and their prefixes fit in 99 trie
 * nodes.
 */
module Designators {
  import opened Units
  import opened Needles

  /** `is_valid_designator_byte`: `a`..`z`, or one of the two UTF-8 bytes of `µ`. */
  predicate IsDesignatorByte(b: byte) {
    'a' as int <= b <= 'z' as int || b == 0xC2 || b == 0xB5
  }

  /** The `i`-th needle of the table: a label's UTF-8 bytes and its unit. */
  function Label(i: nat): Needle<Unit>
    requires i < 56
  {
    Needle(Spelling(i), UnitOf(i))
  }

  /** The table lists the units from `Year` down, each unit's labels together. */
  function UnitOf(i: nat): Unit
    requires i < 56
  {
    if i < 5 then Year
    else if i < 9 then Month
    else if i < 14 then Week
    else if i < 17 then Day
    else if i < 22 then Hour
    else if i < 27 then Minute
    else if i < 32 then Second
    else if i < 39 then Millisecond
    else if i < 49 then Microsecond
    else Nanosecond
  }

  /** The UTF-8 bytes of the `i`-th label. */
  function Spelling(i: nat): seq<byte>
    requires i < 56
  {
    if i < 5 then YearSpelling(i)
    else if i < 9 then MonthSpelling(i)
    else if i < 14 then WeekSpelling(i)
    else if i < 17 then DaySpelling(i)
    else if i < 22 then HourSpelling(i)
    else if i < 27 then MinuteSpelling(i)
    else if i < 32 then SecondSpelling(i)
    else if i < 39 then MillisecondSpelling(i)
    else if i < 49 then MicrosecondSpelling(i)
    else NanosecondSpelling(i)
  }

  /** The labels of years, table positions 0 to 4. */
  function YearSpelling(i: nat): seq<byte>
    requires i < 5
  {
    match i
    case 0 => [121, 101, 97, 114, 115]                        // years
    case 1 => [121, 101, 97, 114]                             // year
    case 2 => [121, 114, 115]                                 // yrs
    case 3 => [121, 114]                                      // yr
    case 4 => [121]                                           // y
  }

  /** The labels of months, table positions 5 to 8. */
  function MonthSpelling(i: nat): seq<byte>
    requires 5 <= i < 9
  {
    match i
    case 5 => [109, 111, 110, 116, 104, 115]                  // months
    case 6 => [109, 111, 110, 116, 104]                       // month
    case 7 => [109, 111, 115]                                 // mos
    case 8 => [109, 111]                                      // mo
  }

  /** The labels of weeks, table positions 9 to 13. */
  function WeekSpelling(i: nat): seq<byte>
    requires 9 <= i < 14
  {
    match i
    case 9 => [119, 101, 101, 107, 115]                       // weeks
    case 10 => [119, 101, 101, 107]                           // week
    case 11 => [119, 107, 115]                                // wks
    case 12 => [119, 107]                                     // wk
    case 13 => [119]                                          // w
  }

  /** The labels of days, table positions 14 to 16. */
  function DaySpelling(i: nat): seq<byte>
    requires 14 <= i < 17
  {
    match i
    case 14 => [100, 97, 121, 115]                            // days
    case 15 => [100, 97, 121]                                 // day
    case 16 => [100]                                          // d
  }

  /** The labels of hours, table positions 17 to 21. */
  function HourSpelling(i: nat): seq<byte>
    requires 17 <= i < 22
  {
    match i
    case 17 => [104, 111, 117, 114, 115]                      // hours
    case 18 => [104, 111, 117, 114]                           // hour
    case 19 => [104, 114, 115]                                // hrs
    case 20 => [104, 114]                                     // hr
    case 21 => [104]                                          // h
  }

  /** The labels of minutes, table positions 22 to 26. */
  function MinuteSpelling(i: nat): seq<byte>
    requires 22 <= i < 27
  {
    match i
    case 22 => [109, 105, 110, 117, 116, 101, 115]            // minutes
    case 23 => [109, 105, 110, 117, 116, 101]                 // minute
    case 24 => [109, 105, 110, 115]                           // mins
    case 25 => [109, 105, 110]                                // min
    case 26 => [109]                                          // m
  }

  /** The labels of seconds, table positions 27 to 31. */
  function SecondSpelling(i: nat): seq<byte>
    requires 27 <= i < 32
  {
    match i
    case 27 => [115, 101, 99, 111, 110, 100, 115]             // seconds
    case 28 => [115, 101, 99, 111, 110, 100]                  // second
    case 29 => [115, 101, 99, 115]                            // secs
    case 30 => [115, 101, 99]                                 // sec
    case 31 => [115]                                          // s
  }

  /** The labels of milliseconds, table positions 32 to 38. */
  function MillisecondSpelling(i: nat): seq<byte>
    requires 32 <= i < 39
  {
    match i
    case 32 => [109, 105, 108, 108, 105, 115, 101, 99, 111, 110, 100, 115]  // milliseconds
    case 33 => [109, 105, 108, 108, 105, 115, 101, 99, 111, 110, 100]  // millisecond
    case 34 => [109, 105, 108, 108, 105, 115]                 // millis
    case 35 => [109, 105, 108, 108, 105]                      // milli
    case 36 => [109, 115, 101, 99, 115]                       // msecs
    case 37 => [109, 115, 101, 99]                            // msec
    case 38 => [109, 115]                                     // ms
  }

  /** The labels of microseconds, table positions 39 to 48. */
  function MicrosecondSpelling(i: nat): seq<byte>
    requires 39 <= i < 49
  {
    match i
    case 39 => [109, 105, 99, 114, 111, 115, 101, 99, 111, 110, 100, 115]  // microseconds
    case 40 => [109, 105, 99, 114, 111, 115, 101, 99, 111, 110, 100]  // microsecond
    case 41 => [109, 105, 99, 114, 111, 115]                  // micros
    case 42 => [109, 105, 99, 114, 111]                       // micro
    case 43 => [117, 115, 101, 99, 115]                       // usecs
    case 44 => [117, 115, 101, 99]                            // usec
    case 45 => [194, 181, 115, 101, 99, 115]                  // µsecs
    case 46 => [194, 181, 115, 101, 99]                       // µsec
    case 47 => [117, 115]                                     // us
    case 48 => [194, 181, 115]                                // µs
  }

  /** The labels of nanoseconds, table positions 49 to 55. */
  function NanosecondSpelling(i: nat): seq<byte>
    requires 49 <= i < 56
  {
    match i
    case 49 => [110, 97, 110, 111, 115, 101, 99, 111, 110, 100, 115]  // nanoseconds
    case 50 => [110, 97, 110, 111, 115, 101, 99, 111, 110, 100]  // nanosecond
    case 51 => [110, 97, 110, 111, 115]                       // nanos
    case 52 => [110, 97, 110, 111]                            // nano
    case 53 => [110, 115, 101, 99, 115]                       // nsecs
    case 54 => [110, 115, 101, 99]                            // nsec
    case 55 => [110, 115]                                     // ns
  }

  /** The needle table. */
  function Table(): (d: seq<Needle<Unit>>)
    ensures |d| == 56 && forall i | 0 <= i < 56 :: d[i] == Label(i)
  {
    seq(56, i requires 0 <= i < 56 => Label(i))
  }

  /** The position of label `i` when the labels are ranked longest first, ties broken downwards. */
  function Rank(i: nat): (k: nat)
    ensures k < 56
  {
    match i
    case 0 => 15
    case 1 => 25
    case 2 => 36
    case 3 => 43
    case 4 => 50
    case 5 => 10
    case 6 => 21
    case 7 => 39
    case 8 => 48
    case 9 => 16
    case 10 => 26
    case 11 => 37
    case 12 => 44
    case 13 => 51
    case 14 => 34
    case 15 => 42
    case 16 => 55
    case 17 => 24
    case 18 => 33
    case 19 => 41
    case 20 => 49
    case 21 => 54
    case 22 => 7
    case 23 => 11
    case 24 => 32
    case 25 => 40
    case 26 => 53
    case 27 => 6
    case 28 => 9
    case 29 => 28
    case 30 => 38
    case 31 => 52
    case 32 => 0
    case 33 => 3
    case 34 => 12
    case 35 => 22
    case 36 => 20
    case 37 => 31
    case 38 => 47
    case 39 => 1
    case 40 => 4
    case 41 => 13
    case 42 => 23
    case 43 => 17
    case 44 => 27
    case 45 => 8
    case 46 => 14
    case 47 => 45
    case 48 => 35
    case 49 => 2
    case 50 => 5
    case 51 => 19
    case 52 => 30
    case 53 => 18
    case 54 => 29
    case 55 => 46
    case _ => 0
  }

  /** The label of rank `k`: the inverse of `Rank`. */
  function ByRank(k: nat): (i: nat)
    ensures i < 56
  {
    match k
    case 0 => 32
    case 1 => 39
    case 2 => 49
    case 3 => 33
    case 4 => 40
    case 5 => 50
    case 6 => 27
    case 7 => 22
    case 8 => 45
    case 9 => 28
    case 10 => 5
    case 11 => 23
    case 12 => 34
    case 13 => 41
    case 14 => 46
    case 15 => 0
    case 16 => 9
    case 17 => 43
    case 18 => 53
    case 19 => 51
    case 20 => 36
    case 21 => 6
    case 22 => 35
    case 23 => 42
    case 24 => 17
    case 25 => 1
    case 26 => 10
    case 27 => 44
    case 28 => 29
    case 29 => 54
    case 30 => 52
    case 31 => 37
    case 32 => 24
    case 33 => 18
    case 34 => 14
    case 35 => 48
    case 36 => 2
    case 37 => 11
    case 38 => 30
    case 39 => 7
    case 40 => 25
    case 41 => 19
    case 42 => 15
    case 43 => 3
    case 44 => 12
    case 45 => 47
    case 46 => 55
    case 47 => 38
    case 48 => 8
    case 49 => 20
    case 50 => 4
    case 51 => 13
    case 52 => 31
    case 53 => 26
    case 54 => 21
    case 55 => 16
    case _ => 0
  }

  /** `a` is above `b` in byte order, comparing from position `i` on. */
  predicate LexAbove(a: seq<byte>, b: seq<byte>, i: nat)
    decreases |a| - i
  {
    i < |a| && i < |b| && (a[i] > b[i] || (a[i] == b[i] && LexAbove(a, b, i + 1)))
  }

  /** The order of the arms: longer labels first, equal lengths in descending byte order. */
  predicate Outranks(a: seq<byte>, b: seq<byte>) {
    |a| > |b| || (|a| == |b| && LexAbove(a, b, 0))
  }

  lemma {:induction false} LexAboveIrreflexive(a: seq<byte>, i: nat)
    ensures !LexAbove(a, a, i)
    decreases |a| - i
  {
    if i < |a| {
      LexAboveIrreflexive(a, i + 1);
    }
  }

  lemma {:induction false} LexAboveTransitive(a: seq<byte>, b: seq<byte>, c: seq<byte>, i: nat)
    requires LexAbove(a, b, i) && LexAbove(b, c, i)
    ensures LexAbove(a, c, i)
    decreases |a| - i
  {
    if a[i] == b[i] && b[i] == c[i] {
      LexAboveTransitive(a, b, c, i + 1);
    }
  }

  /** Nothing outranks itself. */
  lemma OutranksIrreflexive(a: seq<byte>)
    ensures !Outranks(a, a)
  {
    LexAboveIrreflexive(a, 0);
  }

  /** Outranking is transitive. */
  lemma OutranksTransitive(a: seq<byte>, b: seq<byte>, c: seq<byte>)
    requires Outranks(a, b) && Outranks(b, c)
    ensures Outranks(a, c)
  {
    if |a| == |b| == |c| {
      LexAboveTransitive(a, b, c, 0);
    }
  }

  // Label shapes, checked one unit at a time.

  lemma YearShapes()
    ensures forall i | 0 <= i < 5 :: 1 <= |Spelling(i)| <= 12
    ensures forall i | 0 <= i < 5 :: forall k | 0 <= k < |Spelling(i)| :: IsDesignatorByte(Spelling(i)[k])
    ensures forall i | 0 <= i < 5 :: ByRank(Rank(i)) == i
  {
  }

  lemma MonthShapes()
    ensures forall i | 5 <= i < 9 :: 1 <= |Spelling(i)| <= 12
    ensures forall i | 5 <= i < 9 :: forall k | 0 <= k < |Spelling(i)| :: IsDesignatorByte(Spelling(i)[k])
    ensures forall i | 5 <= i < 9 :: ByRank(Rank(i)) == i
  {
  }

  lemma WeekShapes()
    ensures forall i | 9 <= i < 14 :: 1 <= |Spelling(i)| <= 12
    ensures forall i | 9 <= i < 14 :: forall k | 0 <= k < |Spelling(i)| :: IsDesignatorByte(Spelling(i)[k])
    ensures forall i | 9 <= i < 14 :: ByRank(Rank(i)) == i
  {
  }

  lemma DayShapes()
    ensures forall i | 14 <= i < 17 :: 1 <= |Spelling(i)| <= 12
    ensures forall i | 14 <= i < 17 :: forall k | 0 <= k < |Spelling(i)| :: IsDesignatorByte(Spelling(i)[k])
    ensures forall i | 14 <= i < 17 :: ByRank(Rank(i)) == i
  {
  }

  lemma HourShapes()
    ensures forall i | 17 <= i < 22 :: 1 <= |Spelling(i)| <= 12
    ensures forall i | 17 <= i < 22 :: forall k | 0 <= k < |Spelling(i)| :: IsDesignatorByte(Spelling(i)[k])
    ensures forall i | 17 <= i < 22 :: ByRank(Rank(i)) == i
  {
  }

  lemma MinuteShapes()
    ensures forall i | 22 <= i < 27 :: 1 <= |Spelling(i)| <= 12
    ensures forall i | 22 <= i < 27 :: forall k | 0 <= k < |Spelling(i)| :: IsDesignatorByte(Spelling(i)[k])
    ensures forall i | 22 <= i < 27 :: ByRank(Rank(i)) == i
  {
  }

  lemma SecondShapes()
    ensures forall i | 27 <= i < 32 :: 1 <= |Spelling(i)| <= 12
    ensures forall i | 27 <= i < 32 :: forall k | 0 <= k < |Spelling(i)| :: IsDesignatorByte(Spelling(i)[k])
    ensures forall i | 27 <= i < 32 :: ByRank(Rank(i)) == i
  {
  }

  lemma MillisecondShapes()
    ensures forall i | 32 <= i < 39 :: 1 <= |Spelling(i)| <= 12
    ensures forall i | 32 <= i < 39 :: forall k | 0 <= k < |Spelling(i)| :: IsDesignatorByte(Spelling(i)[k])
    ensures forall i | 32 <= i < 39 :: ByRank(Rank(i)) == i
  {
  }

  lemma MicrosecondShapes()
    ensures forall i | 39 <= i < 49 :: 1 <= |Spelling(i)| <= 12
    ensures forall i | 39 <= i < 49 :: forall k | 0 <= k < |Spelling(i)| :: IsDesignatorByte(Spelling(i)[k])
    ensures forall i | 39 <= i < 49 :: ByRank(Rank(i)) == i
  {
    LongMicrosecondShapes();
  }

  lemma LongMicrosecondShapes()
    ensures forall i | 39 <= i < 43 :: 1 <= |Spelling(i)| <= 12
    ensures forall i | 39 <= i < 43 :: forall k | 0 <= k < |Spelling(i)| :: IsDesignatorByte(Spelling(i)[k])
    ensures forall i | 39 <= i < 43 :: ByRank(Rank(i)) == i
  {
  }

  lemma NanosecondShapes()
    ensures forall i | 49 <= i < 56 :: 1 <= |Spelling(i)| <= 12
    ensures forall i | 49 <= i < 56 :: forall k | 0 <= k < |Spelling(i)| :: IsDesignatorByte(Spelling(i)[k])
    ensures forall i | 49 <= i < 56 :: ByRank(Rank(i)) == i
  {
  }

  /** Every label is a run of 1 to 12 designator bytes that `Rank` places in the ranking. */
  lemma AllShapes()
    ensures forall i | 0 <= i < 56 :: 1 <= |Spelling(i)| <= 12
    ensures forall i | 0 <= i < 56 :: forall k | 0 <= k < |Spelling(i)| :: IsDesignatorByte(Spelling(i)[k])
    ensures forall i | 0 <= i < 56 :: ByRank(Rank(i)) == i
  {
    YearShapes();
    MonthShapes();
    WeekShapes();
    DayShapes();
    HourShapes();
    MinuteShapes();
    SecondShapes();
    MillisecondShapes();
    MicrosecondShapes();
    NanosecondShapes();
  }

  // The ranking, checked one label length at a time.

  /** The label at rank `k` has rank `k` and outranks the label at rank `k + 1`. */
  predicate RankFacts(k: nat)
    requires k < 56
  {
    && Rank(ByRank(k)) == k
    && (k + 1 < 56 ==> Outranks(Spelling(ByRank(k)), Spelling(ByRank(k + 1))))
  }

  lemma LongestRanks() ensures forall k | 0 <= k < 6 :: RankFacts(k) { }
  lemma SevenByteRanks() ensures forall k | 6 <= k < 8 :: RankFacts(k) { }
  lemma SixByteRanks() ensures forall k | 8 <= k < 14 :: RankFacts(k) { }
  lemma FiveByteRanks() ensures forall k | 14 <= k < 25 :: RankFacts(k) { }
  lemma FourByteRanks() ensures forall k | 25 <= k < 35 :: RankFacts(k) { }
  lemma ThreeByteRanks() ensures forall k | 35 <= k < 43 :: RankFacts(k) { }
  lemma TwoByteRanks() ensures forall k | 43 <= k < 50 :: RankFacts(k) { }
  lemma OneByteRanks() ensures forall k | 50 <= k < 56 :: RankFacts(k) { }

  lemma AllRanks()
    ensures forall k | 0 <= k < 56 :: RankFacts(k)
  {
    LongestRanks();
    SevenByteRanks();
    SixByteRanks();
    FiveByteRanks();
    FourByteRanks();
    ThreeByteRanks();
    TwoByteRanks();
    OneByteRanks();
  }

  /** In a chain where each string outranks the next, every string outranks all later ones. */
  lemma {:induction false} ChainDescends(r: seq<seq<byte>>, k: nat, k': nat)
    requires k < k' < |r|
    requires forall j | 0 <= j < |r| - 1 :: Outranks(r[j], r[j + 1])
    ensures Outranks(r[k], r[k'])
    decreases k' - k
  {
    if k + 1 < k' {
      ChainDescends(r, k + 1, k');
      OutranksTransitive(r[k], r[k + 1], r[k']);
    }
  }

  /** Every label outranks all labels of higher rank. */
  lemma RankedDescending()
    ensures forall k, k' | 0 <= k < k' < 56 :: Outranks(Spelling(ByRank(k)), Spelling(ByRank(k')))
  {
    AllRanks();
    var r := seq(56, k requires 0 <= k < 56 => Spelling(ByRank(k)));
    forall j | 0 <= j < 55
      ensures Outranks(r[j], r[j + 1])
    {
      assert RankFacts(j);
    }
    forall k, k' | 0 <= k < k' < 56
      ensures Outranks(Spelling(ByRank(k)), Spelling(ByRank(k')))
    {
      ChainDescends(r, k, k');
    }
  }

  /** No two needles of the table are spelled alike, as `TrieBuilder` demands. */
  lemma DesignatorsDistinct()
    ensures Distinct(Table())
  {
    AllShapes();
    RankedDescending();
    forall i, j | 0 <= i < j < 56
      ensures Spelling(i) != Spelling(j)
    {
      assert ByRank(Rank(i)) == i && ByRank(Rank(j)) == j;
      if Rank(i) < Rank(j) {
        assert Outranks(Spelling(ByRank(Rank(i))), Spelling(ByRank(Rank(j))));
      } else {
        assert Outranks(Spelling(ByRank(Rank(j))), Spelling(ByRank(Rank(i))));
      }
      OutranksIrreflexive(Spelling(i));
    }
  }
}
