/**
 * How many trie nodes the designator table needs. Most labels repeat the
 * leading bytes of an earlier one, so their prefixes, the empty one
 * included, number only 98: the bound `by_trie3.rs` relies on when it gives
 * the trie 99 nodes, one of them FAIL.
 */
module DesignatorCapacity {
  import opened Units
  import opened Needles
  import opened Designators

  /** The length of the longest common prefix of `a` and `b`, counting on from position `k`. */
  function CommonPrefix(a: seq<byte>, b: seq<byte>, k: nat): nat
    decreases |a| - k
  {
    if k < |a| && k < |b| && a[k] == b[k] then CommonPrefix(a, b, k + 1) else k
  }

  /** From an agreed prefix on, `CommonPrefix` finds a longer agreed prefix that cannot be extended. */
  lemma {:induction false} CommonPrefixSpec(a: seq<byte>, b: seq<byte>, k: nat)
    requires k <= |a| && k <= |b| && a[..k] == b[..k]
    ensures var n := CommonPrefix(a, b, k);
            && k <= n <= |a| && n <= |b| && a[..n] == b[..n]
            && (n < |a| && n < |b| ==> a[n] != b[n])
    decreases |a| - k
  {
    if k < |a| && k < |b| && a[k] == b[k] {
      assert a[..k + 1] == a[..k] + [a[k]] && b[..k + 1] == b[..k] + [b[k]];
      CommonPrefixSpec(a, b, k + 1);
    }
  }

  /**
   * The earlier label that label `i` shares the most leading bytes with:
   * the label before it, except for five labels.
   */
  function SharedWith(i: nat): nat {
    match i
    case 22 => 5    // minutes, after months
    case 32 => 22   // milliseconds, after minutes
    case 39 => 22   // microseconds, after minutes
    case 47 => 43   // us, after usecs
    case 48 => 45   // µs, after µsecs
    case _ => if i == 0 then 0 else i - 1
  }

  /** How many leading bytes label `i` shares with label `SharedWith(i)`. */
  function SharedLen(i: nat): nat {
    match i
    case 1 => 4
    case 2 => 1
    case 3 => 2
    case 4 => 1
    case 6 => 5
    case 7 => 2
    case 8 => 2
    case 10 => 4
    case 11 => 1
    case 12 => 2
    case 13 => 1
    case 15 => 3
    case 16 => 1
    case 18 => 4
    case 19 => 1
    case 20 => 2
    case 21 => 1
    case 22 => 1
    case 23 => 6
    case 24 => 3
    case 25 => 3
    case 26 => 1
    case 28 => 6
    case 29 => 3
    case 30 => 3
    case 31 => 1
    case 32 => 2
    case 33 => 11
    case 34 => 6
    case 35 => 5
    case 36 => 1
    case 37 => 4
    case 38 => 2
    case 39 => 2
    case 40 => 11
    case 41 => 6
    case 42 => 5
    case 44 => 4
    case 46 => 5
    case 47 => 2
    case 48 => 3
    case 50 => 10
    case 51 => 5
    case 52 => 4
    case 53 => 1
    case 54 => 4
    case 55 => 2
    case _ => 0
  }

  /** `SharedLen(i)` is the common prefix of label `i` and label `SharedWith(i)`. */
  predicate SharedLenRight(i: nat)
    requires i < 56
  {
    SharedLen(i) == if i == 0 then 0 else CommonPrefix(Spelling(i), Spelling(SharedWith(i)), 0)
  }

  lemma SharedLenFrom0() ensures forall i | 0 <= i < 4 :: SharedLenRight(i) { }
  lemma SharedLenFrom4() ensures forall i | 4 <= i < 8 :: SharedLenRight(i) { }
  lemma SharedLenFrom8() ensures forall i | 8 <= i < 12 :: SharedLenRight(i) { }
  lemma SharedLenFrom12() ensures forall i | 12 <= i < 16 :: SharedLenRight(i) { }
  lemma SharedLenFrom16() ensures forall i | 16 <= i < 20 :: SharedLenRight(i) { }
  lemma SharedLenFrom20() ensures forall i | 20 <= i < 24 :: SharedLenRight(i) { }
  lemma SharedLenFrom24() ensures forall i | 24 <= i < 28 :: SharedLenRight(i) { }
  lemma SharedLenFrom28() ensures forall i | 28 <= i < 32 :: SharedLenRight(i) { }
  lemma SharedLenFrom32() ensures forall i | 32 <= i < 36 :: SharedLenRight(i) { }
  lemma SharedLenFrom36() ensures forall i | 36 <= i < 40 :: SharedLenRight(i) { }
  lemma SharedLenFrom40()
    ensures forall i | 40 <= i < 44 :: SharedLenRight(i)
  {
    assert SharedLenRight(40);
  }
  lemma SharedLenFrom44() ensures forall i | 44 <= i < 48 :: SharedLenRight(i) { }
  lemma SharedLenFrom48() ensures forall i | 48 <= i < 52 :: SharedLenRight(i) { }
  lemma SharedLenFrom52() ensures forall i | 52 <= i < 56 :: SharedLenRight(i) { }

  /** Every label starts with `SharedLen(i)` bytes of the earlier label `SharedWith(i)`. */
  lemma AllShare()
    ensures forall i | 0 <= i < 56 :: SharesWith(Table(), SharedLen, SharedWith, i)
  {
    SharedLenFrom0();
    SharedLenFrom4();
    SharedLenFrom8();
    SharedLenFrom12();
    SharedLenFrom16();
    SharedLenFrom20();
    SharedLenFrom24();
    SharedLenFrom28();
    SharedLenFrom32();
    SharedLenFrom36();
    SharedLenFrom40();
    SharedLenFrom44();
    SharedLenFrom48();
    SharedLenFrom52();
    forall i | 0 <= i < 56
      ensures SharesWith(Table(), SharedLen, SharedWith, i)
    {
      assert SharedLenRight(i);
      assert Table()[i].bytes == Spelling(i);
      if i > 0 {
        CommonPrefixSpec(Spelling(i), Spelling(SharedWith(i)), 0);
        assert Table()[SharedWith(i)].bytes == Spelling(SharedWith(i));
      }
    }
  }


  /** The bytes of labels `lo` to `hi - 1` beyond their shared prefixes, read off the spellings. */
  function SpelledUnshared(lo: nat, hi: nat): int
    requires lo <= hi <= 56
    decreases hi - lo
  {
    if lo == hi then 0 else |Spelling(lo)| - SharedLen(lo) + SpelledUnshared(lo + 1, hi)
  }

  lemma {:induction false} SpelledUnsharedIs(lo: nat, hi: nat)
    requires lo <= hi <= 56
    ensures Unshared(Table(), SharedLen, lo, hi) == SpelledUnshared(lo, hi)
    decreases hi - lo
  {
    if lo < hi {
      assert Table()[lo].bytes == Spelling(lo);
      SpelledUnsharedIs(lo + 1, hi);
    }
  }

  /** The spelled sum splits at any midpoint. */
  lemma {:induction false} SpelledSplit(lo: nat, mid: nat, hi: nat)
    requires lo <= mid <= hi <= 56
    ensures SpelledUnshared(lo, hi) == SpelledUnshared(lo, mid) + SpelledUnshared(mid, hi)
    decreases mid - lo
  {
    if lo < mid {
      SpelledSplit(lo + 1, mid, hi);
    }
  }

  /** The spelled sum of each block of four labels, evaluated. */
  lemma SpelledBlock0() ensures SpelledUnshared(0, 4) == 7 { }
  lemma SpelledBlock4() ensures SpelledUnshared(4, 8) == 7 { }
  lemma SpelledBlock8() ensures SpelledUnshared(8, 12) == 7 { }
  lemma SpelledBlock12() ensures SpelledUnshared(12, 16) == 4 { }
  lemma SpelledBlock16() ensures SpelledUnshared(16, 20) == 7 { }
  lemma SpelledBlock20() ensures SpelledUnshared(20, 24) == 6 { }
  lemma SpelledBlock24() ensures SpelledUnshared(24, 28) == 8 { }
  lemma SpelledBlock28() ensures SpelledUnshared(28, 32) == 1 { }
  lemma SpelledBlock32() ensures SpelledUnshared(32, 36) == 10 { }
  lemma SpelledBlock36() ensures SpelledUnshared(36, 40) == 14 { }
  lemma SpelledBlock40() ensures SpelledUnshared(40, 44) == 5 { }
  lemma SpelledBlock44() ensures SpelledUnshared(44, 48) == 6 { }
  lemma SpelledBlock48() ensures SpelledUnshared(48, 52) == 11 { }
  lemma SpelledBlock52() ensures SpelledUnshared(52, 56) == 4 { }

  /** The spelled sum over the whole table, assembled from its blocks. */
  lemma SpelledTotal(n: nat)
    requires n == 56
    ensures SpelledUnshared(0, n) == 97
  {
    SpelledBlock0();
    SpelledBlock4();
    SpelledBlock8();
    SpelledBlock12();
    SpelledBlock16();
    SpelledBlock20();
    SpelledBlock24();
    SpelledBlock28();
    SpelledBlock32();
    SpelledBlock36();
    SpelledBlock40();
    SpelledBlock44();
    SpelledBlock48();
    SpelledBlock52();
    SpelledSplit(48, 52, n);
    SpelledSplit(44, 48, n);
    SpelledSplit(40, 44, n);
    SpelledSplit(36, 40, n);
    SpelledSplit(32, 36, n);
    SpelledSplit(28, 32, n);
    SpelledSplit(24, 28, n);
    SpelledSplit(20, 24, n);
    SpelledSplit(16, 20, n);
    SpelledSplit(12, 16, n);
    SpelledSplit(8, 12, n);
    SpelledSplit(4, 8, n);
    SpelledSplit(0, 4, n);
  }

  /** The labels hold 97 bytes beyond their shared prefixes. */
  lemma AllUnshared()
    ensures Unshared(Table(), SharedLen, 0, 56) == 97
  {
    SpelledUnsharedIs(0, 56);
    SpelledTotal(56);
  }

  /**
   * The table's labels have at most 98 distinct prefixes, the empty one
   * included: beside the FAIL node they fit the 99 nodes of `by_trie3.rs`.
   */
  lemma DesignatorsFit()
    ensures |PrefixSet(Table())| <= 98
  {
    AllShare();
    AllUnshared();
    PrefixSetShared(Table(), SharedLen, SharedWith, 56);
    assert Table()[..56] == Table();
  }
}
