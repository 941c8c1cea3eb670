/**
 * What the renumbering pass of `trie5`'s `Trie::new` computes, in closed
 * form. Node index `k` of the insertion phase becomes node index
 * `Sigma(k)`: FAIL keeps 0, the accepting nodes take 1, 2, … in index
 * order, and the other nodes follow them in index order. Each node's row
 * moves with it, and `old_to_new` maps the id of `k` to the id of `Sigma(k)`.
 */
module Trie5Renumber {
  import opened Wrappers
  import Alphabet
  import opened Trie5

  /** Slot `x` of `s`, or FAIL past its end. */
  ghost function Entry(s: seq<nat>, x: nat): nat {
    if x < |s| then s[x] else FAIL
  }

  /** Transition `c` of node index `j` in the flat array `s`. */
  ghost function At(s: seq<nat>, j: nat, c: nat, A: nat): nat {
    Entry(s, Id(j, A) + c)
  }

  /** The value at slot `x` of `s`, or None past its end. */
  ghost function MatchAt<V>(s: seq<V>, x: nat): Option<V> {
    if x < |s| then Some(s[x]) else None
  }

  // ---------------------------------------------------------------------
  // Counting accepting nodes
  // ---------------------------------------------------------------------

  /** Counting over `lo..hi` is counting over `lo..mid` and then `mid..hi`. */
  lemma {:induction false} CountJoin<V>(b: Builder<V>, A: nat, lo: nat, mid: nat, hi: nat, acc: bool)
    requires lo <= mid <= hi
    ensures Count(b, A, lo, hi, acc) == Count(b, A, lo, mid, acc) + Count(b, A, mid, hi, acc)
    decreases mid - lo
  {
    if lo < mid {
      CountJoin(b, A, lo + 1, mid, hi, acc);
    }
  }

  /** Extending the range by one index counts that index. */
  lemma {:induction false} CountLast<V>(b: Builder<V>, A: nat, lo: nat, hi: nat, acc: bool)
    requires lo <= hi
    ensures Count(b, A, lo, hi + 1, acc) == Count(b, A, lo, hi, acc) + (if Accepts(b, A, hi) == acc then 1 else 0)
  {
    CountJoin(b, A, lo, hi, hi + 1, acc);
    assert Count(b, A, hi + 1, hi + 1, acc) == 0;
  }

  /** How many node indices accept; FAIL, index 0, never does. */
  ghost function Matched<V>(b: Builder<V>, A: nat): nat
    requires 1 <= b.nodeLen
  {
    Count(b, A, 1, b.nodeLen, true)
  }

  // ---------------------------------------------------------------------
  // The renumbering in closed form
  // ---------------------------------------------------------------------

  /**
   * The new index of node index `k`: an accepting node comes after the
   * accepting nodes before it, any other node after all accepting nodes and
   * the other nodes before it.
   */
  ghost function Sigma<V>(b: Builder<V>, A: nat, k: nat): (j: nat)
    requires k < b.nodeLen
    ensures j < b.nodeLen && (j == 0 <==> k == 0)
  {
    if k == 0 then 0
    else
      CountLast(b, A, 1, k, true);
      CountLast(b, A, 1, k, false);
      CountJoin(b, A, 1, k + 1, b.nodeLen, true);
      CountJoin(b, A, 1, k + 1, b.nodeLen, false);
      CountSplit(b, A, 1, b.nodeLen);
      if Accepts(b, A, k) then 1 + Count(b, A, 1, k, true)
      else 1 + Matched(b, A) + Count(b, A, 1, k, false)
  }

  /** The accepting node indices are exactly those renumbered into `1..Matched`. */
  lemma {:induction false} SigmaAccepting<V>(b: Builder<V>, A: nat, k: nat)
    requires 1 <= k < b.nodeLen
    ensures Sigma(b, A, k) <= Matched(b, A) <==> Accepts(b, A, k)
  {
    CountLast(b, A, 1, k, true);
    CountJoin(b, A, 1, k + 1, b.nodeLen, true);
  }

  /** Within each group the renumbering keeps the order of the node indices. */
  lemma {:induction false} SigmaOrdered<V>(b: Builder<V>, A: nat, k: nat, k': nat)
    requires 1 <= k < k' < b.nodeLen && Accepts(b, A, k) == Accepts(b, A, k')
    ensures Sigma(b, A, k) < Sigma(b, A, k')
  {
    CountLast(b, A, 1, k, Accepts(b, A, k));
    CountJoin(b, A, 1, k + 1, k', Accepts(b, A, k));
  }

  /** The renumbering is one-to-one. */
  lemma {:induction false} SigmaInjective<V>(b: Builder<V>, A: nat, k: nat, k': nat)
    requires k < b.nodeLen && k' < b.nodeLen && k != k'
    ensures Sigma(b, A, k) != Sigma(b, A, k')
  {
    if k != 0 && k' != 0 {
      SigmaAccepting(b, A, k);
      SigmaAccepting(b, A, k');
      if Accepts(b, A, k) == Accepts(b, A, k') {
        if k < k' {
          SigmaOrdered(b, A, k, k');
        } else {
          SigmaOrdered(b, A, k', k);
        }
      }
    }
  }

  /** Every new index up to the number of accepting nodes in `1..hi` is taken by one of them. */
  lemma {:induction false} AcceptingOnto<V>(b: Builder<V>, A: nat, hi: nat, j: nat) returns (k: nat)
    requires 1 <= hi <= b.nodeLen && 1 <= j <= Count(b, A, 1, hi, true)
    ensures 1 <= k < hi && Accepts(b, A, k) && Sigma(b, A, k) == j
    decreases hi
  {
    CountLast(b, A, 1, hi - 1, true);
    if j <= Count(b, A, 1, hi - 1, true) {
      k := AcceptingOnto(b, A, hi - 1, j);
    } else {
      k := hi - 1;
    }
  }

  /** Every new index past the accepting ones is taken by one of the nodes in `1..hi` that do not accept. */
  lemma {:induction false} OtherOnto<V>(b: Builder<V>, A: nat, hi: nat, j: nat) returns (k: nat)
    requires 1 <= hi <= b.nodeLen && Matched(b, A) < j <= Matched(b, A) + Count(b, A, 1, hi, false)
    ensures 1 <= k < hi && !Accepts(b, A, k) && Sigma(b, A, k) == j
    decreases hi
  {
    CountLast(b, A, 1, hi - 1, false);
    if j <= Matched(b, A) + Count(b, A, 1, hi - 1, false) {
      k := OtherOnto(b, A, hi - 1, j);
    } else {
      k := hi - 1;
    }
  }

  /** The renumbering is onto: with `SigmaInjective`, it permutes the node indices in use. */
  lemma {:induction false} SigmaOnto<V>(b: Builder<V>, A: nat, j: nat) returns (k: nat)
    requires j < b.nodeLen
    ensures k < b.nodeLen && Sigma(b, A, k) == j
  {
    CountSplit(b, A, 1, b.nodeLen);
    if j == 0 {
      k := 0;
    } else if j <= Matched(b, A) {
      k := AcceptingOnto(b, A, b.nodeLen, j);
    } else {
      k := OtherOnto(b, A, b.nodeLen, j);
    }
  }

  /**
   * One iteration of a copy loop: the row at the next new index becomes
   * the row of `oldIndex`, `old_to_new` maps the id of `oldIndex` to that
   * new id, and every other row and entry stays as it was.
   */
  lemma {:induction false} MoveSpec<V>(b: Builder<V>, a: Alphabet.TrieAlphabet, tc: nat, oldIndex: nat, r: Renumbering<V>)
    requires BuilderShaped(b, a, tc) && 1 <= oldIndex < b.nodeLen && 1 <= r.newIndex < b.nodeLen
    requires RenumberingShaped(b, a.len, tc, r)
    ensures forall j, c | 0 <= c < a.len ::
              At(Move(b, a, tc, oldIndex, r).transitions, j, c, a.len) ==
              if j == r.newIndex then At(b.trans, oldIndex, c, a.len) else At(r.transitions, j, c, a.len)
    ensures forall k {:trigger Entry(Move(b, a, tc, oldIndex, r).oldToNew, Id(k, a.len))} ::
              Entry(Move(b, a, tc, oldIndex, r).oldToNew, Id(k, a.len)) ==
              if k == oldIndex then Id(r.newIndex, a.len) else Entry(r.oldToNew, Id(k, a.len))
  {
    var A := a.len;
    IdFits(b.nodeLen, A, tc);
    IdMono(r.newIndex + 1, b.nodeLen, A);
    IdMono(oldIndex + 1, b.nodeLen, A);
    var r' := Move(b, a, tc, oldIndex, r);
    forall j, c | 0 <= c < A
      ensures At(r'.transitions, j, c, A) ==
              if j == r.newIndex then At(b.trans, oldIndex, c, A) else At(r.transitions, j, c, A)
    {
      var x := Id(j, A) + c;
      var newId := Id(r.newIndex, A);
      if j != r.newIndex && newId <= x < newId + A {
        IdRows(j, c, r.newIndex, x - newId, A);
      }
    }
    forall k {:trigger Entry(r'.oldToNew, Id(k, A))}
      ensures Entry(r'.oldToNew, Id(k, A)) == if k == oldIndex then Id(r.newIndex, A) else Entry(r.oldToNew, Id(k, A))
    {
      if k != oldIndex && Id(k, A) == Id(oldIndex, A) {
        IdRows(k, 0, oldIndex, 0, A);
      }
    }
  }

  // ---------------------------------------------------------------------
  // The first copy loop
  // ---------------------------------------------------------------------

  /**
   * The first copy loop has visited the node indices below `upto`: each
   * accepting one has its row, its value and its `old_to_new` entry at its
   * new index, and `max_match_node_id` is the last id handed out.
   */
  ghost predicate MatchedUpTo<V>(b: Builder<V>, a: Alphabet.TrieAlphabet, tc: nat, r: Renumbering<V>, upto: nat)
    requires BuilderShaped(b, a, tc) && 1 <= upto <= b.nodeLen
  {
    var A := a.len;
    && RenumberingShaped(b, A, tc, r)
    && r.newIndex == 1 + Count(b, A, 1, upto, true)
    && r.maxMatch == Id(r.newIndex - 1, A)
    && (forall c | 0 <= c < A :: At(r.transitions, 0, c, A) == FAIL)
    && (forall k {:trigger Entry(r.oldToNew, Id(k, A))} | 0 <= k < b.nodeLen ::
          Entry(r.oldToNew, Id(k, A)) == if 1 <= k < upto && Accepts(b, A, k) then Id(Sigma(b, A, k), A) else FAIL)
    && (forall k, c | 1 <= k < upto && Accepts(b, A, k) && 0 <= c < A ::
          At(r.transitions, Sigma(b, A, k), c, A) == At(b.trans, k, c, A))
    && (forall k {:trigger MatchAt(r.matches, Id(Sigma(b, A, k), A))} | 1 <= k < upto && Accepts(b, A, k) ::
          MatchAt(r.matches, Id(Sigma(b, A, k), A)) == b.matches[Id(k, A)])
  }

  /** An accepting node index that comes before `upto` is renumbered below the next new index. */
  lemma {:induction false} AcceptingBefore<V>(b: Builder<V>, A: nat, k: nat, upto: nat)
    requires 1 <= k < upto <= b.nodeLen && Accepts(b, A, k)
    ensures Sigma(b, A, k) < 1 + Count(b, A, 1, upto, true)
  {
    CountLast(b, A, 1, k, true);
    CountJoin(b, A, 1, k + 1, upto, true);
  }

  /** The first copy loop skips a node that does not accept. */
  lemma {:induction false} MatchedSkip<V>(b: Builder<V>, a: Alphabet.TrieAlphabet, tc: nat, oldIndex: nat, r: Renumbering<V>)
    requires BuilderShaped(b, a, tc) && 1 <= oldIndex < b.nodeLen
    requires MatchedUpTo(b, a, tc, r, oldIndex) && !Accepts(b, a.len, oldIndex)
    ensures MatchedUpTo(b, a, tc, r, oldIndex + 1)
  {
    CountLast(b, a.len, 1, oldIndex, true);
  }

  /** The first copy loop's move keeps the rows placed before and adds the row of `oldIndex`. */
  lemma {:induction false} MatchedMoveRows<V>(b: Builder<V>, a: Alphabet.TrieAlphabet, tc: nat, oldIndex: nat, r: Renumbering<V>)
    requires BuilderShaped(b, a, tc) && 1 <= oldIndex < b.nodeLen && Accepts(b, a.len, oldIndex)
    requires RenumberingShaped(b, a.len, tc, r) && r.newIndex == 1 + Count(b, a.len, 1, oldIndex, true)
    requires forall k, c | 1 <= k < oldIndex && Accepts(b, a.len, k) && 0 <= c < a.len ::
               At(r.transitions, Sigma(b, a.len, k), c, a.len) == At(b.trans, k, c, a.len)
    ensures 1 <= r.newIndex < b.nodeLen
    ensures forall k, c | 1 <= k < oldIndex + 1 && Accepts(b, a.len, k) && 0 <= c < a.len ::
              At(Move(b, a, tc, oldIndex, r).transitions, Sigma(b, a.len, k), c, a.len) == At(b.trans, k, c, a.len)
  {
    var A := a.len;
    CountLast(b, A, 1, oldIndex, true);
    MoveSpec(b, a, tc, oldIndex, r);
    assert Sigma(b, A, oldIndex) == r.newIndex;
    forall k | 1 <= k < oldIndex && Accepts(b, A, k)
      ensures Sigma(b, A, k) != r.newIndex
    {
      AcceptingBefore(b, A, k, oldIndex);
    }
  }

  /** The first copy loop's move keeps the values placed before and records the value of `oldIndex`. */
  lemma {:induction false} MatchedMoveValues<V>(b: Builder<V>, a: Alphabet.TrieAlphabet, tc: nat, oldIndex: nat, r: Renumbering<V>, v: V)
    requires BuilderShaped(b, a, tc) && 1 <= oldIndex < b.nodeLen
    requires Accepts(b, a.len, oldIndex) && b.matches[Id(oldIndex, a.len)] == Some(v)
    requires RenumberingShaped(b, a.len, tc, r) && r.newIndex == 1 + Count(b, a.len, 1, oldIndex, true)
    requires forall k {:trigger MatchAt(r.matches, Id(Sigma(b, a.len, k), a.len))} | 1 <= k < oldIndex && Accepts(b, a.len, k) ::
               MatchAt(r.matches, Id(Sigma(b, a.len, k), a.len)) == b.matches[Id(k, a.len)]
    ensures 1 <= r.newIndex < b.nodeLen && Id(r.newIndex, a.len) < tc
    ensures var moved := Move(b, a, tc, oldIndex, r);
            var matches := moved.matches[Id(r.newIndex, a.len) := v];
            forall k {:trigger MatchAt(matches, Id(Sigma(b, a.len, k), a.len))} | 1 <= k < oldIndex + 1 && Accepts(b, a.len, k) ::
              MatchAt(matches, Id(Sigma(b, a.len, k), a.len)) == b.matches[Id(k, a.len)]
  {
    var A := a.len;
    IdFits(b.nodeLen, A, tc);
    CountLast(b, A, 1, oldIndex, true);
    IdMono(r.newIndex + 1, b.nodeLen, A);
    var matches := Move(b, a, tc, oldIndex, r).matches[Id(r.newIndex, A) := v];
    assert Sigma(b, A, oldIndex) == r.newIndex;
    forall k | 1 <= k < oldIndex + 1 && Accepts(b, A, k)
      ensures MatchAt(matches, Id(Sigma(b, A, k), A)) == b.matches[Id(k, A)]
    {
      if k < oldIndex {
        AcceptingBefore(b, A, k, oldIndex);
        IdMono(Sigma(b, A, k) + 1, r.newIndex, A);
        assert MatchAt(r.matches, Id(Sigma(b, A, k), A)) == b.matches[Id(k, A)];
      }
    }
  }

  /** The first copy loop moves an accepting node to the next new index and records its value there. */
  lemma {:induction false} MatchedMove<V>(b: Builder<V>, a: Alphabet.TrieAlphabet, tc: nat, oldIndex: nat, r: Renumbering<V>, v: V)
    requires BuilderShaped(b, a, tc) && 1 <= oldIndex < b.nodeLen
    requires MatchedUpTo(b, a, tc, r, oldIndex)
    requires Accepts(b, a.len, oldIndex) && b.matches[Id(oldIndex, a.len)] == Some(v)
    ensures 1 <= r.newIndex < b.nodeLen && Id(r.newIndex, a.len) < tc
    ensures var moved := Move(b, a, tc, oldIndex, r);
            MatchedUpTo(b, a, tc, moved.(matches := moved.matches[Id(r.newIndex, a.len) := v],
                                         maxMatch := Id(r.newIndex, a.len)), oldIndex + 1)
  {
    var A := a.len;
    IdFits(b.nodeLen, A, tc);
    CountLast(b, A, 1, oldIndex, true);
    IdMono(1, r.newIndex, A);
    MatchedMoveRows(b, a, tc, oldIndex, r);
    MatchedMoveValues(b, a, tc, oldIndex, r, v);
    MoveSpec(b, a, tc, oldIndex, r);
    assert Sigma(b, A, oldIndex) == r.newIndex;
  }

  /** The first copy loop, from `oldIndex` to the end, places every accepting node. */
  lemma {:induction false} MatchedAll<V>(b: Builder<V>, a: Alphabet.TrieAlphabet, tc: nat, oldIndex: nat, r: Renumbering<V>)
    requires BuilderShaped(b, a, tc) && 1 <= oldIndex <= b.nodeLen
    requires MatchedUpTo(b, a, tc, r, oldIndex)
    ensures 1 <= r.newIndex <= oldIndex
    ensures MatchedUpTo(b, a, tc, PlaceMatched(b, a, tc, oldIndex, r), b.nodeLen)
    decreases b.nodeLen - oldIndex
  {
    if oldIndex < b.nodeLen {
      IdFits(b.nodeLen, a.len, tc);
      IdMono(oldIndex + 1, b.nodeLen, a.len);
      IdMono(r.newIndex + 1, b.nodeLen, a.len);
      match b.matches[Id(oldIndex, a.len)]
      case None =>
        MatchedSkip(b, a, tc, oldIndex, r);
        MatchedAll(b, a, tc, oldIndex + 1, r);
      case Some(v) =>
        MatchedMove(b, a, tc, oldIndex, r, v);
        var newId := Id(r.newIndex, a.len);
        var moved := Move(b, a, tc, oldIndex, r);
        MatchedAll(b, a, tc, oldIndex + 1, moved.(matches := moved.matches[newId := v], maxMatch := newId));
    }
  }

  // ---------------------------------------------------------------------
  // The second copy loop
  // ---------------------------------------------------------------------

  /**
   * The second copy loop has visited the node indices below `upto`: every
   * accepting node, and every other one before `upto`, has its row and its
   * `old_to_new` entry at its new index.
   */
  ghost predicate UnmatchedUpTo<V>(b: Builder<V>, a: Alphabet.TrieAlphabet, tc: nat, r: Renumbering<V>, upto: nat)
    requires BuilderShaped(b, a, tc) && 1 <= upto <= b.nodeLen
  {
    var A := a.len;
    && RenumberingShaped(b, A, tc, r)
    && r.newIndex == 1 + Matched(b, A) + Count(b, A, 1, upto, false)
    && r.maxMatch == Id(Matched(b, A), A)
    && (forall c | 0 <= c < A :: At(r.transitions, 0, c, A) == FAIL)
    && (forall k {:trigger Entry(r.oldToNew, Id(k, A))} | 0 <= k < b.nodeLen ::
          Entry(r.oldToNew, Id(k, A)) == if 1 <= k && (k < upto || Accepts(b, A, k)) then Id(Sigma(b, A, k), A) else FAIL)
    && (forall k, c | 1 <= k < b.nodeLen && (k < upto || Accepts(b, A, k)) && 0 <= c < A ::
          At(r.transitions, Sigma(b, A, k), c, A) == At(b.trans, k, c, A))
    && (forall k {:trigger MatchAt(r.matches, Id(Sigma(b, A, k), A))} | 1 <= k < b.nodeLen && Accepts(b, A, k) ::
          MatchAt(r.matches, Id(Sigma(b, A, k), A)) == b.matches[Id(k, A)])
  }

  /** The end of the first loop is the start of the second. */
  lemma {:induction false} MatchedThenUnmatched<V>(b: Builder<V>, a: Alphabet.TrieAlphabet, tc: nat, r: Renumbering<V>)
    requires BuilderShaped(b, a, tc) && MatchedUpTo(b, a, tc, r, b.nodeLen)
    ensures UnmatchedUpTo(b, a, tc, r, 1)
  {
  }

  /** A node placed by the second loop before `upto`, or an accepting one, is renumbered below the next new index. */
  lemma {:induction false} PlacedBefore<V>(b: Builder<V>, A: nat, k: nat, upto: nat)
    requires 1 <= k < b.nodeLen && 1 <= upto <= b.nodeLen && (k < upto || Accepts(b, A, k))
    ensures Sigma(b, A, k) < 1 + Matched(b, A) + Count(b, A, 1, upto, false)
  {
    if Accepts(b, A, k) {
      SigmaAccepting(b, A, k);
    } else {
      CountLast(b, A, 1, k, false);
      CountJoin(b, A, 1, k + 1, upto, false);
    }
  }

  /** The second copy loop skips an accepting node. */
  lemma {:induction false} UnmatchedSkip<V>(b: Builder<V>, a: Alphabet.TrieAlphabet, tc: nat, oldIndex: nat, r: Renumbering<V>)
    requires BuilderShaped(b, a, tc) && 1 <= oldIndex < b.nodeLen
    requires UnmatchedUpTo(b, a, tc, r, oldIndex) && Accepts(b, a.len, oldIndex)
    ensures UnmatchedUpTo(b, a, tc, r, oldIndex + 1)
  {
    CountLast(b, a.len, 1, oldIndex, false);
  }

  /** The second copy loop's move keeps the rows placed before and adds the row of `oldIndex`. */
  lemma {:induction false} UnmatchedMoveRows<V>(b: Builder<V>, a: Alphabet.TrieAlphabet, tc: nat, oldIndex: nat, r: Renumbering<V>)
    requires BuilderShaped(b, a, tc) && 1 <= oldIndex < b.nodeLen && !Accepts(b, a.len, oldIndex)
    requires RenumberingShaped(b, a.len, tc, r)
    requires r.newIndex == 1 + Matched(b, a.len) + Count(b, a.len, 1, oldIndex, false)
    requires forall k, c | 1 <= k < b.nodeLen && (k < oldIndex || Accepts(b, a.len, k)) && 0 <= c < a.len ::
               At(r.transitions, Sigma(b, a.len, k), c, a.len) == At(b.trans, k, c, a.len)
    ensures 1 <= r.newIndex < b.nodeLen
    ensures forall k, c | 1 <= k < b.nodeLen && (k < oldIndex + 1 || Accepts(b, a.len, k)) && 0 <= c < a.len ::
              At(Move(b, a, tc, oldIndex, r).transitions, Sigma(b, a.len, k), c, a.len) == At(b.trans, k, c, a.len)
  {
    var A := a.len;
    CountLast(b, A, 1, oldIndex, false);
    CountJoin(b, A, 1, oldIndex + 1, b.nodeLen, false);
    CountSplit(b, A, 1, b.nodeLen);
    MoveSpec(b, a, tc, oldIndex, r);
    assert Sigma(b, A, oldIndex) == r.newIndex;
    forall k | 1 <= k < b.nodeLen && (k < oldIndex || Accepts(b, A, k))
      ensures Sigma(b, A, k) != r.newIndex
    {
      PlacedBefore(b, A, k, oldIndex);
    }
  }

  /** The second copy loop moves a node that does not accept to the next new index. */
  lemma {:induction false} UnmatchedMove<V>(b: Builder<V>, a: Alphabet.TrieAlphabet, tc: nat, oldIndex: nat, r: Renumbering<V>)
    requires BuilderShaped(b, a, tc) && 1 <= oldIndex < b.nodeLen
    requires UnmatchedUpTo(b, a, tc, r, oldIndex) && !Accepts(b, a.len, oldIndex)
    ensures 1 <= r.newIndex < b.nodeLen
    ensures UnmatchedUpTo(b, a, tc, Move(b, a, tc, oldIndex, r), oldIndex + 1)
  {
    var A := a.len;
    CountLast(b, A, 1, oldIndex, false);
    UnmatchedMoveRows(b, a, tc, oldIndex, r);
    MoveSpec(b, a, tc, oldIndex, r);
    assert Sigma(b, A, oldIndex) == r.newIndex;
  }

  /** The second copy loop hands out exactly the new indices left: its last one is `node_len - 1`. */
  lemma {:induction false} UnmatchedRoom<V>(b: Builder<V>, A: nat, oldIndex: nat, newIndex: nat)
    requires 1 <= oldIndex <= b.nodeLen && newIndex == 1 + Matched(b, A) + Count(b, A, 1, oldIndex, false)
    ensures newIndex + Count(b, A, oldIndex, b.nodeLen, false) == b.nodeLen
  {
    CountJoin(b, A, 1, oldIndex, b.nodeLen, false);
    CountSplit(b, A, 1, b.nodeLen);
  }

  /** The second copy loop, from `oldIndex` to the end, places every remaining node. */
  lemma {:induction false} UnmatchedAll<V>(b: Builder<V>, a: Alphabet.TrieAlphabet, tc: nat, oldIndex: nat, r: Renumbering<V>)
    requires BuilderShaped(b, a, tc) && 1 <= oldIndex <= b.nodeLen
    requires UnmatchedUpTo(b, a, tc, r, oldIndex)
    ensures 1 <= r.newIndex && r.newIndex + Count(b, a.len, oldIndex, b.nodeLen, false) <= b.nodeLen
    ensures UnmatchedUpTo(b, a, tc, PlaceUnmatched(b, a, tc, oldIndex, r), b.nodeLen)
    decreases b.nodeLen - oldIndex
  {
    UnmatchedRoom(b, a.len, oldIndex, r.newIndex);
    if oldIndex < b.nodeLen {
      IdFits(b.nodeLen, a.len, tc);
      IdMono(oldIndex + 1, b.nodeLen, a.len);
      if b.matches[Id(oldIndex, a.len)].Some? {
        UnmatchedSkip(b, a, tc, oldIndex, r);
        UnmatchedAll(b, a, tc, oldIndex + 1, r);
      } else {
        UnmatchedMove(b, a, tc, oldIndex, r);
        UnmatchedAll(b, a, tc, oldIndex + 1, Move(b, a, tc, oldIndex, r));
      }
    }
  }

  // ---------------------------------------------------------------------
  // The whole pass
  // ---------------------------------------------------------------------

  /**
   * After both copy loops every node index `k` in use sits at `Sigma(k)`:
   * its row is there, `old_to_new` maps its id to the id of `Sigma(k)`, an
   * accepting node's value is stored there, the FAIL row is all FAIL, and
   * `max_match_node_id` is the id of the last accepting node.
   */
  lemma {:induction false} PlacedSpec<V>(b: Builder<V>, a: Alphabet.TrieAlphabet, tc: nat, default: V)
    requires BuilderShaped(b, a, tc)
    ensures var P := Placed(b, a, tc, default);
            && P.maxMatch == Id(Matched(b, a.len), a.len)
            && (forall c | 0 <= c < a.len :: At(P.transitions, 0, c, a.len) == FAIL)
            && (forall k {:trigger Entry(P.oldToNew, Id(k, a.len))} | 0 <= k < b.nodeLen :: Entry(P.oldToNew, Id(k, a.len)) == Id(Sigma(b, a.len, k), a.len))
            && (forall k, c | 1 <= k < b.nodeLen && 0 <= c < a.len ::
                  At(P.transitions, Sigma(b, a.len, k), c, a.len) == At(b.trans, k, c, a.len))
            && (forall k {:trigger MatchAt(P.matches, Id(Sigma(b, a.len, k), a.len))} | 1 <= k < b.nodeLen && Accepts(b, a.len, k) ::
                  MatchAt(P.matches, Id(Sigma(b, a.len, k), a.len)) == b.matches[Id(k, a.len)])
  {
    var A := a.len;
    IdFits(b.nodeLen, A, tc);
    var r0 := Renumbering(Fails(tc), Defaults(tc, default), Fails(tc), FAIL, 1);
    assert MatchedUpTo(b, a, tc, r0, 1);
    MatchedAll(b, a, tc, 1, r0);
    var r1 := PlaceMatched(b, a, tc, 1, r0);
    MatchedThenUnmatched(b, a, tc, r1);
    UnmatchedAll(b, a, tc, 1, r1);
  }

  /**
   * The finished trie: node index `k` of the insertion phase is node
   * `Sigma(k)`, whose transition on class `c` is the renumbered transition of
   * `k`; FAIL's row stays all FAIL; the root is the image of the original
   * root; the accepting nodes are the ids up to `max_match_node_id`, each
   * holding its value.
   */
  lemma {:induction false} RenumberSpec<V>(b: Builder<V>, a: Alphabet.TrieAlphabet, tc: nat, default: V)
    requires BuilderShaped(b, a, tc)
    ensures var T := Renumber(b, a, tc, default);
            var P := Placed(b, a, tc, default);
            && T.maxMatch == Id(Matched(b, a.len), a.len)
            && T.root == Id(Sigma(b, a.len, 1), a.len)
            && (forall c | 0 <= c < a.len :: At(T.transitions, 0, c, a.len) == FAIL)
            && (forall k {:trigger Entry(P.oldToNew, Id(k, a.len))} | 0 <= k < b.nodeLen :: Entry(P.oldToNew, Id(k, a.len)) == Id(Sigma(b, a.len, k), a.len))
            && (forall k, c | 1 <= k < b.nodeLen && 0 <= c < a.len ::
                  At(T.transitions, Sigma(b, a.len, k), c, a.len) == Entry(P.oldToNew, At(b.trans, k, c, a.len)))
            && (forall k {:trigger MatchAt(T.matches, Id(Sigma(b, a.len, k), a.len))} | 1 <= k < b.nodeLen && Accepts(b, a.len, k) ::
                  MatchAt(T.matches, Id(Sigma(b, a.len, k), a.len)) == b.matches[Id(k, a.len)])
  {
    var A := a.len;
    IdFits(b.nodeLen, A, tc);
    IdMono(2, b.nodeLen, A);
    PlacedSpec(b, a, tc, default);
    var T := Renumber(b, a, tc, default);
    var P := Placed(b, a, tc, default);
    assert Entry(P.oldToNew, Id(1, A)) == Id(Sigma(b, A, 1), A);
    assert Entry(P.oldToNew, Id(0, A)) == FAIL;
    forall c | 0 <= c < A
      ensures At(T.transitions, 0, c, A) == FAIL
    {
      assert At(P.transitions, 0, c, A) == FAIL;
    }
    forall k, c | 1 <= k < b.nodeLen && 0 <= c < A
      ensures At(T.transitions, Sigma(b, A, k), c, A) == Entry(P.oldToNew, At(b.trans, k, c, A))
    {
      IdMono(Sigma(b, A, k) + 1, b.nodeLen, A);
      IdMono(k + 1, b.nodeLen, A);
      assert At(P.transitions, Sigma(b, A, k), c, A) == At(b.trans, k, c, A);
    }
  }

  /** Ids keep the order of the node indices. */
  lemma {:induction false} IdOrder(j: nat, j': nat, A: nat)
    requires 1 <= A
    ensures Id(j, A) <= Id(j', A) <==> j <= j'
  {
    if j <= j' {
      IdMono(j, j', A);
    } else {
      IdMono(j' + 1, j, A);
      IdStep(j', A);
    }
  }

  /** No index of `lo..hi` accepts exactly when none is counted. */
  lemma {:induction false} CountNone<V>(b: Builder<V>, A: nat, lo: nat, hi: nat)
    requires lo <= hi
    ensures Count(b, A, lo, hi, true) == 0 <==> forall k | lo <= k < hi :: !Accepts(b, A, k)
    decreases hi - lo
  {
    if lo < hi {
      CountNone(b, A, lo + 1, hi);
    }
  }

  /**
   * The accepting nodes come first: the new id of node index `k` is at most
   * `max_match_node_id` exactly when `k` accepts, and then it holds the
   * value `k` held.
   */
  lemma {:induction false} AcceptingFirst<V>(b: Builder<V>, a: Alphabet.TrieAlphabet, tc: nat, default: V, k: nat)
    requires BuilderShaped(b, a, tc) && 1 <= k < b.nodeLen
    ensures Id(Sigma(b, a.len, k), a.len) <= Renumber(b, a, tc, default).maxMatch <==> Accepts(b, a.len, k)
    ensures Accepts(b, a.len, k) ==>
              MatchAt(Renumber(b, a, tc, default).matches, Id(Sigma(b, a.len, k), a.len)) == b.matches[Id(k, a.len)]
  {
    RenumberSpec(b, a, tc, default);
    SigmaAccepting(b, a.len, k);
    IdOrder(Sigma(b, a.len, k), Matched(b, a.len), a.len);
  }

  /** `max_match_node_id` stays FAIL exactly when no node accepts. */
  lemma {:induction false} NothingAccepts<V>(b: Builder<V>, a: Alphabet.TrieAlphabet, tc: nat, default: V)
    requires BuilderShaped(b, a, tc)
    ensures Renumber(b, a, tc, default).maxMatch == FAIL <==> forall k | 1 <= k < b.nodeLen :: !Accepts(b, a.len, k)
  {
    RenumberSpec(b, a, tc, default);
    CountNone(b, a.len, 1, b.nodeLen);
    IdOrder(Matched(b, a.len), 0, a.len);
  }

  /** A transition `k -c-> k'` of the insertion phase becomes `Sigma(k) -c-> Sigma(k')`. */
  lemma {:induction false} RenumberedStep<V>(b: Builder<V>, a: Alphabet.TrieAlphabet, tc: nat, default: V,
                                            k: nat, c: nat, k': nat)
    requires BuilderShaped(b, a, tc) && k < b.nodeLen && c < a.len && k' < b.nodeLen
    requires At(b.trans, k, c, a.len) == Id(k', a.len)
    requires k == 0 ==> k' == 0
    ensures At(Renumber(b, a, tc, default).transitions, Sigma(b, a.len, k), c, a.len) == Id(Sigma(b, a.len, k'), a.len)
  {
    RenumberSpec(b, a, tc, default);
    if k == 0 {
      assert At(Renumber(b, a, tc, default).transitions, 0, c, a.len) == FAIL;
    } else {
      assert Entry(Placed(b, a, tc, default).oldToNew, Id(k', a.len)) == Id(Sigma(b, a.len, k'), a.len);
    }
  }

  /** FAIL keeps id 0 and its row leads back to FAIL on every class. */
  lemma {:induction false} RenumberedFail<V>(b: Builder<V>, a: Alphabet.TrieAlphabet, tc: nat, default: V)
    requires BuilderShaped(b, a, tc)
    ensures forall c | 0 <= c < a.len :: Renumber(b, a, tc, default).transitions[c] == FAIL
  {
    var T := Renumber(b, a, tc, default);
    RenumberSpec(b, a, tc, default);
    forall c | 0 <= c < a.len
      ensures T.transitions[c] == FAIL
    {
      assert At(T.transitions, 0, c, a.len) == FAIL;
    }
  }
}
