/**
 * `trie5::Trie`: a trie whose node ids are premultiplied offsets into one
 * flat transition array of `TRANSITION_CAPACITY` slots. Node index `k` lives
 * at id `k * ALPHABET_LEN`; id 0 is the dead `FAIL` node and the root starts
 * at id `ALPHABET_LEN`. After the needles are inserted, a renumbering pass
 * moves every accepting node before every other node, so that `find`, which
 * consumes the whole haystack, accepts exactly when it ends on a non-FAIL id
 * no larger than `max_match_node_id`.
 *
 * `TRANSITION_CAPACITY` is the parameter `tc`; `NEEDLE_LEN` plays no part in
 * the code and is left out.
 */
module Trie5 {
  import opened Wrappers
  import opened Units
  import opened Needles
  import Alphabet

  /** `FAIL_ID`. */
  const FAIL: nat := 0
  /** `TrieNodeId::MAX`: node ids are `u16`. */
  const ID_MAX: nat := 65535

  /**
   * The premultiplied id of node index `k`, `k * ALPHABET_LEN`, counted one
   * row at a time (see `IdProduct`).
   */
  function Id(k: nat, alphabetLen: nat): nat {
    if k == 0 then 0 else Id(k - 1, alphabetLen) + alphabetLen
  }

  /** The id of node index `k` is `k * ALPHABET_LEN`. */
  lemma {:induction false} IdProduct(k: nat, a: nat)
    ensures Id(k, a) == k * a
  {
    if k > 0 {
      IdProduct(k - 1, a);
    }
  }

  /** The intermediate arrays `trans` and `matches` of the insertion phase, with its counters. */
  datatype Builder<V> = Builder(trans: seq<nat>, matches: seq<Option<V>>, nodeLen: nat, maxNeedleLen: nat)

  /** The finished trie; `root` is `root_node_id` and `maxMatch` is `max_match_node_id`. */
  datatype Trie<V> = Trie(transitions: seq<nat>, matches: seq<V>, alphabet: Alphabet.TrieAlphabet,
                          nodeLen: nat, maxNeedleLen: nat, maxMatch: nat, root: nat)

  // ---------------------------------------------------------------------
  // Premultiplied ids
  // ---------------------------------------------------------------------

  /** The next index's id is one row further. */
  lemma {:induction false} IdStep(k: nat, a: nat)
    ensures Id(k + 1, a) == Id(k, a) + a
  {
  }

  /** Ids grow with the index. */
  lemma {:induction false} IdMono(k: nat, k': nat, a: nat)
    requires k <= k'
    ensures Id(k, a) <= Id(k', a)
    decreases k' - k
  {
    if k < k' {
      IdMono(k, k' - 1, a);
      IdStep(k' - 1, a);
    }
  }

  /** Node indices below `tc / a` keep their whole row inside `tc` slots, and no others do. */
  lemma {:induction false} IdFits(k: nat, a: nat, tc: nat)
    requires 1 <= a
    ensures Id(k, a) <= tc <==> k <= tc / a
  {
    var q := tc / a;
    IdProduct(q, a);
    IdProduct(q + 1, a);
    assert tc == q * a + tc % a;
    if k <= q {
      IdMono(k, q, a);
    } else {
      IdMono(q + 1, k, a);
      IdStep(q, a);
    }
  }

  /** Distinct rows do not overlap: a slot names one node and one class. */
  lemma {:induction false} IdRows(k: nat, c: nat, k': nat, c': nat, a: nat)
    requires c < a && c' < a && Id(k, a) + c == Id(k', a) + c'
    ensures k == k' && c == c'
  {
    if k < k' {
      IdMono(k + 1, k', a);
      IdStep(k, a);
    } else if k' < k {
      IdMono(k' + 1, k, a);
      IdStep(k', a);
    }
  }

  // ---------------------------------------------------------------------
  // Construction, first phase: insertion
  // ---------------------------------------------------------------------

  /** An alphabet whose classes are all below its length. */
  predicate AlphabetShaped(a: Alphabet.TrieAlphabet) {
    && |a.classes| == 256 && 1 <= a.len
    && forall b | 0 <= b < 256 :: a.classes[b] < a.len
  }

  /**
   * The insertion phase stays in bounds: `node_len` node rows fit in the
   * capacity, and every stored id is FAIL or a node id in use whose row fits.
   */
  predicate BuilderShaped<V>(b: Builder<V>, a: Alphabet.TrieAlphabet, tc: nat) {
    && AlphabetShaped(a) && tc <= ID_MAX
    && |b.trans| == tc && |b.matches| == tc
    && 2 <= b.nodeLen <= tc / a.len && Id(b.nodeLen, a.len) <= tc
    && forall x | 0 <= x < tc ::
         (b.trans[x] == FAIL || a.len <= b.trans[x]) && b.trans[x] + a.len <= Id(b.nodeLen, a.len)
  }

  /** `tc` slots holding FAIL. */
  function Fails(n: nat): (r: seq<nat>)
    ensures |r| == n && forall x | 0 <= x < n :: r[x] == FAIL
  {
    seq(n, _ => FAIL)
  }

  /** `tc` empty match slots. */
  function NoMatches<V>(n: nat): (r: seq<Option<V>>)
    ensures |r| == n && forall x | 0 <= x < n :: r[x] == None
  {
    seq(n, _ => None)
  }

  /** `tc` match slots holding `default`. */
  function Defaults<V>(n: nat, default: V): (r: seq<V>)
    ensures |r| == n && forall x | 0 <= x < n :: r[x] == default
  {
    seq(n, _ => default)
  }

  /** The builder before any needle: FAIL and the root allocated, nothing stored. */
  function Empty<V>(tc: nat): Builder<V> {
    Builder(Fails(tc), NoMatches(tc), 2, 0)
  }

  /** The empty builder is in bounds once the capacity holds FAIL and the root. */
  lemma {:induction false} EmptyShaped<V>(a: Alphabet.TrieAlphabet, tc: nat)
    requires AlphabetShaped(a) && tc <= ID_MAX && 2 <= tc / a.len
    ensures BuilderShaped(Empty<V>(tc), a, tc)
  {
    IdFits(2, a.len, tc);
  }

  /**
   * One iteration of the inner insertion loop at id `node` on class `c`:
   * follow the transition, or allocate the next node index when it leads to
   * FAIL, and (re)write it. Returns the builder and the id reached. The new
   * id is below `tc`, so the source's `checked_mul` into `u16` never fails.
   */
  function Follow<V>(b: Builder<V>, a: Alphabet.TrieAlphabet, tc: nat, node: nat, c: nat): (r: (Builder<V>, nat))
    requires BuilderShaped(b, a, tc) && c < a.len
    requires a.len <= node && node + a.len <= Id(b.nodeLen, a.len)
    requires b.trans[node + c] != FAIL || b.nodeLen < tc / a.len
    ensures BuilderShaped(r.0, a, tc) && b.nodeLen <= r.0.nodeLen
    ensures a.len <= r.1 && r.1 + a.len <= Id(r.0.nodeLen, a.len)
    ensures r.0.maxNeedleLen == b.maxNeedleLen && r.0.matches == b.matches
    ensures b.trans[node + c] == FAIL ==> r.1 == Id(b.nodeLen, a.len) < tc <= ID_MAX
  {
    var next := b.trans[node + c];
    var id := if next == FAIL then Id(b.nodeLen, a.len) else next;
    StepShaped(b, a, tc, node, c, next == FAIL);
    (b.(trans := b.trans[node + c := id], nodeLen := if next == FAIL then b.nodeLen + 1 else b.nodeLen), id)
  }

  /**
   * The inner insertion loop from byte `k` of `bytes` on, standing at id
   * `node`; it runs out of room when a transition to FAIL needs a node
   * index beyond the capacity.
   */
  function Walk<V>(b: Builder<V>, a: Alphabet.TrieAlphabet, tc: nat, bytes: seq<byte>, k: nat, node: nat)
    : (r: Result<(Builder<V>, nat), BuildError>)
    requires BuilderShaped(b, a, tc) && k <= |bytes|
    requires a.len <= node && node + a.len <= Id(b.nodeLen, a.len)
    ensures r.Success? ==>
              && BuilderShaped(r.value.0, a, tc) && b.nodeLen <= r.value.0.nodeLen
              && a.len <= r.value.1 && r.value.1 + a.len <= Id(r.value.0.nodeLen, a.len)
              && r.value.0.maxNeedleLen == b.maxNeedleLen && r.value.0.matches == b.matches
    ensures r.Failure? ==> r.error == CapacityExceeded
    decreases |bytes| - k
  {
    if k == |bytes| then Success((b, node))
    else
      var c := a.classes[bytes[k]];
      if b.trans[node + c] == FAIL && b.nodeLen >= tc / a.len then Failure(CapacityExceeded)
      else
        var step := Follow(b, a, tc, node, c);
        Walk(step.0, a, tc, bytes, k + 1, step.1)
  }

  /** One step of the inner loop keeps the bounds. */
  lemma {:induction false} StepShaped<V>(b: Builder<V>, a: Alphabet.TrieAlphabet, tc: nat, node: nat, c: nat, grow: bool)
    requires BuilderShaped(b, a, tc) && c < a.len
    requires a.len <= node && node + a.len <= Id(b.nodeLen, a.len)
    requires grow ==> b.trans[node + c] == FAIL && b.nodeLen < tc / a.len
    requires !grow ==> b.trans[node + c] != FAIL
    ensures grow ==> Id(b.nodeLen, a.len) < tc <= ID_MAX
    ensures var id := if grow then Id(b.nodeLen, a.len) else b.trans[node + c];
            var len' := if grow then b.nodeLen + 1 else b.nodeLen;
            && BuilderShaped(b.(trans := b.trans[node + c := id], nodeLen := len'), a, tc)
            && a.len <= id && id + a.len <= Id(len', a.len)
  {
    var len' := if grow then b.nodeLen + 1 else b.nodeLen;
    IdStep(b.nodeLen, a.len);
    IdFits(b.nodeLen + 1, a.len, tc);
    IdMono(b.nodeLen, len', a.len);
    IdMono(2, b.nodeLen, a.len);
  }

  /** One iteration of the outer insertion loop: insert needle `n` and record its value. */
  function InsertNeedle<V>(b: Builder<V>, a: Alphabet.TrieAlphabet, tc: nat, n: Needle<V>)
    : (r: Result<Builder<V>, BuildError>)
    requires BuilderShaped(b, a, tc)
    ensures r.Success? ==> BuilderShaped(r.value, a, tc) && b.nodeLen <= r.value.nodeLen
    ensures r.Failure? ==> r.error == CapacityExceeded || r.error == DuplicateNeedle
  {
    var b1 := if |n.bytes| > b.maxNeedleLen then b.(maxNeedleLen := |n.bytes|) else b;
    IdMono(2, b.nodeLen, a.len);
    match Walk(b1, a, tc, n.bytes, 0, Id(1, a.len))
    case Failure(e) => Failure(e)
    case Success((b2, node)) =>
      if b2.matches[node].Some? then Failure(DuplicateNeedle)
      else Success(b2.(matches := b2.matches[node := Some(n.value)]))
  }

  /** The outer insertion loop from needle `i` on. */
  function InsertAll<V>(needles: seq<Needle<V>>, i: nat, b: Builder<V>, a: Alphabet.TrieAlphabet, tc: nat)
    : (r: Result<Builder<V>, BuildError>)
    requires BuilderShaped(b, a, tc) && i <= |needles|
    ensures r.Success? ==> BuilderShaped(r.value, a, tc)
    ensures r.Failure? ==> r.error == CapacityExceeded || r.error == DuplicateNeedle
    decreases |needles| - i
  {
    if i == |needles| then Success(b)
    else
      match InsertNeedle(b, a, tc, needles[i])
      case Failure(e) => Failure(e)
      case Success(b') => InsertAll(needles, i + 1, b', a, tc)
  }

  // ---------------------------------------------------------------------
  // Construction, second phase: renumbering
  // ---------------------------------------------------------------------

  /** The arrays of the renumbering pass and the next free node index. */
  datatype Renumbering<V> = Renumbering(transitions: seq<nat>, matches: seq<V>, oldToNew: seq<nat>,
                                        maxMatch: nat, newIndex: nat)

  /** Node index `k` accepts: the insertion phase stored a value at its id. */
  predicate Accepts<V>(b: Builder<V>, a: nat, k: nat) {
    Id(k, a) < |b.matches| && b.matches[Id(k, a)].Some?
  }

  /** How many of the node indices `lo..hi` accept (`acc`) or do not (`!acc`). */
  function Count<V>(b: Builder<V>, a: nat, lo: nat, hi: nat, acc: bool): (n: nat)
    requires lo <= hi
    ensures n <= hi - lo
    decreases hi - lo
  {
    if lo == hi then 0
    else (if Accepts(b, a, lo) == acc then 1 else 0) + Count(b, a, lo + 1, hi, acc)
  }

  /** Every node index either accepts or does not. */
  lemma {:induction false} CountSplit<V>(b: Builder<V>, a: nat, lo: nat, hi: nat)
    requires lo <= hi
    ensures Count(b, a, lo, hi, true) + Count(b, a, lo, hi, false) == hi - lo
    decreases hi - lo
  {
    if lo < hi {
      CountSplit(b, a, lo + 1, hi);
    }
  }

  /** The copy loop over `i`: row `newId` of `dst` takes row `oldId` of `src`. */
  function CopyRow(dst: seq<nat>, src: seq<nat>, newId: nat, oldId: nat, i: nat, a: nat): (r: seq<nat>)
    requires i <= a && newId + a <= |dst| && oldId + a <= |src|
    ensures |r| == |dst|
    ensures forall x | 0 <= x < |dst| ::
              r[x] == if newId + i <= x < newId + a then src[oldId + (x - newId)] else dst[x]
    decreases a - i
  {
    if i == a then dst
    else CopyRow(dst[newId + i := src[oldId + i]], src, newId, oldId, i + 1, a)
  }

  /** The bounds the renumbering pass keeps: every id it stores leaves a full row in `tc` slots. */
  predicate RenumberingShaped<V>(b: Builder<V>, a: nat, tc: nat, r: Renumbering<V>) {
    && |r.transitions| == tc && |r.matches| == tc && |r.oldToNew| == tc
    && (forall x | 0 <= x < tc :: r.transitions[x] + a <= Id(b.nodeLen, a))
    && (forall x | 0 <= x < tc :: r.oldToNew[x] + a <= Id(b.nodeLen, a))
  }

  /**
   * One iteration of either copy loop: node index `oldIndex` gets the next
   * new index, which `old_to_new` records, and its row of transitions.
   */
  function Move<V>(b: Builder<V>, a: Alphabet.TrieAlphabet, tc: nat, oldIndex: nat, r: Renumbering<V>)
    : (r': Renumbering<V>)
    requires BuilderShaped(b, a, tc) && 1 <= oldIndex < b.nodeLen && 1 <= r.newIndex < b.nodeLen
    requires RenumberingShaped(b, a.len, tc, r)
    ensures RenumberingShaped(b, a.len, tc, r')
    ensures r'.newIndex == r.newIndex + 1 && r'.matches == r.matches && r'.maxMatch == r.maxMatch
  {
    IdFits(b.nodeLen, a.len, tc);
    var oldId := Id(oldIndex, a.len);
    var newId := Id(r.newIndex, a.len);
    IdMono(oldIndex + 1, b.nodeLen, a.len);
    IdMono(r.newIndex + 1, b.nodeLen, a.len);
    r.(transitions := CopyRow(r.transitions, b.trans, newId, oldId, 0, a.len),
       oldToNew := r.oldToNew[oldId := newId], newIndex := r.newIndex + 1)
  }

  /**
   * The first copy loop, from node index `oldIndex` on: every accepting node
   * is moved, and its value recorded at its new id, which becomes the
   * largest accepting id so far.
   */
  function PlaceMatched<V>(b: Builder<V>, a: Alphabet.TrieAlphabet, tc: nat, oldIndex: nat, r: Renumbering<V>)
    : (r': Renumbering<V>)
    requires BuilderShaped(b, a, tc) && 1 <= r.newIndex <= oldIndex <= b.nodeLen
    requires RenumberingShaped(b, a.len, tc, r)
    ensures RenumberingShaped(b, a.len, tc, r')
    ensures r'.newIndex == r.newIndex + Count(b, a.len, oldIndex, b.nodeLen, true)
    decreases b.nodeLen - oldIndex
  {
    if oldIndex == b.nodeLen then r
    else
      IdFits(b.nodeLen, a.len, tc);
      IdMono(oldIndex + 1, b.nodeLen, a.len);
      IdMono(r.newIndex + 1, b.nodeLen, a.len);
      match b.matches[Id(oldIndex, a.len)]
      case None => PlaceMatched(b, a, tc, oldIndex + 1, r)
      case Some(v) =>
        var newId := Id(r.newIndex, a.len);
        var moved := Move(b, a, tc, oldIndex, r);
        PlaceMatched(b, a, tc, oldIndex + 1, moved.(matches := moved.matches[newId := v], maxMatch := newId))
  }

  /**
   * The second copy loop, from node index `oldIndex` on: every other node
   * is moved.
   */
  function PlaceUnmatched<V>(b: Builder<V>, a: Alphabet.TrieAlphabet, tc: nat, oldIndex: nat, r: Renumbering<V>)
    : (r': Renumbering<V>)
    requires BuilderShaped(b, a, tc) && 1 <= oldIndex <= b.nodeLen && 1 <= r.newIndex
    requires r.newIndex + Count(b, a.len, oldIndex, b.nodeLen, false) <= b.nodeLen
    requires RenumberingShaped(b, a.len, tc, r)
    ensures RenumberingShaped(b, a.len, tc, r')
    ensures r'.maxMatch == r.maxMatch
    decreases b.nodeLen - oldIndex
  {
    if oldIndex == b.nodeLen then r
    else
      IdFits(b.nodeLen, a.len, tc);
      IdMono(oldIndex + 1, b.nodeLen, a.len);
      if b.matches[Id(oldIndex, a.len)].Some? then PlaceUnmatched(b, a, tc, oldIndex + 1, r)
      else PlaceUnmatched(b, a, tc, oldIndex + 1, Move(b, a, tc, oldIndex, r))
  }

  /** The remapping loop from slot `i` on: every transition goes through `old_to_new`. */
  function Remap(transitions: seq<nat>, oldToNew: seq<nat>, i: nat): (r: seq<nat>)
    requires i <= |transitions|
    requires forall x | 0 <= x < |transitions| :: transitions[x] < |oldToNew|
    requires forall x | 0 <= x < |oldToNew| :: oldToNew[x] < |oldToNew|
    ensures |r| == |transitions|
    ensures forall x | 0 <= x < |r| :: r[x] == if x < i then transitions[x] else oldToNew[transitions[x]]
    decreases |transitions| - i
  {
    if i == |transitions| then transitions
    else Remap(transitions[i := oldToNew[transitions[i]]], oldToNew, i + 1)
  }

  /** The array shape `find` relies on to stay in bounds. */
  predicate Shaped<V>(t: Trie<V>) {
    && AlphabetShaped(t.alphabet)
    && |t.matches| == |t.transitions|
    && t.root + t.alphabet.len <= |t.transitions|
    && forall x | 0 <= x < |t.transitions| :: t.transitions[x] + t.alphabet.len <= |t.transitions|
  }

  /** The two copy loops: accepting nodes first, then the rest, FAIL staying at 0. */
  function Placed<V>(b: Builder<V>, a: Alphabet.TrieAlphabet, tc: nat, default: V): (r: Renumbering<V>)
    requires BuilderShaped(b, a, tc)
    ensures RenumberingShaped(b, a.len, tc, r)
  {
    IdFits(b.nodeLen, a.len, tc);
    var r0 := Renumbering(Fails(tc), Defaults(tc, default), Fails(tc), FAIL, 1);
    var r1 := PlaceMatched(b, a, tc, 1, r0);
    CountSplit(b, a.len, 1, b.nodeLen);
    PlaceUnmatched(b, a, tc, 1, r1)
  }

  /** The renumbering pass: the copy loops, then every transition and the root remapped. */
  function Renumber<V>(b: Builder<V>, a: Alphabet.TrieAlphabet, tc: nat, default: V): (t: Trie<V>)
    requires BuilderShaped(b, a, tc)
    ensures Shaped(t) && |t.transitions| == tc && t.alphabet == a
  {
    IdFits(b.nodeLen, a.len, tc);
    IdMono(2, b.nodeLen, a.len);
    var r := Placed(b, a, tc, default);
    var transitions := Remap(r.transitions, r.oldToNew, 0);
    Trie(transitions, r.matches, a, b.nodeLen, b.maxNeedleLen, r.maxMatch, r.oldToNew[Id(1, a.len)])
  }

  /**
   * `Trie::new`, with `TRANSITION_CAPACITY` and `ALPHABET_LEN` as parameters.
   * The source checks the alphabet length and the id range, then inserts and
   * renumbers. Fewer than two node rows cannot hold FAIL and the root; the
   * source then indexes out of bounds or fails the capacity assertion.
   */
  function New<V>(needles: seq<Needle<V>>, default: V, tc: nat, alphabetLen: nat): (r: Result<Trie<V>, BuildError>)
    ensures r.Success? ==> Shaped(r.value) && |r.value.transitions| == tc
    ensures r.Success? ==> r.value.alphabet == Alphabet.New(needles) && r.value.alphabet.len == alphabetLen
  {
    var a := Alphabet.New(needles);
    if a.len != alphabetLen then Failure(AlphabetMismatch)
    else if tc > ID_MAX then Failure(IdOverflow)
    else if tc / a.len < 2 then Failure(CapacityExceeded)
    else
      EmptyShaped<V>(a, tc);
      match InsertAll(needles, 0, Empty(tc), a, tc)
      case Failure(e) => Failure(e)
      case Success(b) => Success(Renumber(b, a, tc, default))
  }

  // ---------------------------------------------------------------------
  // Search
  // ---------------------------------------------------------------------

  /** The search loop from haystack position `i`, standing at id `node`: consume every byte. */
  function Consume<V>(t: Trie<V>, h: seq<byte>, i: nat, node: nat): (end: nat)
    requires Shaped(t) && i <= |h| && node + t.alphabet.len <= |t.transitions|
    ensures end + t.alphabet.len <= |t.transitions|
    decreases |h| - i
  {
    if i == |h| then node
    else Consume(t, h, i + 1, t.transitions[node + t.alphabet.classes[h[i]]])
  }

  /** `find`: the value of the haystack when it ends on an accepting id. */
  function Find<V>(t: Trie<V>, h: seq<byte>): Option<V>
    requires Shaped(t)
  {
    var node := Consume(t, h, 0, t.root);
    if node <= t.maxMatch && node != FAIL then Some(t.matches[node]) else None
  }
}
