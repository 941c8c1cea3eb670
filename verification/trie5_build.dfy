/**
 * The insertion phase of `trie5` is the insertion loop of `trie3` in another
 * layout: node index `k` of a `trie3` trie with `tc / ALPHABET_LEN` nodes is
 * row `k` of the flat array, and every stored transition is the premultiplied
 * id of the `trie3` transition. Both loops allocate the same node index at
 * the same step and fail in the same way, so what is proved about `trie3`'s
 * construction carries over.
 */
module Trie5Build {
  import opened Wrappers
  import opened Units
  import opened Needles
  import Alphabet
  import Trie3
  import opened Trie5

  /** Slot `k * A + c` of `trans` holds the premultiplied id of transition `c` of node `k`. */
  ghost predicate Rows<V>(trans: seq<nat>, nodes: seq<Trie3.TrieNode<V>>, A: nat) {
    forall k, c | 0 <= k < |nodes| && 0 <= c < A && c < |nodes[k].transitions| && Id(k, A) + c < |trans| ::
      trans[Id(k, A) + c] == Id(nodes[k].transitions[c], A)
  }

  /** Slot `k * A` of `matches` holds the value of node `k`. */
  ghost predicate Values<V>(matches: seq<Option<V>>, nodes: seq<Trie3.TrieNode<V>>, A: nat) {
    forall k {:trigger matches[Id(k, A)]} | 0 <= k < |nodes| && Id(k, A) < |matches| ::
      matches[Id(k, A)] == nodes[k].value
  }

  /** Builder `b` lays out the `trie3` trie `t` row by row. */
  ghost predicate Sim<V>(b: Builder<V>, t: Trie3.Trie<V>, a: Alphabet.TrieAlphabet, tc: nat) {
    && BuilderShaped(b, a, tc)
    && Trie3.Shaped(t) && t.alphabet == a && |t.nodes| == tc / a.len
    && b.nodeLen == t.len && b.maxNeedleLen == t.max
    && Rows(b.trans, t.nodes, a.len) && Values(b.matches, t.nodes, a.len)
  }

  /** Writing one transition in both layouts keeps the rows. */
  lemma {:induction false} RowsSet<V>(trans: seq<nat>, nodes: seq<Trie3.TrieNode<V>>, A: nat, node: nat, c: nat, id: nat)
    requires Rows(trans, nodes, A) && node < |nodes| && c < |nodes[node].transitions| && c < A
    requires Id(node, A) + c < |trans|
    ensures Rows(trans[Id(node, A) + c := Id(id, A)], Trie3.SetTransition(nodes, node, c, id), A)
  {
    var trans' := trans[Id(node, A) + c := Id(id, A)];
    var nodes' := Trie3.SetTransition(nodes, node, c, id);
    forall k, c' | 0 <= k < |nodes'| && 0 <= c' < A && c' < |nodes'[k].transitions| && Id(k, A) + c' < |trans'|
      ensures trans'[Id(k, A) + c'] == Id(nodes'[k].transitions[c'], A)
    {
      if (k != node || c' != c) && c' < A && Id(k, A) + c' == Id(node, A) + c {
        IdRows(k, c', node, c, A);
      }
    }
  }

  /** Row `k` lies inside the capacity when `k` is a node index of the layout. */
  lemma {:induction false} RowInside(k: nat, c: nat, a: nat, tc: nat)
    requires 1 <= a && k < tc / a && c < a
    ensures Id(k, a) + c < tc && Id(k, a) < tc
  {
    IdFits(k + 1, a, tc);
    IdStep(k, a);
  }

  /** Only index 0 has id 0. */
  lemma {:induction false} IdZero(k: nat, a: nat)
    requires 1 <= a
    ensures Id(k, a) == FAIL <==> k == Trie3.FAIL
  {
    if k > 0 {
      IdMono(1, k, a);
    }
  }

  /** The empty builder lays out the empty `trie3` trie. */
  lemma {:induction false} EmptySim<V>(a: Alphabet.TrieAlphabet, tc: nat)
    requires AlphabetShaped(a) && tc <= ID_MAX && 2 <= tc / a.len
    ensures Sim(Empty<V>(tc), Trie3.Empty<V>(tc / a.len, a), a, tc)
  {
    EmptyShaped<V>(a, tc);
    Trie3.EmptyTree<V>(tc / a.len, a);
  }

  /** The slot the inner loop reads holds the laid-out `trie3` transition. */
  lemma {:induction false} SlotSim<V>(b: Builder<V>, t: Trie3.Trie<V>, a: Alphabet.TrieAlphabet, tc: nat, node: nat, byte: byte)
    requires Sim(b, t, a, tc) && 1 <= node < t.len
    ensures var c := a.classes[byte];
            && Id(node, a.len) + c < tc
            && b.trans[Id(node, a.len) + c] == Id(Trie3.Next(t, node, byte), a.len)
            && (b.trans[Id(node, a.len) + c] == FAIL <==> Trie3.Next(t, node, byte) == Trie3.FAIL)
  {
    var c := a.classes[byte];
    RowInside(node, c, a.len, tc);
    IdZero(Trie3.Next(t, node, byte), a.len);
    assert Trie3.RowShaped(t, node);
    assert Trie3.Next(t, node, byte) == t.nodes[node].transitions[c];
  }

  /** Writing a transition leaves every value where it was. */
  lemma {:induction false} ValuesSetTransition<V>(matches: seq<Option<V>>, nodes: seq<Trie3.TrieNode<V>>, A: nat,
                               node: nat, c: nat, id: nat)
    requires Values(matches, nodes, A) && node < |nodes| && c < |nodes[node].transitions|
    ensures Values(matches, Trie3.SetTransition(nodes, node, c, id), A)
  {
    var nodes' := Trie3.SetTransition(nodes, node, c, id);
    forall k {:trigger matches[Id(k, A)]} | 0 <= k < |nodes'| && Id(k, A) < |matches|
      ensures matches[Id(k, A)] == nodes'[k].value
    {
    }
  }

  /** One step of the inner loop keeps the layout: `Follow` does what `Advance` does. */
  lemma {:induction false} AdvanceSim<V>(b: Builder<V>, t: Trie3.Trie<V>, a: Alphabet.TrieAlphabet, tc: nat, node: nat, byte: byte)
    requires Sim(b, t, a, tc) && 1 <= node < t.len
    requires Trie3.Next(t, node, byte) != Trie3.FAIL || t.len < |t.nodes|
    ensures a.len <= Id(node, a.len) && Id(node, a.len) + a.len <= Id(b.nodeLen, a.len)
    ensures Id(node, a.len) + a.classes[byte] < tc
    ensures b.trans[Id(node, a.len) + a.classes[byte]] != FAIL || b.nodeLen < tc / a.len
    ensures var f := Follow(b, a, tc, Id(node, a.len), a.classes[byte]);
            var r := Trie3.Advance(t, node, byte);
            Sim(f.0, r.0, a, tc) && f.1 == Id(r.1, a.len)
  {
    var A := a.len;
    var c := a.classes[byte];
    SlotSim(b, t, a, tc, node, byte);
    var next3 := Trie3.Next(t, node, byte);
    var id3 := if next3 == Trie3.FAIL then t.len else next3;
    assert Trie3.RowShaped(t, node);
    IdMono(1, node, A);
    IdMono(node + 1, b.nodeLen, A);
    IdStep(node, A);
    RowsSet(b.trans, t.nodes, A, node, c, id3);
    ValuesSetTransition(b.matches, t.nodes, A, node, c, id3);
  }

  /**
   * Two outcomes of the inner insertion loops agree: both fail, or both
   * succeed with the layout kept and the same node reached.
   */
  ghost predicate WalksAgree<V>(r5: Result<(Builder<V>, nat), BuildError>, r3: Result<(Trie3.Trie<V>, nat), BuildError>,
                                a: Alphabet.TrieAlphabet, tc: nat) {
    && r5.Success? == r3.Success?
    && (r5.Success? ==> Sim(r5.value.0, r3.value.0, a, tc) && r5.value.1 == Id(r3.value.1, a.len))
  }

  /** The inner insertion loops agree: the same outcome, the layout kept, the needle's node laid out. */
  lemma {:induction false} WalkSim<V>(b: Builder<V>, t: Trie3.Trie<V>, a: Alphabet.TrieAlphabet, tc: nat,
                                     bytes: seq<byte>, k: nat, node: nat)
    requires Sim(b, t, a, tc) && k <= |bytes| && 1 <= node < t.len
    ensures a.len <= Id(node, a.len) && Id(node, a.len) + a.len <= Id(b.nodeLen, a.len)
    ensures WalksAgree(Trie5.Walk(b, a, tc, bytes, k, Id(node, a.len)), Trie3.Walk(t, bytes, k, node), a, tc)
    decreases |bytes| - k
  {
    IdMono(1, node, a.len);
    IdMono(node + 1, b.nodeLen, a.len);
    IdStep(node, a.len);
    if k < |bytes| {
      if Trie3.Next(t, node, bytes[k]) != Trie3.FAIL || t.len < |t.nodes| {
        AdvanceSim(b, t, a, tc, node, bytes[k]);
        var f := Follow(b, a, tc, Id(node, a.len), a.classes[bytes[k]]);
        var r := Trie3.Advance(t, node, bytes[k]);
        WalkSim(f.0, r.0, a, tc, bytes, k + 1, r.1);
      } else {
        SlotSim(b, t, a, tc, node, bytes[k]);
      }
    }
  }

  /** Storing a value in both layouts keeps the rows and the values. */
  lemma {:induction false} SetValueSim<V>(b: Builder<V>, t: Trie3.Trie<V>, a: Alphabet.TrieAlphabet, tc: nat,
                                         node: nat, v: V)
    requires Sim(b, t, a, tc) && 1 <= node < t.len
    ensures Id(node, a.len) < tc
    ensures Sim(b.(matches := b.matches[Id(node, a.len) := Some(v)]),
                t.(nodes := t.nodes[node := t.nodes[node].(value := Some(v))]), a, tc)
  {
    RowInside(node, 0, a.len, tc);
    var b' := b.(matches := b.matches[Id(node, a.len) := Some(v)]);
    var t' := t.(nodes := t.nodes[node := t.nodes[node].(value := Some(v))]);
    forall j | 0 <= j < |t'.nodes| ensures Trie3.RowShaped(t', j) {
      assert Trie3.RowShaped(t, j);
    }
    forall k {:trigger b'.matches[Id(k, a.len)]} | 0 <= k < |t'.nodes| && Id(k, a.len) < |b'.matches|
      ensures b'.matches[Id(k, a.len)] == t'.nodes[k].value
    {
      if k != node && Id(k, a.len) == Id(node, a.len) {
        IdRows(k, 0, node, 0, a.len);
      }
    }
  }

  /** Recording a longer needle length in both keeps the layout. */
  lemma {:induction false} MaxSim<V>(b: Builder<V>, t: Trie3.Trie<V>, a: Alphabet.TrieAlphabet, tc: nat, max: nat)
    requires Sim(b, t, a, tc)
    ensures Sim(b.(maxNeedleLen := max), t.(max := max), a, tc)
  {
    var t' := t.(max := max);
    forall j | 0 <= j < |t'.nodes| ensures Trie3.RowShaped(t', j) {
      assert Trie3.RowShaped(t, j);
    }
  }

  /**
   * Two outcomes of inserting needles agree: the same outcome, the same
   * error, or the layout kept.
   */
  ghost predicate InsertsAgree<V>(r5: Result<Builder<V>, BuildError>, r3: Result<Trie3.Trie<V>, BuildError>,
                                  a: Alphabet.TrieAlphabet, tc: nat) {
    && r5.Success? == r3.Success?
    && (r5.Failure? ==> r5.error == r3.error)
    && (r5.Success? ==> Sim(r5.value, r3.value, a, tc))
  }

  /** Inserting one needle agrees. */
  lemma {:induction false} InsertNeedleSim<V>(b: Builder<V>, t: Trie3.Trie<V>, a: Alphabet.TrieAlphabet, tc: nat,
                                             n: Needle<V>)
    requires Sim(b, t, a, tc)
    ensures InsertsAgree(Trie5.InsertNeedle(b, a, tc, n), Trie3.InsertNeedle(t, n), a, tc)
  {
    var b1 := if |n.bytes| > b.maxNeedleLen then b.(maxNeedleLen := |n.bytes|) else b;
    var t1 := if |n.bytes| > t.max then t.(max := |n.bytes|) else t;
    MaxSim(b, t, a, tc, b1.maxNeedleLen);
    assert b1 == b.(maxNeedleLen := b1.maxNeedleLen) && t1 == t.(max := b1.maxNeedleLen);
    WalkSim(b1, t1, a, tc, n.bytes, 0, Trie3.ROOT);
    assert Id(Trie3.ROOT, a.len) == Id(1, a.len);
    var w5 := Trie5.Walk(b1, a, tc, n.bytes, 0, Id(1, a.len));
    var w3 := Trie3.Walk(t1, n.bytes, 0, Trie3.ROOT);
    if w5.Success? {
      var (b2, node5) := w5.value;
      var (t2, node3) := w3.value;
      RowInside(node3, 0, a.len, tc);
      assert b2.matches[node5] == t2.nodes[node3].value;
      if t2.nodes[node3].value.None? {
        SetValueSim(b2, t2, a, tc, node3, n.value);
      }
    }
  }

  /** The outer insertion loops agree from needle `i` on. */
  lemma {:induction false} InsertAllSim<V>(needles: seq<Needle<V>>, i: nat, b: Builder<V>, t: Trie3.Trie<V>,
                                          a: Alphabet.TrieAlphabet, tc: nat)
    requires Sim(b, t, a, tc) && i <= |needles|
    ensures InsertsAgree(Trie5.InsertAll(needles, i, b, a, tc), Trie3.InsertAll(needles, i, t), a, tc)
    decreases |needles| - i
  {
    if i < |needles| {
      InsertNeedleSim(b, t, a, tc, needles[i]);
      var r5 := Trie5.InsertNeedle(b, a, tc, needles[i]);
      var r3 := Trie3.InsertNeedle(t, needles[i]);
      if r5.Success? {
        InsertAllSim(needles, i + 1, r5.value, r3.value, a, tc);
      }
    }
  }

  /**
   * The insertion phase of `trie5` succeeds exactly when the needles are
   * distinct and their prefixes fit beside FAIL in `tc / ALPHABET_LEN` node
   * rows; it then lays out a `trie3` trie that stores exactly those prefixes
   * and the needles' values.
   */
  lemma {:induction false} BuildSim<V>(needles: seq<Needle<V>>, tc: nat)
      returns (t: Trie3.Trie<V>, ids: map<seq<byte>, nat>)
    requires tc <= ID_MAX && 2 <= tc / Alphabet.New(needles).len
    ensures BuilderShaped(Empty<V>(tc), Alphabet.New(needles), tc)
    ensures var a := Alphabet.New(needles);
            var r := InsertAll(needles, 0, Empty(tc), a, tc);
            && (r.Success? <==> Distinct(needles) && |PrefixSet(needles)| < tc / a.len)
            && (r.Success? ==> Sim(r.value, t, a, tc) && Trie3.Inv(t, ids, PrefixSet(needles), needles, needles))
            && (r.Success? ==> t.max == MaxLen(needles))
            && (r == Failure(DuplicateNeedle) ==> !Distinct(needles))
            && (r == Failure(CapacityExceeded) ==> |PrefixSet(needles)| >= tc / a.len)
  {
    var a := Alphabet.New(needles);
    t := Trie3.Empty<V>(tc / a.len, a);
    EmptySim<V>(a, tc);
    Trie3.EmptyInv<V>(needles, tc / a.len);
    assert needles[..0] == [];
    ids := Trie3.InsertAllInv(needles, 0, t, map[[] := Trie3.ROOT]);
    InsertAllSim(needles, 0, Empty(tc), t, a, tc);
    var r3 := Trie3.InsertAll(needles, 0, t);
    if r3.Success? {
      t := r3.value;
    }
  }
}
