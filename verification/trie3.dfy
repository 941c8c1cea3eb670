/**
 * `trie3::Trie`: a trie over the compressed byte alphabet whose nodes sit in
 * a fixed-capacity array. Node 0 is the dead `FAIL` node, node 1 the root;
 * `find` reports the longest needle that prefixes the haystack.
 *
 * The correctness argument labels every allocated node with the string that
 * leads to it (the ghost map `ids`): the stored strings are exactly the
 * prefixes of the inserted needles, and every transition goes from the node of
 * `p` to the node of `p + [b]`, or to `FAIL` when no needle continues that way.
 */
module Trie3 {
  import opened Wrappers
  import opened Units
  import opened Needles
  import Alphabet

  const FAIL: nat := 0
  const ROOT: nat := 1
  /** `TrieNodeId::MAX`: node ids are `u8`. */
  const ID_MAX: nat := 255

  datatype TrieNode<V> = TrieNode(transitions: seq<nat>, value: Option<V>)

  /** `nodes` has `NODE_CAPACITY` entries, of which `len` are in use. */
  datatype Trie<V> = Trie(nodes: seq<TrieNode<V>>, len: nat, alphabet: Alphabet.TrieAlphabet, max: nat)

  /** Row `k` has one in-range transition per class. */
  predicate RowShaped<V>(t: Trie<V>, k: nat)
    requires k < |t.nodes|
  {
    && |t.nodes[k].transitions| == t.alphabet.len
    && forall c | 0 <= c < t.alphabet.len :: t.nodes[k].transitions[c] < t.len
  }

  /** The array shape every operation relies on to stay in bounds. */
  predicate Shaped<V>(t: Trie<V>) {
    && |t.alphabet.classes| == 256
    && (forall b | 0 <= b < 256 :: t.alphabet.classes[b] < t.alphabet.len)
    && 2 <= t.len <= |t.nodes|
    && forall k | 0 <= k < |t.nodes| :: RowShaped(t, k)
  }

  /** `next`: follow the transition for `b` out of `node`. */
  function Next<V>(t: Trie<V>, node: nat, b: byte): (next: nat)
    requires Shaped(t) && node < |t.nodes|
    ensures next < t.len
  {
    assert RowShaped(t, node);
    t.nodes[node].transitions[t.alphabet.classes[b]]
  }

  /** The nodes with transition `c` of `node` set to `id`. */
  function SetTransition<V>(nodes: seq<TrieNode<V>>, node: nat, c: nat, id: nat): (r: seq<TrieNode<V>>)
    requires node < |nodes| && c < |nodes[node].transitions|
    ensures |r| == |nodes|
    ensures forall k | 0 <= k < |nodes| && k != node :: r[k] == nodes[k]
    ensures r[node].value == nodes[node].value
    ensures |r[node].transitions| == |nodes[node].transitions|
    ensures forall c' | 0 <= c' < |nodes[node].transitions| ::
              r[node].transitions[c'] == if c' == c then id else nodes[node].transitions[c']
  {
    nodes[node := nodes[node].(transitions := nodes[node].transitions[c := id])]
  }

  /**
   * One iteration of the inner insertion loop at `node` on byte `b`: take the
   * transition, allocating the next free node when it leads to FAIL, and
   * (re)write it. Returns the updated trie and the node reached.
   */
  function Advance<V>(t: Trie<V>, node: nat, b: byte): (r: (Trie<V>, nat))
    requires Shaped(t) && 1 <= node < t.len
    requires Next(t, node, b) != FAIL || t.len < |t.nodes|
    ensures Shaped(r.0) && 1 <= r.1 < r.0.len
    ensures |r.0.nodes| == |t.nodes| && r.0.alphabet == t.alphabet && r.0.max == t.max
    ensures r.0.len == if Next(t, node, b) == FAIL then t.len + 1 else t.len
  {
    var c := t.alphabet.classes[b];
    var next := Next(t, node, b);
    var id := if next == FAIL then t.len else next;
    assert RowShaped(t, node);
    var t' := t.(nodes := SetTransition(t.nodes, node, c, id), len := if next == FAIL then t.len + 1 else t.len);
    forall j | 0 <= j < |t'.nodes| ensures RowShaped(t', j) {
      assert RowShaped(t, j);
    }
    (t', id)
  }

  /**
   * The inner insertion loop from byte `k` of `bytes` on, standing at `node`:
   * follow or allocate one node per byte and return the needle's node.
   */
  function Walk<V>(t: Trie<V>, bytes: seq<byte>, k: nat, node: nat): (r: Result<(Trie<V>, nat), BuildError>)
    requires Shaped(t) && k <= |bytes| && 1 <= node < t.len
    ensures r.Success? ==>
              && Shaped(r.value.0) && 1 <= r.value.1 < r.value.0.len
              && |r.value.0.nodes| == |t.nodes| && r.value.0.alphabet == t.alphabet
              && r.value.0.max == t.max && t.len <= r.value.0.len
    ensures r.Failure? ==> r.error == CapacityExceeded
    decreases |bytes| - k
  {
    if k == |bytes| then Success((t, node))
    else if Next(t, node, bytes[k]) == FAIL && t.len >= |t.nodes| then Failure(CapacityExceeded)
    else
      var (t', next) := Advance(t, node, bytes[k]);
      Walk(t', bytes, k + 1, next)
  }

  /** One iteration of the outer insertion loop: insert needle `n`. */
  function InsertNeedle<V>(t: Trie<V>, n: Needle<V>): (r: Result<Trie<V>, BuildError>)
    requires Shaped(t)
    ensures r.Success? ==> Shaped(r.value) && r.value.alphabet == t.alphabet && |r.value.nodes| == |t.nodes|
    ensures r.Failure? ==> r.error == CapacityExceeded || r.error == DuplicateNeedle
  {
    var t1 := if |n.bytes| > t.max then t.(max := |n.bytes|) else t;
    assert forall j | 0 <= j < |t1.nodes| :: RowShaped(t1, j) by {
      forall j | 0 <= j < |t1.nodes| ensures RowShaped(t1, j) {
        assert RowShaped(t, j);
      }
    }
    match Walk(t1, n.bytes, 0, ROOT)
    case Failure(e) => Failure(e)
    case Success((t2, node)) =>
      if t2.nodes[node].value.Some? then Failure(DuplicateNeedle)
      else
        var t3 := t2.(nodes := t2.nodes[node := t2.nodes[node].(value := Some(n.value))]);
        assert forall j | 0 <= j < |t3.nodes| :: RowShaped(t3, j) by {
          forall j | 0 <= j < |t3.nodes| ensures RowShaped(t3, j) {
            assert RowShaped(t2, j);
          }
        }
        Success(t3)
  }

  /** The outer insertion loop from needle `i` on. */
  function InsertAll<V>(needles: seq<Needle<V>>, i: nat, t: Trie<V>): (r: Result<Trie<V>, BuildError>)
    requires Shaped(t) && i <= |needles|
    ensures r.Success? ==> Shaped(r.value) && r.value.alphabet == t.alphabet && |r.value.nodes| == |t.nodes|
    ensures r.Failure? ==> r.error == CapacityExceeded || r.error == DuplicateNeedle
    decreases |needles| - i
  {
    if i == |needles| then Success(t)
    else
      match InsertNeedle(t, needles[i])
      case Failure(e) => Failure(e)
      case Success(t') => InsertAll(needles, i + 1, t')
  }

  /** The trie before any needle: every node dead, `len == 2` (FAIL and root). */
  function Empty<V>(capacity: nat, alphabet: Alphabet.TrieAlphabet): Trie<V> {
    Trie(seq(capacity, _ => TrieNode(seq(alphabet.len, _ => FAIL), None)), 2, alphabet, 0)
  }

  /**
   * `Trie::new`, with `NODE_CAPACITY` and `ALPHABET_LEN` as parameters. The
   * source checks the alphabet length, then the id range, then inserts.
   */
  function New<V>(needles: seq<Needle<V>>, capacity: nat, alphabetLen: nat): (r: Result<Trie<V>, BuildError>)
    ensures r.Success? ==> Shaped(r.value) && |r.value.nodes| == capacity
    ensures r.Success? ==> r.value.alphabet == Alphabet.New(needles) && r.value.alphabet.len == alphabetLen
  {
    var alphabet := Alphabet.New(needles);
    if alphabet.len != alphabetLen then Failure(AlphabetMismatch)
    else if capacity > ID_MAX then Failure(IdOverflow)
    else if capacity < 2 then Failure(CapacityExceeded)
    else
      var t := Empty(capacity, alphabet);
      assert forall j | 0 <= j < |t.nodes| :: RowShaped(t, j);
      InsertAll(needles, 0, t)
  }

  /**
   * Allocation order: a new node always takes the next free id, so every
   * transition leads to FAIL or to a node with a larger id than its source.
   */
  predicate Forward<V>(t: Trie<V>) {
    forall k, c | 0 <= k < |t.nodes| && 0 <= c < |t.nodes[k].transitions| ::
      t.nodes[k].transitions[c] == FAIL || k < t.nodes[k].transitions[c]
  }

  /** Following or allocating one node keeps the allocation order. */
  lemma AdvanceForward<V>(t: Trie<V>, node: nat, b: byte)
    requires Shaped(t) && Forward(t) && 1 <= node < t.len
    requires Next(t, node, b) != FAIL || t.len < |t.nodes|
    ensures Forward(Advance(t, node, b).0)
    ensures Next(t, node, b) == FAIL ==> Advance(t, node, b).1 == t.len
  {
    assert RowShaped(t, node);
  }

  /** The inner insertion loop keeps the allocation order. */
  lemma {:induction false} WalkForward<V>(t: Trie<V>, bytes: seq<byte>, k: nat, node: nat)
    requires Shaped(t) && Forward(t) && k <= |bytes| && 1 <= node < t.len
    ensures Walk(t, bytes, k, node).Success? ==> Forward(Walk(t, bytes, k, node).value.0)
    decreases |bytes| - k
  {
    if k < |bytes| && (Next(t, node, bytes[k]) != FAIL || t.len < |t.nodes|) {
      AdvanceForward(t, node, bytes[k]);
      var (t', next) := Advance(t, node, bytes[k]);
      WalkForward(t', bytes, k + 1, next);
    }
  }

  /** Inserting one needle keeps the allocation order. */
  lemma InsertNeedleForward<V>(t: Trie<V>, n: Needle<V>)
    requires Shaped(t) && Forward(t)
    ensures InsertNeedle(t, n).Success? ==> Forward(InsertNeedle(t, n).value)
  {
    var t1 := if |n.bytes| > t.max then t.(max := |n.bytes|) else t;
    assert forall j | 0 <= j < |t1.nodes| :: RowShaped(t1, j) by {
      forall j | 0 <= j < |t1.nodes| ensures RowShaped(t1, j) {
        assert RowShaped(t, j);
      }
    }
    WalkForward(t1, n.bytes, 0, ROOT);
  }

  /** The outer insertion loop keeps the allocation order. */
  lemma {:induction false} InsertAllForward<V>(needles: seq<Needle<V>>, i: nat, t: Trie<V>)
    requires Shaped(t) && Forward(t) && i <= |needles|
    ensures InsertAll(needles, i, t).Success? ==> Forward(InsertAll(needles, i, t).value)
    decreases |needles| - i
  {
    if i < |needles| {
      InsertNeedleForward(t, needles[i]);
      if InsertNeedle(t, needles[i]).Success? {
        InsertAllForward(needles, i + 1, InsertNeedle(t, needles[i]).value);
      }
    }
  }

  /** In every built trie, each transition leads to FAIL or to a later-allocated node. */
  lemma NewForward<V>(needles: seq<Needle<V>>, capacity: nat, alphabetLen: nat)
    ensures var r := New(needles, capacity, alphabetLen);
            r.Success? ==> Forward(r.value)
  {
    var alphabet := Alphabet.New(needles);
    if alphabet.len == alphabetLen && 2 <= capacity <= ID_MAX {
      EmptyForward<V>(capacity, alphabet);
      InsertAllForward(needles, 0, Empty<V>(capacity, alphabet));
    }
  }

  /** The trie before any needle has only FAIL transitions, so it is in allocation order. */
  lemma EmptyForward<V>(capacity: nat, alphabet: Alphabet.TrieAlphabet)
    requires |alphabet.classes| == 256 && 2 <= capacity
    requires forall b | 0 <= b < 256 :: alphabet.classes[b] < alphabet.len
    ensures Shaped(Empty<V>(capacity, alphabet)) && Forward(Empty<V>(capacity, alphabet))
  {
    var t := Empty<V>(capacity, alphabet);
    assert forall j | 0 <= j < |t.nodes| :: RowShaped(t, j);
  }

  /**
   * The search loop from haystack position `i`, standing at `node`, with the
   * last accepting node seen and the offset just past it in `found`.
   */
  function FindFrom<V>(t: Trie<V>, h: seq<byte>, i: nat, node: nat, found: Option<(nat, nat)>): (r: Option<(nat, nat)>)
    requires Shaped(t) && i <= |h| && node < t.len
    requires found.Some? ==> found.value.0 < t.len && found.value.1 <= i && t.nodes[found.value.0].value.Some?
    ensures r.Some? ==> r.value.0 < t.len && r.value.1 <= |h| && t.nodes[r.value.0].value.Some?
    ensures found.Some? ==> r.Some? && found.value.1 <= r.value.1
    decreases |h| - i
  {
    if i == |h| then found
    else
      var next := Next(t, node, h[i]);
      if next == FAIL then found
      else FindFrom(t, h, i + 1, next, if t.nodes[next].value.Some? then Some((next, i + 1)) else found)
  }

  /** `find`: the value and length of the longest needle prefixing `h`. */
  function Find<V>(t: Trie<V>, h: seq<byte>): (r: Option<(V, nat)>)
    requires Shaped(t)
    ensures r.Some? ==> r.value.1 <= |h|
    ensures t.nodes[ROOT].value.Some? ==> r.Some?
  {
    var found := if t.nodes[ROOT].value.Some? then Some((ROOT, 0)) else None;
    match FindFrom(t, h, 0, ROOT, found)
    case None => None
    case Some((node, offset)) => Some((t.nodes[node].value.value, offset))
  }

  // ---------------------------------------------------------------------
  // The construction invariant
  // ---------------------------------------------------------------------

  /**
   * `ids` labels the allocated nodes: the root is `[]`, and the other labels
   * name the in-use nodes except FAIL, one node per label.
   */
  ghost predicate Keyed<V>(t: Trie<V>, ids: map<seq<byte>, nat>) {
    && [] in ids && ids[[]] == ROOT
    && |ids| == t.len - 1
    && (forall p | p in ids :: 1 <= ids[p] < t.len)
    && (forall p, q | p in ids && q in ids && p != q :: ids[p] != ids[q])
  }

  /** Every transition leads from the node of `p` to the node of `p + [b]`, or to FAIL. */
  ghost predicate Stepping<V>(t: Trie<V>, ids: map<seq<byte>, nat>)
    requires Shaped(t) && Keyed(t, ids)
  {
    forall p, b | p in ids && 0 <= b < 256 ::
      Next(t, ids[p], b) == if p + [b] in ids then ids[p + [b]] else FAIL
  }

  /** FAIL and the unused nodes are dead: no value, every transition to FAIL. */
  ghost predicate Blank<V>(t: Trie<V>) {
    forall k | 0 <= k < |t.nodes| && (k == FAIL || t.len <= k) ::
      && t.nodes[k].value.None?
      && forall c | 0 <= c < |t.nodes[k].transitions| :: t.nodes[k].transitions[c] == FAIL
  }

  /** The trie's structure is exactly the labelled prefix tree `ids`. */
  ghost predicate Tree<V>(t: Trie<V>, ids: map<seq<byte>, nat>) {
    Shaped(t) && Keyed(t, ids) && Stepping(t, ids) && Blank(t)
  }

  /** The node of each label holds what `valued` says about that label. */
  ghost predicate Valued<V>(t: Trie<V>, ids: map<seq<byte>, nat>, valued: seq<Needle<V>>)
    requires Keyed(t, ids) && t.len <= |t.nodes|
  {
    forall p | p in ids :: t.nodes[ids[p]].value == ValueOf(valued, p)
  }

  /**
   * `t` stores exactly the strings `stored`, holds the values of the needles
   * `valued` already inserted, and uses the alphabet of all of `needles`.
   */
  ghost predicate Inv<V>(t: Trie<V>, ids: map<seq<byte>, nat>, stored: set<seq<byte>>,
                         valued: seq<Needle<V>>, needles: seq<Needle<V>>) {
    && Tree(t, ids)
    && t.alphabet == Alphabet.New(needles)
    && ids.Keys == stored
    && Valued(t, ids, valued)
  }

  /** No byte other than `b0` shares its class. */
  predicate OwnClass<V>(t: Trie<V>, b0: byte)
    requires |t.alphabet.classes| == 256
  {
    forall b | 0 <= b < 256 :: t.alphabet.classes[b] == t.alphabet.classes[b0] ==> b == b0
  }

  /** Allocate node `len` as the `b0` child of `node`. */
  function Grow<V>(t: Trie<V>, node: nat, b0: byte): (r: Trie<V>)
    requires Shaped(t) && node < |t.nodes| && t.len < |t.nodes|
    ensures Shaped(r) && r.len == t.len + 1
    ensures |r.nodes| == |t.nodes| && r.alphabet == t.alphabet && r.max == t.max
    ensures forall k | 0 <= k < |t.nodes| :: r.nodes[k].value == t.nodes[k].value
    ensures forall k | 0 <= k < |t.nodes| && k != node :: r.nodes[k] == t.nodes[k]
    ensures forall b | 0 <= b < 256 ::
              Next(r, node, b) == if t.alphabet.classes[b] == t.alphabet.classes[b0] then t.len else Next(t, node, b)
  {
    assert RowShaped(t, node);
    var r := t.(nodes := SetTransition(t.nodes, node, t.alphabet.classes[b0], t.len), len := t.len + 1);
    forall j | 0 <= j < |r.nodes| ensures RowShaped(r, j) {
      assert RowShaped(t, j);
    }
    r
  }

  /** Appending one byte is injective. */
  lemma SnocInjective(p: seq<byte>, b: byte, p0: seq<byte>, b0: byte)
    ensures p + [b] == p0 + [b0] ==> p == p0 && b == b0
  {
    if p + [b] == p0 + [b0] {
      assert p == (p + [b])[..|p|];
      assert p0 == (p0 + [b0])[..|p0|];
      assert b == (p + [b])[|p|];
    }
  }

  /** Labelling the next free node with a new label keeps the labelling. */
  lemma KeyedFresh<V>(t: Trie<V>, ids: map<seq<byte>, nat>, q: seq<byte>, t': Trie<V>)
    requires Keyed(t, ids) && q !in ids && t'.len == t.len + 1
    ensures Keyed(t', ids[q := t.len])
  {
    assert ids[q := t.len].Keys == ids.Keys + {q};
  }

  /** Growing a fresh leaf `p0 + [b0]` keeps every transition on the tree. */
  lemma GrowStepping<V>(t: Trie<V>, ids: map<seq<byte>, nat>, p0: seq<byte>, b0: byte)
    requires Tree(t, ids) && t.len < |t.nodes| && OwnClass(t, b0)
    requires p0 in ids && p0 + [b0] !in ids
    requires forall b | 0 <= b < 256 :: p0 + [b0] + [b] !in ids
    requires Keyed(Grow(t, ids[p0], b0), ids[p0 + [b0] := t.len])
    ensures Stepping(Grow(t, ids[p0], b0), ids[p0 + [b0] := t.len])
  {
    var q := p0 + [b0];
    var node := ids[p0];
    var t' := Grow(t, node, b0);
    var ids' := ids[q := t.len];
    forall p, b | p in ids' && 0 <= b < 256
      ensures Next(t', ids'[p], b) == if p + [b] in ids' then ids'[p + [b]] else FAIL
    {
      if p == q {
        assert p + [b] != q;
        assert RowShaped(t, t.len);
        assert t'.nodes[t.len] == t.nodes[t.len];
      } else if ids[p] == node {
        assert p == p0;
        if t.alphabet.classes[b] != t.alphabet.classes[b0] {
          SnocInjective(p, b, p0, b0);
        }
      } else {
        SnocInjective(p, b, p0, b0);
      }
    }
  }

  /** Growing a fresh leaf `p0 + [b0]` keeps the labelled tree. */
  lemma GrowTree<V>(t: Trie<V>, ids: map<seq<byte>, nat>, p0: seq<byte>, b0: byte)
    requires Tree(t, ids) && t.len < |t.nodes| && OwnClass(t, b0)
    requires p0 in ids && p0 + [b0] !in ids
    requires forall b | 0 <= b < 256 :: p0 + [b0] + [b] !in ids
    ensures Tree(Grow(t, ids[p0], b0), ids[p0 + [b0] := t.len])
  {
    KeyedFresh(t, ids, p0 + [b0], Grow(t, ids[p0], b0));
    GrowStepping(t, ids, p0, b0);
  }

  /** Walking an existing transition changes nothing. */
  lemma FollowSame<V>(t: Trie<V>, node: nat, b0: byte)
    requires Shaped(t) && 1 <= node < t.len && Next(t, node, b0) != FAIL
    ensures Advance(t, node, b0) == (t, Next(t, node, b0))
  {
    assert RowShaped(t, node);
    var c := t.alphabet.classes[b0];
    assert t.nodes[node].transitions[c := t.nodes[node].transitions[c]] == t.nodes[node].transitions;
    assert SetTransition(t.nodes, node, c, Next(t, node, b0)) == t.nodes;
  }

  /**
   * One step of the inner insertion loop on the labelled tree: follow the
   * transition for `b0` out of the node of `p0`, allocating the node of
   * `p0 + [b0]` when there is none yet.
   */
  lemma StepTree<V>(t: Trie<V>, ids: map<seq<byte>, nat>, p0: seq<byte>, b0: byte)
      returns (t': Trie<V>, ids': map<seq<byte>, nat>)
    requires Tree(t, ids) && p0 in ids && OwnClass(t, b0)
    requires Next(t, ids[p0], b0) != FAIL || t.len < |t.nodes|
    requires p0 + [b0] !in ids ==> forall b | 0 <= b < 256 :: p0 + [b0] + [b] !in ids
    ensures Tree(t', ids') && ids'.Keys == ids.Keys + {p0 + [b0]}
    ensures forall p | p in ids :: ids'[p] == ids[p] && t'.nodes[ids[p]].value == t.nodes[ids[p]].value
    ensures p0 + [b0] !in ids ==> t'.nodes[ids'[p0 + [b0]]].value.None?
    ensures t'.alphabet == t.alphabet && t'.max == t.max && |t'.nodes| == |t.nodes|
    ensures (t', ids'[p0 + [b0]]) == Advance(t, ids[p0], b0)
  {
    var node := ids[p0];
    assert RowShaped(t, node);
    if Next(t, node, b0) != FAIL {
      FollowSame(t, node, b0);
      t', ids' := t, ids;
    } else {
      GrowTree(t, ids, p0, b0);
      t', ids' := Grow(t, node, b0), ids[p0 + [b0] := t.len];
      assert RowShaped(t, t.len);
      assert Advance(t, node, b0).0 == t';
    }
  }

  /** Adding the label `q` to a valued tree keeps it valued when `q` has no value yet. */
  lemma StepValued<V>(t: Trie<V>, ids: map<seq<byte>, nat>, t': Trie<V>, ids': map<seq<byte>, nat>,
                      q: seq<byte>, valued: seq<Needle<V>>)
    requires Keyed(t, ids) && t.len <= |t.nodes| && Valued(t, ids, valued)
    requires Keyed(t', ids') && t'.len <= |t'.nodes|
    requires ids'.Keys == ids.Keys + {q}
    requires forall p | p in ids :: ids'[p] == ids[p] && t'.nodes[ids[p]].value == t.nodes[ids[p]].value
    requires q !in ids ==> t'.nodes[ids'[q]].value.None? && ValueOf(valued, q).None?
    ensures Valued(t', ids', valued)
  {
    forall p | p in ids' ensures t'.nodes[ids'[p]].value == ValueOf(valued, p) {
      if p in ids {
        assert t.nodes[ids[p]].value == ValueOf(valued, p);
      }
    }
  }

  /** A full trie cannot hold one more label. */
  lemma FullTree<V>(t: Trie<V>, ids: map<seq<byte>, nat>, q: seq<byte>, needed: set<seq<byte>>)
    requires Keyed(t, ids) && |t.nodes| <= t.len && q !in ids && ids.Keys + {q} <= needed
    ensures |t.nodes| <= |needed|
  {
    SubsetCard(ids.Keys + {q}, needed);
  }

  /** The strings stored while needle `i` is inserted up to byte `k`. */
  ghost function Partial<V>(needles: seq<Needle<V>>, i: nat, k: nat): set<seq<byte>>
    requires i < |needles| && k <= |needles[i].bytes|
  {
    PrefixSet(needles[..i]) + Prefixes(needles[i].bytes[..k])
  }

  /** Everything stored mid-insertion is a prefix of one of the first `i + 1` needles. */
  lemma PartialWithin<V>(needles: seq<Needle<V>>, i: nat, k: nat)
    requires i < |needles| && k <= |needles[i].bytes|
    ensures Partial(needles, i, k) <= PrefixSet(needles[..i + 1])
    ensures Partial(needles, i, |needles[i].bytes|) == PrefixSet(needles[..i + 1])
  {
    assert needles[..i + 1] == needles[..i] + [needles[i]];
    assert needles[..i + 1][..i] == needles[..i];
  }

  /**
   * While needle `i` is inserted up to byte `k`, the next prefix is the only
   * new string, and nothing extends it yet.
   */
  lemma PartialStep<V>(needles: seq<Needle<V>>, i: nat, k: nat)
    requires i < |needles| && k < |needles[i].bytes|
    ensures var q := needles[i].bytes[..k + 1];
            && q == needles[i].bytes[..k] + [needles[i].bytes[k]]
            && Partial(needles, i, k + 1) == Partial(needles, i, k) + {q}
            && (q !in Partial(needles, i, k) ==>
                  && ValueOf(needles[..i], q).None?
                  && forall b | 0 <= b < 256 :: q + [b] !in Partial(needles, i, k))
  {
    var bytes := needles[i].bytes;
    var q := bytes[..k + 1];
    assert q == bytes[..k] + [bytes[k]];
    assert Prefixes(bytes[..k + 1]) == Prefixes(bytes[..k]) + {q} by {
      forall p | p in Prefixes(bytes[..k + 1]) ensures p in Prefixes(bytes[..k]) + {q} {
        assert p == bytes[..k + 1][..|p|];
        if |p| <= k {
          assert p == bytes[..k][..|p|];
        } else {
          assert p == q;
        }
      }
    }
    if q !in Partial(needles, i, k) {
      ValueOfSpec(needles[..i], q);
      forall b | 0 <= b < 256 ensures q + [b] !in Partial(needles, i, k) {
        assert (q + [b])[..|q|] == q;
        if q + [b] in PrefixSet(needles[..i]) {
          PrefixSetClosed(needles[..i], q + [b], |q|);
        }
      }
    }
  }

  /** One step of the inner insertion loop keeps the invariant. */
  lemma WalkStep<V>(needles: seq<Needle<V>>, i: nat, k: nat, t: Trie<V>, ids: map<seq<byte>, nat>)
      returns (t': Trie<V>, ids': map<seq<byte>, nat>)
    requires i < |needles| && k < |needles[i].bytes|
    requires Inv(t, ids, Partial(needles, i, k), needles[..i], needles)
    requires needles[i].bytes[..k] in ids
    requires Next(t, ids[needles[i].bytes[..k]], needles[i].bytes[k]) != FAIL || t.len < |t.nodes|
    ensures Inv(t', ids', Partial(needles, i, k + 1), needles[..i], needles)
    ensures needles[i].bytes[..k + 1] in ids'
    ensures (t', ids'[needles[i].bytes[..k + 1]]) == Advance(t, ids[needles[i].bytes[..k]], needles[i].bytes[k])
  {
    var bytes := needles[i].bytes;
    PartialStep(needles, i, k);
    assert Alphabet.Occurs(needles, bytes[k]) by {
      assert bytes[k] in needles[i].bytes;
    }
    t', ids' := StepTree(t, ids, bytes[..k], bytes[k]);
    StepValued(t, ids, t', ids', bytes[..k + 1], needles[..i]);
  }

  /**
   * The inner insertion loop from byte `k` on: it stores the whole needle and
   * returns the needle's node, or runs out of nodes only when the first
   * `i + 1` needles need at least `capacity` of them.
   */
  lemma {:induction false} WalkInv<V>(needles: seq<Needle<V>>, i: nat, k: nat, t: Trie<V>,
                                     ids: map<seq<byte>, nat>)
      returns (ids': map<seq<byte>, nat>)
    requires i < |needles| && k <= |needles[i].bytes|
    requires Inv(t, ids, Partial(needles, i, k), needles[..i], needles)
    requires needles[i].bytes[..k] in ids
    ensures var r := Walk(t, needles[i].bytes, k, ids[needles[i].bytes[..k]]);
            && (r.Success? ==>
                  && Inv(r.value.0, ids', PrefixSet(needles[..i + 1]), needles[..i], needles)
                  && needles[i].bytes in ids' && r.value.1 == ids'[needles[i].bytes])
            && (r.Failure? ==> |PrefixSet(needles[..i + 1])| >= |t.nodes|)
    decreases |needles[i].bytes| - k
  {
    var bytes := needles[i].bytes;
    PartialWithin(needles, i, k);
    if k == |bytes| {
      assert bytes[..k] == bytes;
      ids' := ids;
    } else {
      var node := ids[bytes[..k]];
      var next := Next(t, node, bytes[k]);
      if next == FAIL && t.len >= |t.nodes| {
        var q := bytes[..k + 1];
        PartialStep(needles, i, k);
        PartialWithin(needles, i, k + 1);
        assert q !in ids;
        FullTree(t, ids, q, PrefixSet(needles[..i + 1]));
        ids' := ids;
      } else {
        var t1, ids1 := WalkStep(needles, i, k, t, ids);
        ids' := WalkInv(needles, i, k + 1, t1, ids1);
      }
    }
  }

  /** The prefixes of the first needles are among the prefixes of all of them. */
  lemma PrefixSetTake<V>(needles: seq<Needle<V>>, i: nat)
    requires i <= |needles|
    ensures PrefixSet(needles[..i]) <= PrefixSet(needles)
    ensures |PrefixSet(needles[..i])| <= |PrefixSet(needles)|
  {
    forall p | p in PrefixSet(needles[..i]) ensures p in PrefixSet(needles) {
      if p != [] {
        var j :| 0 <= j < i && p <= needles[..i][j].bytes;
        assert needles[..i][j] == needles[j];
      }
    }
    SubsetCard(PrefixSet(needles[..i]), PrefixSet(needles));
  }

  /** The recorded maximum needle length plays no part in the tree. */
  lemma MaxTree<V>(t: Trie<V>, ids: map<seq<byte>, nat>, max: nat)
    requires Tree(t, ids)
    ensures Tree(t.(max := max), ids)
  {
    var t' := t.(max := max);
    forall j | 0 <= j < |t'.nodes| ensures RowShaped(t', j) {
      assert RowShaped(t, j);
    }
    assert Stepping(t', ids) by {
      forall p, b | p in ids && 0 <= b < 256 ensures Next(t', ids[p], b) == Next(t, ids[p], b) {
      }
    }
  }

  /** Setting the value of a labelled node keeps the labelled tree. */
  lemma SetValueTree<V>(t: Trie<V>, ids: map<seq<byte>, nat>, node: nat, v: V)
    requires Tree(t, ids) && 1 <= node < t.len
    ensures Tree(t.(nodes := t.nodes[node := t.nodes[node].(value := Some(v))]), ids)
  {
    var t' := t.(nodes := t.nodes[node := t.nodes[node].(value := Some(v))]);
    forall j | 0 <= j < |t'.nodes| ensures RowShaped(t', j) {
      assert RowShaped(t, j);
    }
    assert Stepping(t', ids) by {
      forall p, b | p in ids && 0 <= b < 256 ensures Next(t', ids[p], b) == Next(t, ids[p], b) {
      }
    }
  }

  /** Storing needle `i`'s value at its node extends the invariant to `needles[..i + 1]`. */
  lemma StoreValue<V>(needles: seq<Needle<V>>, i: nat, t: Trie<V>, ids: map<seq<byte>, nat>)
    requires i < |needles|
    requires Inv(t, ids, PrefixSet(needles[..i + 1]), needles[..i], needles)
    requires needles[i].bytes in ids && t.nodes[ids[needles[i].bytes]].value.None?
    ensures var node := ids[needles[i].bytes];
            Inv(t.(nodes := t.nodes[node := t.nodes[node].(value := Some(needles[i].value))]),
                ids, PrefixSet(needles[..i + 1]), needles[..i + 1], needles)
  {
    var n := needles[i];
    var node := ids[n.bytes];
    var t' := t.(nodes := t.nodes[node := t.nodes[node].(value := Some(n.value))]);
    TakeSnoc(needles, i);
    SetValueTree(t, ids, node, n.value);
    forall p | p in ids ensures t'.nodes[ids[p]].value == ValueOf(needles[..i + 1], p) {
      ValueOfSnoc(needles[..i], n, p);
    }
  }

  /** Recording a maximum keeps the invariant. */
  lemma MaxInv<V>(t: Trie<V>, ids: map<seq<byte>, nat>, stored: set<seq<byte>>,
                  valued: seq<Needle<V>>, needles: seq<Needle<V>>, max: nat)
    requires Inv(t, ids, stored, valued, needles)
    ensures Inv(t.(max := max), ids, stored, valued, needles)
  {
    MaxTree(t, ids, max);
    assert t.(max := max).nodes == t.nodes;
  }

  /** Insertion of needle `i` starts from the root, with nothing of it stored yet. */
  lemma BeginNeedle<V>(needles: seq<Needle<V>>, i: nat)
    requires i < |needles|
    ensures Partial(needles, i, 0) == PrefixSet(needles[..i])
    ensures needles[i].bytes[..0] == []
    ensures MaxLen(needles[..i + 1])
            == if |needles[i].bytes| > MaxLen(needles[..i]) then |needles[i].bytes| else MaxLen(needles[..i])
  {
    TakeSnoc(needles, i);
    EmptyPrefix(needles[i].bytes);
  }

  /**
   * Inserting needle `i` succeeds exactly when its string is new and the
   * prefixes of the first `i + 1` needles fit beside FAIL; the trie then
   * stores those prefixes and values.
   */
  lemma InsertNeedleInv<V>(needles: seq<Needle<V>>, i: nat, t: Trie<V>, ids: map<seq<byte>, nat>)
      returns (ids': map<seq<byte>, nat>)
    requires i < |needles|
    requires Inv(t, ids, PrefixSet(needles[..i]), needles[..i], needles) && t.max == MaxLen(needles[..i])
    ensures var r := InsertNeedle(t, needles[i]);
            && (r.Success? <==>
                  ValueOf(needles[..i], needles[i].bytes).None? && |PrefixSet(needles[..i + 1])| < |t.nodes|)
            && (r.Success? ==>
                  && Inv(r.value, ids', PrefixSet(needles[..i + 1]), needles[..i + 1], needles)
                  && r.value.max == MaxLen(needles[..i + 1]))
            && (r == Failure(DuplicateNeedle) ==> ValueOf(needles[..i], needles[i].bytes).Some?)
            && (r == Failure(CapacityExceeded) ==> |PrefixSet(needles[..i + 1])| >= |t.nodes|)
  {
    ids' := ids;
    var n := needles[i];
    var t1 := if |n.bytes| > t.max then t.(max := |n.bytes|) else t;
    BeginNeedle(needles, i);
    MaxInv(t, ids, Partial(needles, i, 0), needles[..i], needles, t1.max);
    assert t1 == t.(max := t1.max);
    var ids2 := WalkInv(needles, i, 0, t1, ids);
    match Walk(t1, n.bytes, 0, ROOT)
    case Failure(e) => {}
    case Success((t2, node)) => {
      assert |ids2| == t2.len - 1 && t2.len <= |t2.nodes|;
      if t2.nodes[node].value.None? {
        StoreValue(needles, i, t2, ids2);
        ids' := ids2;
      }
    }
  }

  /**
   * The outer insertion loop from needle `i` on succeeds exactly when the
   * needles are distinct and their prefixes fit beside FAIL in the capacity,
   * and then the trie stores exactly those prefixes and values.
   */
  lemma {:induction false} InsertAllInv<V>(needles: seq<Needle<V>>, i: nat, t: Trie<V>,
                                          ids: map<seq<byte>, nat>)
      returns (ids': map<seq<byte>, nat>)
    requires i <= |needles| && Distinct(needles[..i])
    requires Inv(t, ids, PrefixSet(needles[..i]), needles[..i], needles) && t.max == MaxLen(needles[..i])
    ensures var r := InsertAll(needles, i, t);
            && (r.Success? <==> Distinct(needles) && |PrefixSet(needles)| < |t.nodes|)
            && (r.Success? ==> Inv(r.value, ids', PrefixSet(needles), needles, needles))
            && (r.Success? ==> r.value.max == MaxLen(needles))
            && (r == Failure(DuplicateNeedle) ==> !Distinct(needles))
            && (r == Failure(CapacityExceeded) ==> |PrefixSet(needles)| >= |t.nodes|)
    decreases |needles| - i
  {
    if i == |needles| {
      assert needles[..i] == needles;
      assert |PrefixSet(needles)| == |ids| < |t.nodes|;
      ids' := ids;
    } else {
      ids' := ids;
      TakeSnoc(needles, i);
      PrefixSetTake(needles, i + 1);
      var ids2 := InsertNeedleInv(needles, i, t, ids);
      var r1 := InsertNeedle(t, needles[i]);
      DistinctStep(needles, i);
      if r1.Success? {
        ids' := InsertAllInv(needles, i + 1, r1.value, ids2);
      } else if Distinct(needles) {
        DistinctTake(needles, i + 1);
      }
    }
  }

  // ---------------------------------------------------------------------
  // What construction and search achieve
  // ---------------------------------------------------------------------

  /** `t` is a trie for `needles`: its labelled nodes are exactly their prefixes. */
  ghost predicate Built<V>(t: Trie<V>, needles: seq<Needle<V>>) {
    exists ids :: Inv(t, ids, PrefixSet(needles), needles, needles)
  }

  /** The empty trie is the tree of the root alone. */
  lemma EmptyTree<V>(capacity: nat, alphabet: Alphabet.TrieAlphabet)
    requires 2 <= capacity && |alphabet.classes| == 256
    requires forall b | 0 <= b < 256 :: alphabet.classes[b] < alphabet.len
    ensures Tree(Empty<V>(capacity, alphabet), map[[] := ROOT])
  {
    var t: Trie<V> := Empty(capacity, alphabet);
    var ids := map[[] := ROOT];
    forall j | 0 <= j < |t.nodes| ensures RowShaped(t, j) {
    }
    assert Keyed(t, ids);
    forall p, b | p in ids && 0 <= b < 256
      ensures p + [b] !in ids && Next(t, ids[p], b) == FAIL
    {
      assert p + [b] != [];
    }
    assert Stepping(t, ids);
  }

  /** Before the first needle, the empty trie stores just `[]` without a value. */
  lemma EmptyInv<V>(needles: seq<Needle<V>>, capacity: nat)
    requires 2 <= capacity
    ensures Inv(Empty(capacity, Alphabet.New(needles)), map[[] := ROOT], PrefixSet(needles[..0]), needles[..0], needles)
  {
    var a := Alphabet.New(needles);
    var t: Trie<V> := Empty(capacity, a);
    var ids := map[[] := ROOT];
    EmptyTree<V>(capacity, a);
    EmptyPrefix(needles);
    assert ids.Keys == PrefixSet(needles[..0]);
    assert t.nodes[ROOT].value == None == ValueOf(needles[..0], []);
  }

  /**
   * `Trie::new` succeeds exactly when the alphabet length matches, the
   * capacity is a valid id range of at least two nodes, the needles are
   * distinct, and their prefixes fit beside FAIL. A built trie holds one node
   * per prefix and records the longest needle length.
   */
  lemma NewSpec<V>(needles: seq<Needle<V>>, capacity: nat, alphabetLen: nat)
    ensures var r := New(needles, capacity, alphabetLen);
            && (r.Success? <==>
                  && alphabetLen == Alphabet.New(needles).len && 2 <= capacity <= ID_MAX
                  && Distinct(needles) && 1 + |PrefixSet(needles)| <= capacity)
            && (r.Success? ==>
                  && Built(r.value, needles)
                  && r.value.len == 1 + |PrefixSet(needles)|
                  && r.value.max == MaxLen(needles))
            && (r == Failure(AlphabetMismatch) <==> alphabetLen != Alphabet.New(needles).len)
            && (r == Failure(IdOverflow) <==> alphabetLen == Alphabet.New(needles).len && capacity > ID_MAX)
            && (r == Failure(DuplicateNeedle) ==> !Distinct(needles))
            && (r == Failure(CapacityExceeded) ==> capacity < 2 || capacity <= |PrefixSet(needles)|)
  {
    var alphabet := Alphabet.New(needles);
    if alphabet.len == alphabetLen && 2 <= capacity <= ID_MAX {
      EmptyInv<V>(needles, capacity);
      var t: Trie<V> := Empty(capacity, alphabet);
      assert needles[..0] == [];
      var ids := InsertAllInv(needles, 0, t, map[[] := ROOT]);
      var r := InsertAll(needles, 0, t);
      if r.Success? {
        assert Inv(r.value, ids, PrefixSet(needles), needles, needles);
        assert |ids.Keys| == |ids|;
      }
    }
  }

  /** How a found pair `(node, offset)` reads back as `(value, offset)`. */
  ghost function Resolve<V>(t: Trie<V>, found: Option<(nat, nat)>): Option<(V, nat)>
    requires found.Some? ==> found.value.0 < |t.nodes| && t.nodes[found.value.0].value.Some?
  {
    match found
    case None => None
    case Some((node, offset)) => Some((t.nodes[node].value.value, offset))
  }

  /** No label of a built trie extends a string the trie does not store. */
  lemma BeyondStored<V>(needles: seq<Needle<V>>, h: seq<byte>, i: nat)
    requires i < |h| && h[..i + 1] !in PrefixSet(needles)
    ensures forall m | i < m <= |h| :: ValueOf(needles, h[..m]).None?
  {
    forall m | i < m <= |h| ensures ValueOf(needles, h[..m]).None? {
      ValueOfSpec(needles, h[..m]);
      assert h[..m][..i + 1] == h[..i + 1];
    }
  }

  /**
   * The search loop from position `i`, standing at the node of `h[..i]` with
   * the longest label among `h[..0]..h[..i]` in hand, ends with the longest
   * label prefixing `h`.
   */
  lemma {:induction false} FindFromLongest<V>(t: Trie<V>, ids: map<seq<byte>, nat>, needles: seq<Needle<V>>,
                                             h: seq<byte>, i: nat, found: Option<(nat, nat)>)
    requires Inv(t, ids, PrefixSet(needles), needles, needles)
    requires i <= |h| && h[..i] in ids
    requires found.Some? ==> found.value.0 < t.len && found.value.1 <= i && t.nodes[found.value.0].value.Some?
    requires Resolve(t, found) == LongestWithin(needles, h, i)
    ensures Resolve(t, FindFrom(t, h, i, ids[h[..i]], found)) == LongestPrefix(needles, h)
    decreases |h| - i
  {
    if i == |h| {
      assert h[..i] == h;
    } else {
      var q := h[..i + 1];
      PrefixNext(h, i);
      var next := Next(t, ids[h[..i]], h[i]);
      if next == FAIL {
        BeyondStored(needles, h, i);
        LongestWithinSkip(needles, h, i, |h|);
      } else {
        assert t.nodes[next].value == ValueOf(needles, q);
        var found' := if t.nodes[next].value.Some? then Some((next, i + 1)) else found;
        FindFromLongest(t, ids, needles, h, i + 1, found');
      }
    }
  }

  /** `find` reports the longest needle that prefixes the haystack. */
  lemma FindLongest<V>(t: Trie<V>, needles: seq<Needle<V>>, h: seq<byte>)
    requires Built(t, needles)
    ensures Find(t, h) == LongestPrefix(needles, h)
  {
    var ids :| Inv(t, ids, PrefixSet(needles), needles, needles);
    EmptyPrefix(h);
    var found := if t.nodes[ROOT].value.Some? then Some((ROOT, 0)) else None;
    assert t.nodes[ROOT].value == ValueOf(needles, h[..0]);
    assert Resolve(t, found) == LongestWithin(needles, h, 0);
    FindFromLongest(t, ids, needles, h, 0, found);
    assert Find(t, h) == Resolve(t, FindFrom(t, h, 0, ROOT, found));
  }
}
