/**
 * What `trie5`'s construction and `find` achieve together: `Trie::new`
 * succeeds exactly when the needles are distinct and their nodes fit, and
 * `find` reports a value exactly when the whole haystack is one of the
 * needles. The proof runs the renumbered trie in lock step with the `trie3`
 * trie that the insertion phase lays out.
 */
module Trie5Find {
  import opened Wrappers
  import opened Units
  import opened Needles
  import Alphabet
  import Trie3
  import opened Trie5
  import opened Trie5Build
  import opened Trie5Renumber

  /** The `trie3` node that consuming `h[i..]` from node `k` ends on, FAIL included. */
  ghost function Reach<V>(t: Trie3.Trie<V>, h: seq<byte>, i: nat, k: nat): (r: nat)
    requires Trie3.Shaped(t) && i <= |h| && k < t.len
    ensures r < t.len
    decreases |h| - i
  {
    if i == |h| then k else Reach(t, h, i + 1, Trie3.Next(t, k, h[i]))
  }

  /** A `trie3` walk that reaches FAIL stays there. */
  lemma {:induction false} ReachFail<V>(t: Trie3.Trie<V>, h: seq<byte>, i: nat)
    requires Trie3.Shaped(t) && Trie3.Blank(t) && i <= |h|
    ensures Reach(t, h, i, Trie3.FAIL) == Trie3.FAIL
    decreases |h| - i
  {
    if i < |h| {
      assert Trie3.RowShaped(t, Trie3.FAIL);
      assert Trie3.Next(t, Trie3.FAIL, h[i]) == Trie3.FAIL;
      ReachFail(t, h, i + 1);
    }
  }

  /**
   * In a trie that stores the prefixes of `needles`, the walk from the node
   * of `h[..i]` ends on the node of `h`, or on FAIL when `h` is no prefix.
   */
  lemma {:induction false} ReachIds<V>(t: Trie3.Trie<V>, ids: map<seq<byte>, nat>, needles: seq<Needle<V>>,
                                      h: seq<byte>, i: nat)
    requires Trie3.Inv(t, ids, PrefixSet(needles), needles, needles)
    requires i <= |h| && h[..i] in ids
    ensures Reach(t, h, i, ids[h[..i]]) == if h in ids then ids[h] else Trie3.FAIL
    decreases |h| - i
  {
    if i == |h| {
      assert h[..i] == h;
    } else {
      PrefixNext(h, i);
      assert Trie3.Next(t, ids[h[..i]], h[i]) == if h[..i + 1] in ids then ids[h[..i + 1]] else Trie3.FAIL;
      if h[..i + 1] in ids {
        ReachIds(t, ids, needles, h, i + 1);
      } else {
        ReachFail(t, h, i + 1);
        if h in ids {
          PrefixSetClosed(needles, h, i + 1);
        }
      }
    }
  }

  /** In `trie5`, FAIL is absorbing too: its row leads back to FAIL on every class. */
  lemma {:induction false} ConsumeFail<V>(t: Trie<V>, h: seq<byte>, i: nat)
    requires Shaped(t) && i <= |h|
    requires forall c | 0 <= c < t.alphabet.len :: t.transitions[c] == FAIL
    ensures Consume(t, h, i, FAIL) == FAIL
    decreases |h| - i
  {
    if i < |h| {
      ConsumeFail(t, h, i + 1);
    }
  }

  /** Row `k` of the insertion phase holds the ids of `k`'s `trie3` transitions; FAIL's lead to FAIL. */
  lemma {:induction false} RowAt<V>(b: Builder<V>, t: Trie3.Trie<V>, a: Alphabet.TrieAlphabet, tc: nat, k: nat, byte: byte)
    requires Sim(b, t, a, tc) && Trie3.Blank(t) && k < b.nodeLen
    ensures At(b.trans, k, a.classes[byte], a.len) == Id(Trie3.Next(t, k, byte), a.len)
    ensures k == Trie3.FAIL ==> Trie3.Next(t, k, byte) == Trie3.FAIL
  {
    var c := a.classes[byte];
    assert Trie3.RowShaped(t, k);
    RowInside(k, c, a.len, tc);
    assert b.trans[Id(k, a.len) + c] == Id(Trie3.Next(t, k, byte), a.len);
  }

  /**
   * The renumbered trie consumes in lock step with the `trie3` trie the
   * insertion phase laid out: from the new id of node `k` it ends on the new
   * id of the node the `trie3` walk ends on.
   */
  lemma {:induction false} ConsumeSim<V>(b: Builder<V>, t: Trie3.Trie<V>, a: Alphabet.TrieAlphabet, tc: nat,
                                        default: V, h: seq<byte>, i: nat, k: nat)
    requires Sim(b, t, a, tc) && Trie3.Blank(t) && i <= |h| && k < b.nodeLen
    ensures Id(Sigma(b, a.len, k), a.len) + a.len <= tc
    ensures Consume(Renumber(b, a, tc, default), h, i, Id(Sigma(b, a.len, k), a.len))
            == Id(Sigma(b, a.len, Reach(t, h, i, k)), a.len)
    decreases |h| - i
  {
    var A := a.len;
    IdFits(b.nodeLen, A, tc);
    IdMono(Sigma(b, A, k) + 1, b.nodeLen, A);
    IdStep(Sigma(b, A, k), A);
    if i < |h| {
      var T := Renumber(b, a, tc, default);
      var k' := Trie3.Next(t, k, h[i]);
      StepSim(b, t, a, tc, default, k, h[i]);
      ConsumeStep(T, h, i, Id(Sigma(b, A, k), A));
      ConsumeSim(b, t, a, tc, default, h, i + 1, k');
    }
  }

  /** One byte of `h` moves the new id of node `k` to the new id of its `trie3` successor. */
  lemma StepSim<V>(b: Builder<V>, t: Trie3.Trie<V>, a: Alphabet.TrieAlphabet, tc: nat,
                   default: V, k: nat, byte: byte)
    requires Sim(b, t, a, tc) && Trie3.Blank(t) && k < b.nodeLen
    ensures Trie3.Next(t, k, byte) < b.nodeLen
    ensures Id(Sigma(b, a.len, k), a.len) + a.classes[byte] < tc
    ensures Renumber(b, a, tc, default).transitions[Id(Sigma(b, a.len, k), a.len) + a.classes[byte]]
            == Id(Sigma(b, a.len, Trie3.Next(t, k, byte)), a.len)
  {
    var A := a.len;
    var c := a.classes[byte];
    IdFits(b.nodeLen, A, tc);
    IdMono(Sigma(b, A, k) + 1, b.nodeLen, A);
    IdStep(Sigma(b, A, k), A);
    RowAt(b, t, a, tc, k, byte);
    RenumberedStep(b, a, tc, default, k, c, Trie3.Next(t, k, byte));
  }

  /** `Consume` takes one byte at a time. */
  lemma ConsumeStep<V>(t: Trie<V>, h: seq<byte>, i: nat, node: nat)
    requires Shaped(t) && i < |h| && node + t.alphabet.len <= |t.transitions|
    ensures t.transitions[node + t.alphabet.classes[h[i]]] + t.alphabet.len <= |t.transitions|
    ensures Consume(t, h, i, node) == Consume(t, h, i + 1, t.transitions[node + t.alphabet.classes[h[i]]])
  {
  }

  /**
   * The new id of node `k` is an accepting id exactly when `k` is no FAIL
   * and holds a value in the `trie3` layout, and then it holds that value.
   */
  lemma {:induction false} NodeValue<V>(b: Builder<V>, t: Trie3.Trie<V>, a: Alphabet.TrieAlphabet, tc: nat,
                                       default: V, k: nat)
    requires Sim(b, t, a, tc) && k < b.nodeLen
    ensures var T := Renumber(b, a, tc, default);
            var n := Id(Sigma(b, a.len, k), a.len);
            && n < |T.matches|
            && (n <= T.maxMatch && n != FAIL <==> k != Trie3.FAIL && t.nodes[k].value.Some?)
            && (n <= T.maxMatch && n != FAIL ==> Some(T.matches[n]) == t.nodes[k].value)
  {
    var A := a.len;
    IdFits(b.nodeLen, A, tc);
    IdMono(Sigma(b, A, k) + 1, b.nodeLen, A);
    IdZero(Sigma(b, A, k), A);
    if k != Trie3.FAIL {
      AcceptingFirst(b, a, tc, default, k);
      RowInside(k, 0, A, tc);
      assert b.matches[Id(k, A)] == t.nodes[k].value;
    }
  }

  /** The root of the renumbered trie is the new id of the `trie3` root. */
  lemma RootSim<V>(b: Builder<V>, a: Alphabet.TrieAlphabet, tc: nat, default: V)
    requires BuilderShaped(b, a, tc)
    ensures Renumber(b, a, tc, default).root == Id(Sigma(b, a.len, Trie3.ROOT), a.len)
  {
    RenumberSpec(b, a, tc, default);
  }

  /** `find` on the renumbered layout of a trie storing `needles` is exact match. */
  lemma {:induction false} FindSim<V>(b: Builder<V>, t: Trie3.Trie<V>, ids: map<seq<byte>, nat>,
                                     a: Alphabet.TrieAlphabet, tc: nat, default: V,
                                     needles: seq<Needle<V>>, h: seq<byte>)
    requires Sim(b, t, a, tc) && Trie3.Inv(t, ids, PrefixSet(needles), needles, needles)
    ensures Find(Renumber(b, a, tc, default), h) == ValueOf(needles, h)
  {
    RootSim(b, a, tc, default);
    ConsumeSim(b, t, a, tc, default, h, 0, Trie3.ROOT);
    EmptyPrefix(h);
    ReachIds(t, ids, needles, h, 0);
    NodeValue(b, t, a, tc, default, Reach(t, h, 0, Trie3.ROOT));
    if h !in ids {
      NoPrefixNoValue(needles, h);
    }
  }

  /** A string that is no prefix of any needle is no needle. */
  lemma NoPrefixNoValue<V>(needles: seq<Needle<V>>, h: seq<byte>)
    requires h !in PrefixSet(needles)
    ensures ValueOf(needles, h) == None
  {
    ValueOfSpec(needles, h);
  }

  /**
   * `find` reports a value exactly when the whole haystack is one of the
   * needles, and then that needle's value.
   */
  lemma FindExact<V>(needles: seq<Needle<V>>, default: V, tc: nat, alphabetLen: nat, h: seq<byte>)
    requires New(needles, default, tc, alphabetLen).Success?
    ensures Find(New(needles, default, tc, alphabetLen).value, h) == ValueOf(needles, h)
  {
    var a := Alphabet.New(needles);
    var t, ids := BuildSim<V>(needles, tc);
    var b := InsertAll(needles, 0, Empty(tc), a, tc).value;
    FindSim(b, t, ids, a, tc, default, needles, h);
  }

  /**
   * `Trie::new` succeeds exactly when the alphabet length is the needles'
   * own, the capacity is a `u16` id range holding FAIL and the root, the
   * needles are distinct, and their prefixes fit beside FAIL in the node
   * rows. A built trie has one node per prefix besides FAIL, records the
   * longest needle length, FAIL's row leads only to FAIL, and every stored
   * id leaves a whole row inside the capacity.
   */
  lemma NewSpec<V>(needles: seq<Needle<V>>, default: V, tc: nat, alphabetLen: nat)
    ensures var r := New(needles, default, tc, alphabetLen);
            var a := Alphabet.New(needles);
            && (r.Success? <==>
                  && alphabetLen == a.len && tc <= ID_MAX && 2 <= tc / a.len
                  && Distinct(needles) && |PrefixSet(needles)| < tc / a.len)
            && (r == Failure(AlphabetMismatch) <==> alphabetLen != a.len)
            && (r == Failure(IdOverflow) <==> alphabetLen == a.len && tc > ID_MAX)
            && (r == Failure(DuplicateNeedle) ==> !Distinct(needles))
            && (r == Failure(CapacityExceeded) ==> tc / a.len < 2 || |PrefixSet(needles)| >= tc / a.len)
            && (r.Success? ==>
                  && r.value.nodeLen == 1 + |PrefixSet(needles)|
                  && r.value.maxNeedleLen == MaxLen(needles)
                  && (forall c | 0 <= c < a.len :: r.value.transitions[c] == FAIL)
                  && (forall x | 0 <= x < tc :: r.value.transitions[x] + a.len <= tc <= ID_MAX))
  {
    var a := Alphabet.New(needles);
    if alphabetLen == a.len && tc <= ID_MAX && 2 <= tc / a.len {
      BuildOutcome<V>(needles, tc);
      if New(needles, default, tc, alphabetLen).Success? {
        NewShape(needles, default, tc, alphabetLen);
      }
    }
  }

  /** The insertion phase succeeds exactly when the needles are distinct and their prefixes fit beside FAIL. */
  lemma BuildOutcome<V>(needles: seq<Needle<V>>, tc: nat)
    requires tc <= ID_MAX && 2 <= tc / Alphabet.New(needles).len
    ensures BuilderShaped(Empty<V>(tc), Alphabet.New(needles), tc)
    ensures var a := Alphabet.New(needles);
            var r := InsertAll(needles, 0, Empty(tc), a, tc);
            && (r.Success? <==> Distinct(needles) && |PrefixSet(needles)| < tc / a.len)
            && (r == Failure(DuplicateNeedle) ==> !Distinct(needles))
            && (r == Failure(CapacityExceeded) ==> |PrefixSet(needles)| >= tc / a.len)
  {
    var t, ids := BuildSim<V>(needles, tc);
  }

  /**
   * A built trie has one node per prefix besides FAIL, records the longest
   * needle length, FAIL's row leads only to FAIL, and every stored id leaves
   * a whole row inside the capacity.
   */
  lemma NewShape<V>(needles: seq<Needle<V>>, default: V, tc: nat, alphabetLen: nat)
    requires New(needles, default, tc, alphabetLen).Success?
    ensures var T := New(needles, default, tc, alphabetLen).value;
            var a := Alphabet.New(needles);
            && T.nodeLen == 1 + |PrefixSet(needles)|
            && T.maxNeedleLen == MaxLen(needles)
            && (forall c | 0 <= c < a.len :: T.transitions[c] == FAIL)
            && (forall x | 0 <= x < tc :: T.transitions[x] + a.len <= tc <= ID_MAX)
  {
    var a := Alphabet.New(needles);
    var t, ids := BuildSim<V>(needles, tc);
    var b := InsertAll(needles, 0, Empty(tc), a, tc).value;
    assert New(needles, default, tc, alphabetLen).value == Renumber(b, a, tc, default);
    assert |ids.Keys| == |ids|;
    RenumberedFail(b, a, tc, default);
  }

  /**
   * The root is the new id of the insertion phase's root; it is no FAIL,
   * and it is an accepting id exactly when the empty string is a needle.
   */
  lemma RootSpec<V>(needles: seq<Needle<V>>, default: V, tc: nat, alphabetLen: nat)
    requires New(needles, default, tc, alphabetLen).Success?
    ensures var T := New(needles, default, tc, alphabetLen).value;
            && T.root != FAIL
            && (T.root <= T.maxMatch <==> ValueOf(needles, []).Some?)
  {
    var a := Alphabet.New(needles);
    var A := a.len;
    var t, ids := BuildSim<V>(needles, tc);
    var b := InsertAll(needles, 0, Empty(tc), a, tc).value;
    RenumberSpec(b, a, tc, default);
    IdZero(Sigma(b, A, Trie3.ROOT), A);
    AcceptingFirst(b, a, tc, default, Trie3.ROOT);
    RowInside(Trie3.ROOT, 0, A, tc);
    assert b.matches[Id(Trie3.ROOT, A)] == t.nodes[Trie3.ROOT].value;
    assert ids[[]] == Trie3.ROOT;
  }
}
