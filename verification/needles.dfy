/**
 * Needle lists and the reference semantics every recogniser is measured
 * against: exact lookup of a label, the set of prefixes a trie has to store,
 * and the longest label that prefixes a haystack.
 */
module Needles {
  import opened Wrappers
  import opened Units

  /** Why a trie construction panics (`assert!` or `panic!` in the source). */
  datatype BuildError =
    | AlphabetMismatch  // `alphabet.len() == ALPHABET_LEN` does not hold
    | IdOverflow        // the capacity does not fit the node id type
    | CapacityExceeded  // no free node left
    | DuplicateNeedle   // "duplicate needle detected"

  /** One `(&str, V)` entry of a `TrieNeedles` list, as bytes. */
  datatype Needle<V> = Needle(bytes: seq<byte>, value: V)

  /** Taking one more element of a sequence appends it. */
  lemma TakeSnoc<T>(xs: seq<T>, i: nat)
    requires i < |xs|
    ensures xs[..i + 1] == xs[..i] + [xs[i]]
    ensures xs[..i + 1][..i] == xs[..i]
  {
  }

  /** The prefixes of a prefix are prefixes. */
  lemma TakeTake<T>(xs: seq<T>, k: nat)
    requires k <= |xs|
    ensures forall m | 0 <= m <= k :: xs[..k][..m] == xs[..m]
  {
  }

  /** A prefix one byte longer is the shorter prefix and that byte. */
  lemma PrefixNext(s: seq<byte>, i: nat)
    requires i < |s|
    ensures s[..i + 1] == s[..i] + [s[i]]
  {
  }

  /** The shortest prefix is empty. */
  lemma EmptyPrefix<T>(s: seq<T>)
    ensures s[..0] == []
  {
  }

  /** No byte string appears twice in the list. */
  predicate Distinct<V>(needles: seq<Needle<V>>) {
    forall i, j | 0 <= i < j < |needles| :: needles[i].bytes != needles[j].bytes
  }

  /** The value of the first needle spelled exactly `s`, if any. */
  function ValueOf<V>(needles: seq<Needle<V>>, s: seq<byte>): Option<V>
    decreases |needles|
  {
    if |needles| == 0 then None
    else
      var r := ValueOf(needles[..|needles| - 1], s);
      if r.Some? then r
      else if needles[|needles| - 1].bytes == s then Some(needles[|needles| - 1].value)
      else None
  }

  /**
   * `ValueOf` is exact lookup: `None` when no needle is spelled `s`, and
   * otherwise the value of the first needle spelled `s`.
   */
  lemma {:induction false} ValueOfSpec<V>(needles: seq<Needle<V>>, s: seq<byte>)
    ensures ValueOf(needles, s).None? <==> forall i | 0 <= i < |needles| :: needles[i].bytes != s
    ensures ValueOf(needles, s).Some? ==>
              exists i | 0 <= i < |needles| ::
                && needles[i] == Needle(s, ValueOf(needles, s).value)
                && forall j | 0 <= j < i :: needles[j].bytes != s
    decreases |needles|
  {
    if |needles| > 0 {
      var init := needles[..|needles| - 1];
      ValueOfSpec(init, s);
      assert forall i | 0 <= i < |init| :: init[i] == needles[i];
    }
  }

  /** In a list without duplicates, every needle is found with its own value. */
  lemma ValueOfDistinct<V>(needles: seq<Needle<V>>, i: nat)
    requires Distinct(needles) && i < |needles|
    ensures ValueOf(needles, needles[i].bytes) == Some(needles[i].value)
  {
    var r := ValueOf(needles, needles[i].bytes);
    ValueOfSpec(needles, needles[i].bytes);
    var j :| 0 <= j < |needles| && needles[j] == Needle(needles[i].bytes, r.value)
                && forall j' | 0 <= j' < j :: needles[j'].bytes != needles[i].bytes;
    assert j == i;
  }

  /** Looking a string up in a longer list only adds what the new needle says. */
  lemma ValueOfSnoc<V>(needles: seq<Needle<V>>, n: Needle<V>, s: seq<byte>)
    ensures ValueOf(needles + [n], s)
            == if ValueOf(needles, s).Some? then ValueOf(needles, s)
               else if n.bytes == s then Some(n.value) else None
  {
    assert (needles + [n])[..|needles|] == needles;
  }

  /** Appending a needle whose string is new keeps the list duplicate-free. */
  lemma DistinctSnoc<V>(needles: seq<Needle<V>>, n: Needle<V>)
    requires Distinct(needles) && ValueOf(needles, n.bytes).None?
    ensures Distinct(needles + [n])
  {
    var all := needles + [n];
    ValueOfSpec(needles, n.bytes);
    forall i, j | 0 <= i < j < |all| ensures all[i].bytes != all[j].bytes {
      assert all[i] == needles[i];
      if j < |needles| {
        assert all[j] == needles[j];
      }
    }
  }

  /** A duplicate-free list has duplicate-free prefixes. */
  lemma DistinctTake<V>(needles: seq<Needle<V>>, i: nat)
    requires Distinct(needles) && i <= |needles|
    ensures Distinct(needles[..i])
  {
  }

  /** The next needle keeps the list duplicate-free exactly when its string is new. */
  lemma DistinctStep<V>(needles: seq<Needle<V>>, i: nat)
    requires i < |needles| && Distinct(needles[..i])
    ensures Distinct(needles[..i + 1]) <==> ValueOf(needles[..i], needles[i].bytes).None?
  {
    TakeSnoc(needles, i);
    ValueOfSpec(needles[..i], needles[i].bytes);
    if ValueOf(needles[..i], needles[i].bytes).None? {
      DistinctSnoc(needles[..i], needles[i]);
    } else {
      var j :| 0 <= j < i && needles[..i][j].bytes == needles[i].bytes;
      assert needles[..i + 1][j].bytes == needles[..i + 1][i].bytes;
    }
  }

  /** All prefixes of `s`, the empty one and `s` itself included. */
  function Prefixes(s: seq<byte>): (ps: set<seq<byte>>)
    ensures forall p :: p in ps <==> p <= s
  {
    var ps := set m | 0 <= m <= |s| :: s[..m];
    assert forall p | p <= s :: p == s[..|p|];
    ps
  }

  /**
   * Every string a trie over `needles` needs a node for: the root's empty
   * string and each prefix of each needle.
   */
  function PrefixSet<V>(needles: seq<Needle<V>>): (ps: set<seq<byte>>)
    ensures forall p :: p in ps <==> p == [] || exists i | 0 <= i < |needles| :: p <= needles[i].bytes
    decreases |needles|
  {
    if |needles| == 0 then {[]}
    else
      var init := needles[..|needles| - 1];
      var ps := PrefixSet(init) + Prefixes(needles[|needles| - 1].bytes);
      assert forall i | 0 <= i < |init| :: init[i] == needles[i];
      ps
  }

  /** A prefix of a stored string is stored too. */
  lemma PrefixSetClosed<V>(needles: seq<Needle<V>>, p: seq<byte>, m: nat)
    requires p in PrefixSet(needles) && m <= |p|
    ensures p[..m] in PrefixSet(needles)
  {
    if p != [] {
      var i :| 0 <= i < |needles| && p <= needles[i].bytes;
      assert p[..m] <= needles[i].bytes;
    }
  }

  /** The prefixes of `s` longer than `k`, of which there are at most `|s| - k`. */
  lemma LongPrefixesCard(s: seq<byte>, k: nat, n: nat)
    requires k <= n <= |s|
    ensures |set m | k < m <= n :: s[..m]| <= n - k
    decreases n
  {
    var big := set m | k < m <= n :: s[..m];
    if n > k {
      var small := set m | k < m <= n - 1 :: s[..m];
      LongPrefixesCard(s, k, n - 1);
      assert big == small + {s[..n]};
    } else {
      assert big == {};
    }
  }

  /**
   * Adding a needle whose first `k` bytes are already stored adds at most
   * `|bytes| - k` strings.
   */
  lemma PrefixSetGrowth<V>(needles: seq<Needle<V>>, n: Needle<V>, k: nat)
    requires k <= |n.bytes| && n.bytes[..k] in PrefixSet(needles)
    ensures |PrefixSet(needles + [n])| <= |PrefixSet(needles)| + |n.bytes| - k
  {
    var before := PrefixSet(needles);
    var tail := set m | k < m <= |n.bytes| :: n.bytes[..m];
    LongPrefixesCard(n.bytes, k, |n.bytes|);
    assert (needles + [n])[..|needles|] == needles;
    assert PrefixSet(needles + [n]) == before + Prefixes(n.bytes);
    forall p | p in Prefixes(n.bytes)
      ensures p in before + tail
    {
      if |p| <= k {
        PrefixSetClosed(needles, n.bytes[..k], |p|);
        assert n.bytes[..k][..|p|] == p;
      } else {
        assert p == n.bytes[..|p|];
      }
    }
    assert PrefixSet(needles + [n]) <= before + tail;
    SubsetCard(PrefixSet(needles + [n]), before + tail);
    assert |before + tail| + |before * tail| == |before| + |tail|;
  }

  /** A subset is no larger than its superset. */
  lemma SubsetCard<T>(a: set<T>, b: set<T>)
    requires a <= b
    ensures |a| <= |b|
  {
    assert b == a + (b - a);
  }

  /** The length of the longest needle, 0 for none. */
  function MaxLen<V>(needles: seq<Needle<V>>): (m: nat)
    ensures forall i | 0 <= i < |needles| :: |needles[i].bytes| <= m
    ensures m == 0 || exists i | 0 <= i < |needles| :: |needles[i].bytes| == m
    decreases |needles|
  {
    if |needles| == 0 then 0
    else
      var init := needles[..|needles| - 1];
      var m := MaxLen(init);
      var l := |needles[|needles| - 1].bytes|;
      assert forall i | 0 <= i < |init| :: init[i] == needles[i];
      if l > m then l else m
  }

  /** The sum of the needle lengths: a crude bound on the number of trie nodes. */
  function TotalLength<V>(needles: seq<Needle<V>>): nat
    decreases |needles|
  {
    if |needles| == 0 then 0
    else TotalLength(needles[..|needles| - 1]) + |needles[|needles| - 1].bytes|
  }

  /** A trie never needs more nodes than the root plus one per needle byte. */
  lemma {:induction false} PrefixSetSize<V>(needles: seq<Needle<V>>)
    ensures |PrefixSet(needles)| <= 1 + TotalLength(needles)
    decreases |needles|
  {
    if |needles| > 0 {
      var init := needles[..|needles| - 1];
      var last := needles[|needles| - 1];
      PrefixSetSize(init);
      EmptyPrefix(last.bytes);
      PrefixSetGrowth(init, last, 0);
      TakeSnoc(needles, |needles| - 1);
      assert needles[..|needles|] == needles;
    }
  }

  /**
   * Needle `i` starts with the first `shared(i)` bytes of the earlier needle
   * `source(i)`, so those bytes add no string to the prefix set.
   */
  predicate SharesWith<V>(needles: seq<Needle<V>>, shared: nat -> nat, source: nat -> nat, i: nat)
    requires i < |needles|
  {
    && shared(i) <= |needles[i].bytes|
    && (shared(i) > 0 ==>
          && source(i) < i
          && shared(i) <= |needles[source(i)].bytes|
          && needles[i].bytes[..shared(i)] == needles[source(i)].bytes[..shared(i)])
  }

  /** The bytes of needles `lo` to `hi - 1` beyond the first `shared(i)` of each. */
  function Unshared<V>(needles: seq<Needle<V>>, shared: nat -> nat, lo: nat, hi: nat): int
    requires lo <= hi <= |needles|
    decreases hi - lo
  {
    if lo == hi then 0 else |needles[lo].bytes| - shared(lo) + Unshared(needles, shared, lo + 1, hi)
  }

  /** The unshared bytes of a range are those of its two halves. */
  lemma {:induction false} UnsharedSplit<V>(needles: seq<Needle<V>>, shared: nat -> nat, lo: nat, mid: nat, hi: nat)
    requires lo <= mid <= hi <= |needles|
    ensures Unshared(needles, shared, lo, hi) == Unshared(needles, shared, lo, mid) + Unshared(needles, shared, mid, hi)
    decreases mid - lo
  {
    if lo < mid {
      UnsharedSplit(needles, shared, lo + 1, mid, hi);
    }
  }

  /**
   * With every needle's shared prefix hinted, the first `n` needles need at
   * most one string per unshared byte besides the root's: a sharper bound
   * than `PrefixSetSize` when needles share prefixes.
   */
  lemma {:induction false} PrefixSetShared<V>(needles: seq<Needle<V>>, shared: nat -> nat, source: nat -> nat, n: nat)
    requires n <= |needles|
    requires forall i | 0 <= i < n :: SharesWith(needles, shared, source, i)
    ensures |PrefixSet(needles[..n])| <= 1 + Unshared(needles, shared, 0, n)
  {
    if n == 0 {
      assert needles[..0] == [];
    } else {
      var i := n - 1;
      var k := shared(i);
      PrefixSetShared(needles, shared, source, i);
      UnsharedSplit(needles, shared, 0, i, n);
      assert SharesWith(needles, shared, source, i);
      if k > 0 {
        assert needles[..i][source(i)] == needles[source(i)];
        assert needles[i].bytes[..k] <= needles[..i][source(i)].bytes;
      } else {
        assert needles[i].bytes[..k] == [];
      }
      PrefixSetGrowth(needles[..i], needles[i], k);
      TakeSnoc(needles, i);
    }
  }

  /**
   * The longest of the first `n + 1` prefixes of `h` that is spelled by a
   * needle, with the needle's value and the prefix length.
   */
  function LongestWithin<V>(needles: seq<Needle<V>>, h: seq<byte>, n: nat): (r: Option<(V, nat)>)
    requires n <= |h|
    ensures r.Some? ==> r.value.1 <= n && ValueOf(needles, h[..r.value.1]) == Some(r.value.0)
    ensures r.Some? ==> forall m | r.value.1 < m <= n :: ValueOf(needles, h[..m]).None?
    ensures r.None? <==> forall m | 0 <= m <= n :: ValueOf(needles, h[..m]).None?
    decreases n
  {
    match ValueOf(needles, h[..n])
    case Some(v) => Some((v, n))
    case None => if n == 0 then None else LongestWithin(needles, h, n - 1)
  }

  /**
   * The longest label that is a prefix of `h`, with its value and length;
   * `None` when no label prefixes `h`.
   */
  function LongestPrefix<V>(needles: seq<Needle<V>>, h: seq<byte>): (r: Option<(V, nat)>)
    ensures r.Some? ==> r.value.1 <= |h| && ValueOf(needles, h[..r.value.1]) == Some(r.value.0)
    ensures r.Some? ==> forall m | r.value.1 < m <= |h| :: ValueOf(needles, h[..m]).None?
    ensures r.None? <==> forall m | 0 <= m <= |h| :: ValueOf(needles, h[..m]).None?
  {
    LongestWithin(needles, h, |h|)
  }

  /** Without labels among the prefixes longer than `i`, the search ends at `i`. */
  lemma {:induction false} LongestWithinSkip<V>(needles: seq<Needle<V>>, h: seq<byte>, i: nat, n: nat)
    requires i <= n <= |h|
    requires forall m | i < m <= n :: ValueOf(needles, h[..m]).None?
    ensures LongestWithin(needles, h, n) == LongestWithin(needles, h, i)
    decreases n
  {
    if n > i {
      LongestWithinSkip(needles, h, i, n - 1);
    }
  }

  /** The longest prefix is pinned down by a label and the absence of longer ones. */
  lemma LongestPrefixUnique<V>(needles: seq<Needle<V>>, h: seq<byte>, v: V, n: nat)
    requires n <= |h| && ValueOf(needles, h[..n]) == Some(v)
    requires forall m | n < m <= |h| :: ValueOf(needles, h[..m]).None?
    ensures LongestPrefix(needles, h) == Some((v, n))
  {
    var r := LongestPrefix(needles, h);
    assert r.Some?;
    if r.value.1 < n {
    } else if r.value.1 > n {
    }
  }
}
