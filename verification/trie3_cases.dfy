/**
 * The unit-test tries of `trie3.rs`, built and searched through the general
 * theorems: `NewSpec` says the construction succeeds, `FindLongest` turns
 * every search into a longest-label question about the needle list.
 */
module Trie3Cases {
  import opened Wrappers
  import opened Units
  import opened Needles
  import Alphabet
  import opened Trie3

  /** One needle `[("", 'z')]` in a two-node trie. */
  function EmptyNeedles(): seq<Needle<char>> {
    [Needle([], 'z')]
  }

  /** `foo`, `bar` and `quux` mapped to `a`, `b`, `c`. */
  function FooNeedles(): seq<Needle<char>> {
    [Needle([102, 111, 111], 'a'), Needle([98, 97, 114], 'b'), Needle([113, 117, 117, 120], 'c')]
  }

  /** `a`, `aa` and `aaa` mapped to `a`, `b`, `c`. */
  function AaaNeedles(): seq<Needle<char>> {
    [Needle([97], 'a'), Needle([97, 97], 'b'), Needle([97, 97, 97], 'c')]
  }

  /** The trie the test builds: `capacity` nodes and the needles' own alphabet length. */
  function Build<V>(needles: seq<Needle<V>>, capacity: nat): Result<Trie<V>, BuildError> {
    New(needles, capacity, Alphabet.New(needles).len)
  }

  /** Distinct needles whose bytes fit beside FAIL and the root build a trie for them. */
  lemma Builds<V>(needles: seq<Needle<V>>, capacity: nat)
    requires 2 <= capacity <= ID_MAX && Distinct(needles) && 2 + TotalLength(needles) <= capacity
    ensures Build(needles, capacity).Success? && Built(Build(needles, capacity).value, needles)
  {
    PrefixSetSize(needles);
    NewSpec(needles, capacity, Alphabet.New(needles).len);
  }

  /**
   * When the needles are distinct and their bytes fit beside FAIL and the
   * root, the build succeeds, and a search of the first `k` bytes of `h`
   * yields `(v, n)` when `h[..n]` is the longest label among them, with value `v`.
   */
  lemma FindCase<V>(needles: seq<Needle<V>>, capacity: nat, h: seq<byte>, k: nat, v: V, n: nat)
    requires 2 <= capacity <= ID_MAX && Distinct(needles) && 2 + TotalLength(needles) <= capacity
    requires n <= k <= |h| && ValueOf(needles, h[..n]) == Some(v)
    requires forall m | n < m <= k :: ValueOf(needles, h[..m]).None?
    ensures Build(needles, capacity).Success?
    ensures Find(Build(needles, capacity).value, h[..k]) == Some((v, n))
  {
    Builds(needles, capacity);
    LongestLabel(needles, h, k, v, n);
    FindLongest(Build(needles, capacity).value, needles, h[..k]);
  }

  /** A label `h[..n]` with nothing longer up to `k` is the longest label in `h[..k]`. */
  lemma LongestLabel<V>(needles: seq<Needle<V>>, h: seq<byte>, k: nat, v: V, n: nat)
    requires n <= k <= |h| && ValueOf(needles, h[..n]) == Some(v)
    requires forall m | n < m <= k :: ValueOf(needles, h[..m]).None?
    ensures LongestPrefix(needles, h[..k]) == Some((v, n))
  {
    TakeTake(h, k);
    LongestPrefixUnique(needles, h[..k], v, n);
  }

  /** As `FindCase`, when no label is among the first `k` bytes of `h`. */
  lemma MissCase<V>(needles: seq<Needle<V>>, capacity: nat, h: seq<byte>, k: nat)
    requires 2 <= capacity <= ID_MAX && Distinct(needles) && 2 + TotalLength(needles) <= capacity
    requires k <= |h| && forall m | 0 <= m <= k :: ValueOf(needles, h[..m]).None?
    ensures Build(needles, capacity).Success?
    ensures Find(Build(needles, capacity).value, h[..k]) == None
  {
    Builds(needles, capacity);
    NoLabel(needles, h, k);
    FindLongest(Build(needles, capacity).value, needles, h[..k]);
  }

  /** No label among the first `k` bytes of `h` means no longest label in `h[..k]`. */
  lemma NoLabel<V>(needles: seq<Needle<V>>, h: seq<byte>, k: nat)
    requires k <= |h| && forall m | 0 <= m <= k :: ValueOf(needles, h[..m]).None?
    ensures LongestPrefix(needles, h[..k]) == None
  {
    TakeTake(h, k);
  }

  /** The `empty` test: the empty needle matches the empty haystack. */
  lemma EmptyCase()
    ensures Build(EmptyNeedles(), 2).Success?
    ensures Find(Build(EmptyNeedles(), 2).value, []) == Some(('z', 0))
  {
    FindCase(EmptyNeedles(), 2, [], 0, 'z', 0);
  }

  /** The labels `fubar` relies on: only `foo` among the prefixes of `fooquux`. */
  lemma FooLabels()
    ensures Distinct(FooNeedles()) && TotalLength(FooNeedles()) == 10
    ensures ValueOf(FooNeedles(), FooQuux()[..3]) == Some('a')
    ensures forall m | 0 <= m <= 7 && m != 3 :: ValueOf(FooNeedles(), FooQuux()[..m]).None?
  {
    var needles := FooNeedles();
    var h := FooQuux();
    assert TotalLength(needles[..1]) == 3 by { assert needles[..1][..0] == []; }
    assert TotalLength(needles[..2]) == 6 by { assert needles[..2][..1] == needles[..1]; }
    assert TotalLength(needles) == 10;
    assert Distinct(needles);
    assert h[..3] == needles[0].bytes;
    ValueOfDistinct(needles, 0);
    forall m | 0 <= m <= |h| && m != 3 ensures ValueOf(needles, h[..m]).None? {
      ValueOfSpec(needles, h[..m]);
      assert |h[..m]| == m;
      if m == 4 {
        assert h[..m][0] != needles[2].bytes[0];
      }
    }
  }

  /** The `fubar` haystack `fooquux`, whose prefixes the test searches. */
  function FooQuux(): seq<byte> {
    [102, 111, 111, 113, 117, 117, 120]
  }

  /** A `fubar` search of a prefix of `fooquux` shorter than `foo`. */
  lemma FooMiss(k: nat)
    requires k < 3
    ensures Build(FooNeedles(), 12).Success?
    ensures Find(Build(FooNeedles(), 12).value, FooQuux()[..k]) == None
  {
    FooLabels();
    MissCase(FooNeedles(), 12, FooQuux(), k);
  }

  /** A `fubar` search of a prefix of `fooquux` that starts with `foo`. */
  lemma FooHit(k: nat)
    requires 3 <= k <= 7
    ensures Build(FooNeedles(), 12).Success?
    ensures Find(Build(FooNeedles(), 12).value, FooQuux()[..k]) == Some(('a', 3))
  {
    FooLabels();
    FindCase(FooNeedles(), 12, FooQuux(), k, 'a', 3);
  }

  /** The `fubar` test: searches find the longest needle that starts the haystack. */
  lemma FooCase()
    ensures Build(FooNeedles(), 12).Success?
    ensures var t := Build(FooNeedles(), 12).value;
            && Find(t, []) == None
            && Find(t, [102, 111]) == None
            && Find(t, [102, 111, 111]) == Some(('a', 3))
            && Find(t, [102, 111, 111, 113, 117, 117, 120]) == Some(('a', 3))
  {
    var h := FooQuux();
    assert h[..0] == [] && h[..2] == [102, 111] && h[..3] == [102, 111, 111] && h[..7] == h;
    FooMiss(0);
    FooMiss(2);
    FooHit(3);
    FooHit(7);
  }

  /** The `aaa` haystack `aaaa`, whose prefixes the test searches. */
  function Aaaa(): seq<byte> {
    [97, 97, 97, 97]
  }

  /** The labels `aaa` relies on: `a`, `aa`, `aaa` are needles and `aaaa` is not. */
  lemma AaaLabels()
    ensures Distinct(AaaNeedles()) && TotalLength(AaaNeedles()) == 6
    ensures ValueOf(AaaNeedles(), Aaaa()[..0]).None? && ValueOf(AaaNeedles(), Aaaa()[..4]).None?
    ensures ValueOf(AaaNeedles(), Aaaa()[..1]) == Some('a')
    ensures ValueOf(AaaNeedles(), Aaaa()[..2]) == Some('b')
    ensures ValueOf(AaaNeedles(), Aaaa()[..3]) == Some('c')
  {
    var needles := AaaNeedles();
    var h := Aaaa();
    assert TotalLength(needles[..1]) == 1 by { assert needles[..1][..0] == []; }
    assert TotalLength(needles[..2]) == 3 by { assert needles[..2][..1] == needles[..1]; }
    assert TotalLength(needles) == 6;
    assert Distinct(needles);
    ValueOfSpec(needles, h[..0]);
    ValueOfSpec(needles, h[..4]);
    assert h[..1] == needles[0].bytes && h[..2] == needles[1].bytes && h[..3] == needles[2].bytes;
    ValueOfDistinct(needles, 0);
    ValueOfDistinct(needles, 1);
    ValueOfDistinct(needles, 2);
  }

  /** The `aaa` searches of `a`, `aa`, `aaa` and `aaaa`: the longest label, at most `aaa`, wins. */
  lemma AaaFind(k: nat)
    requires 1 <= k <= 4
    ensures Build(AaaNeedles(), 12).Success?
    ensures var n := if k < 4 then k else 3;
            Find(Build(AaaNeedles(), 12).value, Aaaa()[..k]) == Some((AaaNeedles()[n - 1].value, n))
  {
    AaaLabels();
    var n := if k < 4 then k else 3;
    FindCase(AaaNeedles(), 12, Aaaa(), k, AaaNeedles()[n - 1].value, n);
  }

  /** The `aaa` search of the empty haystack. */
  lemma AaaMiss()
    ensures Build(AaaNeedles(), 12).Success?
    ensures Find(Build(AaaNeedles(), 12).value, Aaaa()[..0]) == None
  {
    AaaLabels();
    MissCase(AaaNeedles(), 12, Aaaa(), 0);
  }

  /** The `aaa` test: nested needles, the longest one wins. */
  lemma AaaCase()
    ensures Build(AaaNeedles(), 12).Success?
    ensures var t := Build(AaaNeedles(), 12).value;
            && Find(t, []) == None
            && Find(t, [97]) == Some(('a', 1))
            && Find(t, [97, 97]) == Some(('b', 2))
            && Find(t, [97, 97, 97]) == Some(('c', 3))
            && Find(t, [97, 97, 97, 97]) == Some(('c', 3))
  {
    var h := Aaaa();
    assert h[..0] == [] && h[..1] == [97] && h[..2] == [97, 97] && h[..3] == [97, 97, 97] && h[..4] == h;
    AaaMiss();
    AaaFind(1);
    AaaFind(2);
    AaaFind(3);
    AaaFind(4);
  }
}
