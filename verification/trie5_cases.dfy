/**
 * The unit-test tries of `trie5.rs`: each test sizes its trie as a number
 * of node rows times the needles' alphabet length, builds it with the
 * default value `'\0'`, and searches for whole needles. `NewSpec` says the
 * construction succeeds and `FindExact` turns every search into an exact
 * lookup in the needle list.
 */
module Trie5Cases {
  import opened Wrappers
  import opened Units
  import opened Needles
  import Alphabet
  import opened Trie5
  import Trie5Find
  import Trie3Cases

  /** The trie a test builds: `rows` node rows of the needles' own alphabet length. */
  function Build<V>(needles: seq<Needle<V>>, default: V, rows: nat): Result<Trie<V>, BuildError> {
    var n := Alphabet.New(needles).len;
    New(needles, default, Cells(rows, n), n)
  }

  /** `transition_len`: `rows` node rows of `width` slots each. */
  function Cells(rows: nat, width: nat): (tc: nat)
    ensures 1 <= width ==> tc / width == rows
    ensures rows <= 255 && width <= 256 ==> tc <= ID_MAX
  {
    var tc := rows * width;
    assert 1 <= width ==> tc / width == rows by {
      if 1 <= width { DivUnique(tc, width, rows); }
    }
    assert rows <= 255 && width <= 256 ==> tc <= ID_MAX by {
      if rows <= 255 && width <= 256 { assert tc <= 255 * width; }
    }
    tc
  }

  /** `q` is the quotient of `a` by `w` when `a` lies in the `q`-th block of `w`. */
  lemma DivUnique(a: int, w: int, q: int)
    requires 0 < w && q * w <= a < q * w + w
    ensures a / w == q
  {
    var q0 := a / w;
    assert a == q0 * w + a % w;
    var d := q - q0;
    assert d * w == q * w - q0 * w;
    MulStep(d, w);
    MulStep(-d, w);
    assert (-d) * w == -(d * w);
  }

  /** A positive multiple of `w` is at least `w`. */
  lemma MulStep(d: int, w: int)
    requires 0 < w
    ensures d >= 1 ==> d * w >= w
  {
    assert d * w == (d - 1) * w + w;
  }

  /**
   * Distinct needles whose bytes fit beside FAIL and the root in `rows`
   * rows build a trie, and every search of it yields exactly the value of
   * the needle spelled by the whole haystack.
   */
  lemma Builds<V>(needles: seq<Needle<V>>, default: V, rows: nat, h: seq<byte>)
    requires 2 <= rows <= 255 && Distinct(needles) && 2 + TotalLength(needles) <= rows
    ensures Build(needles, default, rows).Success?
    ensures Find(Build(needles, default, rows).value, h) == ValueOf(needles, h)
  {
    var n := Alphabet.New(needles).len;
    assert 1 <= n <= 256;
    PrefixSetSize(needles);
    Trie5Find.NewSpec(needles, default, Cells(rows, n), n);
    Trie5Find.FindExact(needles, default, Cells(rows, n), n, h);
  }

  /** The `empty` test: the empty needle is found in the empty haystack. */
  lemma EmptyCase()
    ensures Build(Trie3Cases.EmptyNeedles(), '\0', 2).Success?
    ensures Find(Build(Trie3Cases.EmptyNeedles(), '\0', 2).value, []) == Some('z')
  {
    var needles := Trie3Cases.EmptyNeedles();
    assert TotalLength(needles) == 0 by { assert needles[..0] == []; }
    ValueOfDistinct(needles, 0);
    Builds(needles, '\0', 2, []);
  }

  /** The `quux` haystack of the `fubar` test. */
  function Quux(): seq<byte> {
    [113, 117, 117, 120]
  }

  /** A `fubar` search: the haystack must be a whole needle, so `fooquux` is not found. */
  lemma FooFind(h: seq<byte>)
    ensures Build(Trie3Cases.FooNeedles(), '\0', 12).Success?
    ensures Find(Build(Trie3Cases.FooNeedles(), '\0', 12).value, h) == ValueOf(Trie3Cases.FooNeedles(), h)
  {
    Trie3Cases.FooLabels();
    Builds(Trie3Cases.FooNeedles(), '\0', 12, h);
  }

  /** The `fubar` test: `foo` and `quux` are found, `""`, `fo` and `fooquux` are not. */
  lemma FooCase()
    ensures Build(Trie3Cases.FooNeedles(), '\0', 12).Success?
    ensures var t := Build(Trie3Cases.FooNeedles(), '\0', 12).value;
            && Find(t, []) == None
            && Find(t, [102, 111]) == None
            && Find(t, [102, 111, 111]) == Some('a')
            && Find(t, Quux()) == Some('c')
            && Find(t, Trie3Cases.FooQuux()) == None
  {
    var needles := Trie3Cases.FooNeedles();
    var h := Trie3Cases.FooQuux();
    Trie3Cases.FooLabels();
    assert h[..0] == [] && h[..2] == [102, 111] && h[..3] == [102, 111, 111] && h[..7] == h;
    assert needles[2].bytes == Quux();
    ValueOfDistinct(needles, 2);
    FooFind([]);
    FooFind([102, 111]);
    FooFind([102, 111, 111]);
    FooFind(Quux());
    FooFind(h);
  }

  /** The `aaa` test: `a`, `aa` and `aaa` each find their own value; `""` and `aaaa` find none. */
  lemma AaaCase()
    ensures Build(Trie3Cases.AaaNeedles(), '\0', 12).Success?
    ensures var t := Build(Trie3Cases.AaaNeedles(), '\0', 12).value;
            && Find(t, []) == None
            && Find(t, [97]) == Some('a')
            && Find(t, [97, 97]) == Some('b')
            && Find(t, [97, 97, 97]) == Some('c')
            && Find(t, Trie3Cases.Aaaa()) == None
  {
    var needles := Trie3Cases.AaaNeedles();
    var h := Trie3Cases.Aaaa();
    Trie3Cases.AaaLabels();
    assert h[..0] == [] && h[..1] == [97] && h[..2] == [97, 97] && h[..3] == [97, 97, 97] && h[..4] == h;
    Builds(needles, '\0', 12, []);
    Builds(needles, '\0', 12, [97]);
    Builds(needles, '\0', 12, [97, 97]);
    Builds(needles, '\0', 12, [97, 97, 97]);
    Builds(needles, '\0', 12, h);
  }
}
