/**
 * `TrieAlphabet`: byte-alphabet compression shared by both tries.
 *
 * Every byte that occurs in some needle gets a class of its own, numbered
 * 1..N in ascending byte order; every other byte falls into class 0. When the
 * count reaches 256 (which already happens with 255 distinct bytes, because of
 * the `+1` for the "other" class) the map is the identity instead.
 */
module Alphabet {
  import opened Units
  import opened Needles

  /** `len` classes; `classes[b]` is `equiv_id(b)`, the class of byte `b`. */
  datatype TrieAlphabet = TrieAlphabet(len: nat, classes: seq<byte>)

  /** Byte `b` appears somewhere in some needle. */
  predicate Occurs<V>(needles: seq<Needle<V>>, b: int) {
    exists i | 0 <= i < |needles| :: b in needles[i].bytes
  }

  /** The bytes that occur in some needle. */
  function NeedleBytes<V>(needles: seq<Needle<V>>): set<byte> {
    set b: byte | Occurs(needles, b)
  }

  /** The inner marking loop: set `equiv_set[byte]` for each of `bytes[k..]`. */
  function MarkBytes(bytes: seq<byte>, k: nat, marks: seq<bool>): (r: seq<bool>)
    requires k <= |bytes| && |marks| == 256
    ensures |r| == 256
    ensures forall b | 0 <= b < 256 :: r[b] <==> marks[b] || b in bytes[k..]
    decreases |bytes| - k
  {
    if k == |bytes| then marks
    else
      var r := MarkBytes(bytes, k + 1, marks[bytes[k] := true]);
      assert bytes[k..] == [bytes[k]] + bytes[k + 1..];
      r
  }

  /** The outer marking loop, over the needles from index `i` on. */
  function MarkNeedles<V>(needles: seq<Needle<V>>, i: nat, marks: seq<bool>): (r: seq<bool>)
    requires i <= |needles| && |marks| == 256
    ensures |r| == 256
    ensures forall b | 0 <= b < 256 ::
              r[b] <==> marks[b] || exists j | i <= j < |needles| :: b in needles[j].bytes
    decreases |needles| - i
  {
    if i == |needles| then marks
    else MarkNeedles(needles, i + 1, MarkBytes(needles[i].bytes, 0, marks))
  }

  /** `equiv_set`: which bytes occur in the needles. */
  function Marks<V>(needles: seq<Needle<V>>): (equivSet: seq<bool>)
    ensures |equivSet| == 256
    ensures forall b | 0 <= b < 256 :: equivSet[b] <==> Occurs(needles, b)
  {
    MarkNeedles(needles, 0, seq(256, _ => false))
  }

  /** How many of `marks[..n]` are set. */
  function CountMarked(marks: seq<bool>, n: nat): (c: nat)
    requires n <= |marks|
    ensures c <= n
  {
    if n == 0 then 0 else CountMarked(marks, n - 1) + (if marks[n - 1] then 1 else 0)
  }

  /** The count is the size of the set of marked positions. */
  lemma {:induction false} CountMarkedCard(marks: seq<bool>, n: nat)
    requires n <= |marks|
    ensures CountMarked(marks, n) == |set b | 0 <= b < n && marks[b]|
  {
    if n > 0 {
      CountMarkedCard(marks, n - 1);
      var below := set b | 0 <= b < n - 1 && marks[b];
      if marks[n - 1] {
        assert (set b | 0 <= b < n && marks[b]) == below + {n - 1};
      } else {
        assert (set b | 0 <= b < n && marks[b]) == below;
      }
    }
  }

  /** Every marked position strictly raises the count. */
  lemma {:induction false} CountMarkedGrows(marks: seq<bool>, m: nat, n: nat)
    requires m < n <= |marks| && marks[m]
    ensures CountMarked(marks, m) + 1 <= CountMarked(marks, n)
    decreases n
  {
    if n > m + 1 {
      CountMarkedGrows(marks, m, n - 1);
    }
  }

  /** The count never decreases. */
  lemma {:induction false} CountMarkedMono(marks: seq<bool>, m: nat, n: nat)
    requires m <= n <= |marks|
    ensures CountMarked(marks, m) <= CountMarked(marks, n)
    decreases n
  {
    if n > m {
      CountMarkedMono(marks, m, n - 1);
    }
  }

  /**
   * The compressed class-assignment loop from byte `b` on, with `equivId`
   * the next free class; marked bytes get consecutive classes.
   */
  function AssignClasses(marks: seq<bool>, b: nat, equivId: nat, classes: seq<byte>): (r: seq<byte>)
    requires |marks| == 256 && |classes| == 256 && b <= 256
    requires CountMarked(marks, 256) < 255
    requires equivId == 1 + CountMarked(marks, b)
    ensures |r| == 256
    ensures forall c | 0 <= c < 256 ::
              r[c] == if c < b || !marks[c] then classes[c] else 1 + CountMarked(marks, c)
    decreases 256 - b
  {
    if b == 256 then classes
    else if marks[b] then
      // the source's `assert!(equiv_id < 256)` never fires
      CountMarkedGrows(marks, b, 256);
      AssignClasses(marks, b + 1, equivId + 1, classes[b := equivId])
    else
      AssignClasses(marks, b + 1, equivId, classes)
  }

  /** A class table of `n` bytes all in class 0, as before assignment. */
  function Unassigned(n: nat): (r: seq<byte>)
    ensures |r| == n && forall b | 0 <= b < n :: r[b] == 0
  {
    if n == 0 then [] else Unassigned(n - 1) + [0]
  }

  /** The two facts every alphabet gives a trie: classes below `len`, needle bytes alone. */
  predicate Separates<V>(needles: seq<Needle<V>>, a: TrieAlphabet) {
    && |a.classes| == 256 && 1 <= a.len <= 256
    && (forall b | 0 <= b < 256 :: a.classes[b] < a.len)
    && (forall b, b' | 0 <= b < 256 && 0 <= b' < 256 ::
          Occurs(needles, b) && a.classes[b] == a.classes[b'] ==> b == b')
  }

  /** `TrieAlphabet::new`. */
  function New<V>(needles: seq<Needle<V>>): (a: TrieAlphabet)
    ensures Separates(needles, a)
  {
    var equivSet := Marks(needles);
    // `len` is N + 1 capped at 256; a full alphabet switches to the identity map
    if CountMarked(equivSet, 256) >= 255 then
      IdentitySeparates(needles);
      TrieAlphabet(256, Ascending(256))
    else
      CompressedSeparates(needles);
      TrieAlphabet(CountMarked(equivSet, 256) + 1, AssignClasses(equivSet, 0, 1, Unassigned(256)))
  }

  /** The bytes `0..n` in order; `Ascending(256)` is the identity class table. */
  function Ascending(n: nat): (r: seq<byte>)
    requires n <= 256
    ensures |r| == n && forall b | 0 <= b < n :: r[b] == b
  {
    if n == 0 then [] else Ascending(n - 1) + [n - 1]
  }

  /** With 256 classes the identity table separates every byte. */
  lemma IdentitySeparates<V>(needles: seq<Needle<V>>)
    ensures Separates(needles, TrieAlphabet(256, Ascending(256)))
  {
  }

  /** Every compressed class is below `N + 1`. */
  lemma AssignedBounded(marks: seq<bool>)
    requires |marks| == 256 && CountMarked(marks, 256) < 255
    ensures forall b | 0 <= b < 256 ::
              AssignClasses(marks, 0, 1, Unassigned(256))[b] < CountMarked(marks, 256) + 1
  {
    forall b | 0 <= b < 256 && marks[b]
      ensures 1 + CountMarked(marks, b) < CountMarked(marks, 256) + 1
    {
      CountMarkedGrows(marks, b, 256);
    }
  }

  /** A marked byte shares its compressed class with no other byte. */
  lemma AssignedDistinct(marks: seq<bool>)
    requires |marks| == 256 && CountMarked(marks, 256) < 255
    ensures forall b, b' | 0 <= b < 256 && 0 <= b' < 256 && marks[b] ::
              AssignClasses(marks, 0, 1, Unassigned(256))[b] == AssignClasses(marks, 0, 1, Unassigned(256))[b'] ==> b == b'
  {
    forall b, b' | 0 <= b < b' < 256 && marks[b] && marks[b']
      ensures CountMarked(marks, b) < CountMarked(marks, b')
    {
      CountMarkedGrows(marks, b, b');
    }
  }

  /** The compressed table separates the needle bytes. */
  lemma CompressedSeparates<V>(needles: seq<Needle<V>>)
    requires CountMarked(Marks(needles), 256) < 255
    ensures Separates(needles, TrieAlphabet(CountMarked(Marks(needles), 256) + 1,
                                            AssignClasses(Marks(needles), 0, 1, Unassigned(256))))
  {
    var marks := Marks(needles);
    var a := TrieAlphabet(CountMarked(marks, 256) + 1, AssignClasses(marks, 0, 1, Unassigned(256)));
    AssignedBounded(marks);
    AssignedDistinct(marks);
    forall b, b' | 0 <= b < 256 && 0 <= b' < 256 && Occurs(needles, b) && a.classes[b] == a.classes[b']
      ensures b == b'
    {
      assert marks[b];
    }
  }

  /**
   * The class count: N + 1 for N <= 254 distinct needle bytes, and exactly
   * 256 with the identity map for N >= 255.
   */
  lemma NewLen<V>(needles: seq<Needle<V>>)
    ensures var a, n := New(needles), |NeedleBytes(needles)|;
            && (n <= 254 ==> a.len == n + 1)
            && (n >= 255 ==> a.len == 256 && a.classes == Ascending(256))
  {
    var equivSet := Marks(needles);
    CountMarkedCard(equivSet, 256);
    assert (set b | 0 <= b < 256 && equivSet[b]) == NeedleBytes(needles);
  }

  /**
   * In the compressed case a byte that occurs in no needle is in class 0 and
   * the k-th smallest needle byte (counting from 1) is in class k.
   */
  lemma NewCompressed<V>(needles: seq<Needle<V>>, b: byte)
    requires |NeedleBytes(needles)| <= 254
    ensures var a := New(needles);
            && (!Occurs(needles, b) ==> a.classes[b] == 0)
            && (Occurs(needles, b) ==>
                  && a.classes[b] == 1 + |set c: byte | c < b && Occurs(needles, c)|
                  && 1 <= a.classes[b] <= |NeedleBytes(needles)|)
  {
    var equivSet := Marks(needles);
    NewLen(needles);
    CountMarkedCard(equivSet, 256);
    CountMarkedCard(equivSet, b);
    assert (set c | 0 <= c < b && equivSet[c]) == set c: byte | c < b && Occurs(needles, c);
  }

  /** Needle bytes keep their order: a smaller needle byte has a smaller class. */
  lemma NewAscending<V>(needles: seq<Needle<V>>, b: byte, b': byte)
    requires |NeedleBytes(needles)| <= 254
    requires b < b' && Occurs(needles, b) && Occurs(needles, b')
    ensures New(needles).classes[b] < New(needles).classes[b']
  {
    NewLen(needles);
    CountMarkedGrows(Marks(needles), b, b');
  }
}
