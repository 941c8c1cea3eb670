/**
 * What a designator lookup must return, stated once over the label table:
 * the longest label that starts the input, its unit and the bytes after it;
 * or, when no label starts the input, an error that carries the input.
 */
module DesignatorLookup {
  import opened Wrappers
  import opened Units
  import opened Needles
  import opened Designators

  /** The unit and the rest of the input, as every `lookup` returns them. */
  type Found = (Unit, seq<byte>)

  /** `s` is one of the 56 labels. */
  predicate IsLabel(s: seq<byte>) {
    ValueOf(Table(), s).Some?
  }

  /** The reference lookup: the longest label that starts `input`. */
  function Longest(input: seq<byte>): Result<Found, LookupError> {
    match LongestPrefix(Table(), input)
    case Some((unit, n)) => Success((unit, input[n..]))
    case None => if |input| == 0 then Failure(EndOfInput) else Failure(Unrecognized(input))
  }

  /** Label `i` names its own unit: the labels are distinct. */
  lemma LabelValue(i: nat)
    requires i < 56
    ensures ValueOf(Table(), Spelling(i)) == Some(UnitOf(i))
  {
    DesignatorsDistinct();
    ValueOfDistinct(Table(), i);
  }

  /** Every label is a run of designator bytes, so none reaches past a byte that is not one. */
  lemma NoLabelPast(h: seq<byte>, k: nat)
    requires k < |h| && !IsDesignatorByte(h[k])
    ensures forall m | k < m <= |h| :: !IsLabel(h[..m])
  {
    AllShapes();
    forall m | k < m <= |h| ensures !IsLabel(h[..m]) {
      ValueOfSpec(Table(), h[..m]);
      forall i | 0 <= i < 56 ensures Table()[i].bytes != h[..m] {
        assert Table()[i].bytes == Spelling(i);
        assert h[..m][k] == h[k];
      }
    }
  }

  /** The table position of a label. */
  ghost function LabelOf(s: seq<byte>): (i: nat)
    requires IsLabel(s)
    ensures i < 56 && Spelling(i) == s
  {
    LabelSpelled(s);
    var i :| 0 <= i < 56 && Spelling(i) == s;
    i
  }

  /** A label is the spelling of some table position. */
  lemma LabelSpelled(s: seq<byte>)
    requires IsLabel(s)
    ensures exists i | 0 <= i < 56 :: Spelling(i) == s
  {
    ValueOfSpec(Table(), s);
    var i :| 0 <= i < 56 && Table()[i].bytes == s;
    assert Table()[i] == Label(i);
  }

  /** Every byte of a label is a designator byte. */
  lemma LabelBytes(s: seq<byte>, k: nat)
    requires IsLabel(s) && k < |s|
    ensures IsDesignatorByte(s[k])
  {
    AllShapes();
    var i := LabelOf(s);
  }

  /** The empty input is no label: every label has at least one byte. */
  lemma NoEmptyLabel()
    ensures !IsLabel([])
  {
    AllShapes();
    ValueOfSpec(Table(), []);
    forall i | 0 <= i < 56 ensures Table()[i].bytes != [] {
      assert Table()[i].bytes == Spelling(i);
    }
  }

  /**
   * The meaning of the reference: it succeeds exactly when some non-empty
   * prefix of the input is a label; the unit is that of the longest such
   * prefix and the rest is what follows it; otherwise the error is the end of
   * input for an empty input and carries the whole input for any other.
   */
  lemma LongestSpec(input: seq<byte>)
    ensures Longest(input).Success? <==> exists n | 1 <= n <= |input| :: IsLabel(input[..n])
    ensures Longest(input).Success? ==>
              var (unit, rest) := Longest(input).value;
              var n := |input| - |rest|;
              && 1 <= n && input == input[..n] + rest
              && ValueOf(Table(), input[..n]) == Some(unit)
              && forall m | n < m <= |input| :: !IsLabel(input[..m])
    ensures Longest(input).Failure? ==>
              Longest(input).error == if |input| == 0 then EndOfInput else Unrecognized(input)
  {
    NoEmptyLabel();
    EmptyPrefix(input);
    match LongestPrefix(Table(), input)
    case Some((unit, n)) =>
      assert n != 0;
      assert input == input[..n] + input[n..];
    case None =>
  }

  /**
   * When label `i` starts the input and is followed by the end of the input
   * or by a byte that is not a designator byte, the reference finds label `i`.
   */
  lemma LongestLabel(input: seq<byte>, i: nat)
    requires i < 56 && Spelling(i) <= input
    requires |Spelling(i)| == |input| || !IsDesignatorByte(input[|Spelling(i)|])
    ensures Longest(input) == Success((UnitOf(i), input[|Spelling(i)|..]))
  {
    var n := |Spelling(i)|;
    assert input[..n] == Spelling(i);
    LabelValue(i);
    if n < |input| {
      NoLabelPast(input, n);
    }
    LongestPrefixUnique(Table(), input, UnitOf(i), n);
  }
}
