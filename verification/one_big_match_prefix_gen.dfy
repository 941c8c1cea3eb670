/**
 * `one_big_match_prefix_gen.rs`: one slice `match` with an arm per label,
 * longest patterns first, that yields the unit and the pattern length of the
 * first arm whose pattern starts the haystack.
 */
module OneBigMatchPrefixGen {
  import opened Wrappers
  import opened Units
  import opened Needles
  import opened Designators
  import opened DesignatorLookup

  /** One arm: the pattern `&[.., ..]`, the unit and the length the arm returns. */
  datatype Arm = Arm(pattern: seq<byte>, unit: Unit, len: nat)

  /** The arms in source order. */
  function Arms(k: nat): Arm
    requires k < 56
  {
    match k
    case 0 => Arm([109, 105, 108, 108, 105, 115, 101, 99, 111, 110, 100, 115], Millisecond, 12)  // milliseconds
    case 1 => Arm([109, 105, 99, 114, 111, 115, 101, 99, 111, 110, 100, 115], Microsecond, 12)  // microseconds
    case 2 => Arm([110, 97, 110, 111, 115, 101, 99, 111, 110, 100, 115], Nanosecond, 11)  // nanoseconds
    case 3 => Arm([109, 105, 108, 108, 105, 115, 101, 99, 111, 110, 100], Millisecond, 11)  // millisecond
    case 4 => Arm([109, 105, 99, 114, 111, 115, 101, 99, 111, 110, 100], Microsecond, 11)  // microsecond
    case 5 => Arm([110, 97, 110, 111, 115, 101, 99, 111, 110, 100], Nanosecond, 10)  // nanosecond
    case 6 => Arm([115, 101, 99, 111, 110, 100, 115], Second, 7)  // seconds
    case 7 => Arm([109, 105, 110, 117, 116, 101, 115], Minute, 7)  // minutes
    case 8 => Arm([194, 181, 115, 101, 99, 115], Microsecond, 6)  // µsecs
    case 9 => Arm([115, 101, 99, 111, 110, 100], Second, 6)  // second
    case 10 => Arm([109, 111, 110, 116, 104, 115], Month, 6)  // months
    case 11 => Arm([109, 105, 110, 117, 116, 101], Minute, 6)  // minute
    case 12 => Arm([109, 105, 108, 108, 105, 115], Millisecond, 6)  // millis
    case 13 => Arm([109, 105, 99, 114, 111, 115], Microsecond, 6)  // micros
    case 14 => Arm([194, 181, 115, 101, 99], Microsecond, 5)  // µsec
    case 15 => Arm([121, 101, 97, 114, 115], Year, 5)  // years
    case 16 => Arm([119, 101, 101, 107, 115], Week, 5)  // weeks
    case 17 => Arm([117, 115, 101, 99, 115], Microsecond, 5)  // usecs
    case 18 => Arm([110, 115, 101, 99, 115], Nanosecond, 5)  // nsecs
    case 19 => Arm([110, 97, 110, 111, 115], Nanosecond, 5)  // nanos
    case 20 => Arm([109, 115, 101, 99, 115], Millisecond, 5)  // msecs
    case 21 => Arm([109, 111, 110, 116, 104], Month, 5)  // month
    case 22 => Arm([109, 105, 108, 108, 105], Millisecond, 5)  // milli
    case 23 => Arm([109, 105, 99, 114, 111], Microsecond, 5)  // micro
    case 24 => Arm([104, 111, 117, 114, 115], Hour, 5)  // hours
    case 25 => Arm([121, 101, 97, 114], Year, 4)  // year
    case 26 => Arm([119, 101, 101, 107], Week, 4)  // week
    case 27 => Arm([117, 115, 101, 99], Microsecond, 4)  // usec
    case 28 => Arm([115, 101, 99, 115], Second, 4)  // secs
    case 29 => Arm([110, 115, 101, 99], Nanosecond, 4)  // nsec
    case 30 => Arm([110, 97, 110, 111], Nanosecond, 4)  // nano
    case 31 => Arm([109, 115, 101, 99], Millisecond, 4)  // msec
    case 32 => Arm([109, 105, 110, 115], Minute, 4)  // mins
    case 33 => Arm([104, 111, 117, 114], Hour, 4)  // hour
    case 34 => Arm([100, 97, 121, 115], Day, 4)  // days
    case 35 => Arm([194, 181, 115], Microsecond, 3)  // µs
    case 36 => Arm([121, 114, 115], Year, 3)  // yrs
    case 37 => Arm([119, 107, 115], Week, 3)  // wks
    case 38 => Arm([115, 101, 99], Second, 3)  // sec
    case 39 => Arm([109, 111, 115], Month, 3)  // mos
    case 40 => Arm([109, 105, 110], Minute, 3)  // min
    case 41 => Arm([104, 114, 115], Hour, 3)  // hrs
    case 42 => Arm([100, 97, 121], Day, 3)  // day
    case 43 => Arm([121, 114], Year, 2)  // yr
    case 44 => Arm([119, 107], Week, 2)  // wk
    case 45 => Arm([117, 115], Microsecond, 2)  // us
    case 46 => Arm([110, 115], Nanosecond, 2)  // ns
    case 47 => Arm([109, 115], Millisecond, 2)  // ms
    case 48 => Arm([109, 111], Month, 2)  // mo
    case 49 => Arm([104, 114], Hour, 2)  // hr
    case 50 => Arm([121], Year, 1)  // y
    case 51 => Arm([119], Week, 1)  // w
    case 52 => Arm([115], Second, 1)  // s
    case 53 => Arm([109], Minute, 1)  // m
    case 54 => Arm([104], Hour, 1)  // h
    case 55 => Arm([100], Day, 1)  // d
    case _ => Arm([], Year, 0)
  }

  /** Arm `k` spells the label of rank `k`, yields its unit, and returns the pattern's own length. */
  predicate ArmIsRanked(k: nat)
    requires k < 56
  {
    && Arms(k).pattern == Spelling(ByRank(k))
    && Arms(k).unit == UnitOf(ByRank(k))
    && Arms(k).len == |Arms(k).pattern|
  }

  // The arms checked against the ranking, a few at a time.

  lemma ArmsFrom0() ensures forall k | 0 <= k < 7 :: ArmIsRanked(k) { }
  lemma ArmsFrom7() ensures forall k | 7 <= k < 14 :: ArmIsRanked(k) { }
  lemma ArmsFrom14() ensures forall k | 14 <= k < 21 :: ArmIsRanked(k) { }
  lemma ArmsFrom21() ensures forall k | 21 <= k < 28 :: ArmIsRanked(k) { }
  lemma ArmsFrom28() ensures forall k | 28 <= k < 35 :: ArmIsRanked(k) { }
  lemma ArmsFrom35() ensures forall k | 35 <= k < 42 :: ArmIsRanked(k) { }
  lemma ArmsFrom42() ensures forall k | 42 <= k < 49 :: ArmIsRanked(k) { }
  lemma ArmsFrom49() ensures forall k | 49 <= k < 56 :: ArmIsRanked(k) { }

  lemma AllArms()
    ensures forall k | 0 <= k < 56 :: ArmIsRanked(k)
  {
    ArmsFrom0();
    ArmsFrom7();
    ArmsFrom14();
    ArmsFrom21();
    ArmsFrom28();
    ArmsFrom35();
    ArmsFrom42();
    ArmsFrom49();
  }

  /** The arms as a list. */
  function ArmList(): (arms: seq<Arm>)
    ensures |arms| == 56 && forall k | 0 <= k < 56 :: arms[k] == Arms(k)
  {
    seq(56, k requires 0 <= k < 56 => Arms(k))
  }

  /** The first arm from `k` on whose pattern starts `h`, or `|arms|` when none does. */
  function FirstArm(arms: seq<Arm>, h: seq<byte>, k: nat): (j: nat)
    requires k <= |arms|
    ensures k <= j <= |arms|
    ensures j < |arms| ==> arms[j].pattern <= h
    ensures forall j' | k <= j' < j :: !(arms[j'].pattern <= h)
    decreases |arms| - k
  {
    if k == |arms| then k
    else if arms[k].pattern <= h then k
    else FirstArm(arms, h, k + 1)
  }

  /** `find`: the first matching arm, which is the longest label that starts the haystack. */
  function Find(h: seq<byte>): (r: Option<(Unit, nat)>)
    ensures r == LongestPrefix(Table(), h)
  {
    var arms := ArmList();
    var j := FirstArm(arms, h, 0);
    ArmListRanked();
    if j == |arms| then
      NoArmNoLabel(arms, Table(), h);
      None
    else
      FirstArmLongest(arms, Table(), h);
      Some((arms[j].unit, arms[j].len))
  }

  /**
   * `arms` lists exactly the labels of `needles`, each with the unit the
   * label names and its own length, and runs from longer to shorter patterns.
   */
  ghost predicate Ranked(arms: seq<Arm>, needles: seq<Needle<Unit>>) {
    && (forall k | 0 <= k < |arms| ::
          ValueOf(needles, arms[k].pattern) == Some(arms[k].unit) && arms[k].len == |arms[k].pattern|)
    && (forall s | ValueOf(needles, s).Some? :: exists k | 0 <= k < |arms| :: arms[k].pattern == s)
    && (forall k, k' | 0 <= k < k' < |arms| :: |arms[k].pattern| >= |arms[k'].pattern|)
  }

  /** In a ranked arm list, when no arm matches, no label starts `h`. */
  lemma NoArmNoLabel(arms: seq<Arm>, needles: seq<Needle<Unit>>, h: seq<byte>)
    requires Ranked(arms, needles) && FirstArm(arms, h, 0) == |arms|
    ensures LongestPrefix(needles, h).None?
  {
    forall m | 0 <= m <= |h| ensures ValueOf(needles, h[..m]).None? {
      assert forall k | 0 <= k < |arms| :: arms[k].pattern != h[..m];
    }
  }

  /**
   * In a ranked arm list the first arm that matches spells the longest label
   * that starts `h`: a longer one would be the pattern of an earlier arm.
   */
  lemma FirstArmLongest(arms: seq<Arm>, needles: seq<Needle<Unit>>, h: seq<byte>)
    requires Ranked(arms, needles) && FirstArm(arms, h, 0) < |arms|
    ensures var j := FirstArm(arms, h, 0);
            LongestPrefix(needles, h) == Some((arms[j].unit, arms[j].len))
  {
    var j := FirstArm(arms, h, 0);
    var n := arms[j].len;
    assert h[..n] == arms[j].pattern;
    forall m | n < m <= |h| ensures ValueOf(needles, h[..m]).None? {
      assert forall k | 0 <= k < |arms| :: arms[k].pattern != h[..m];
    }
    LongestPrefixUnique(needles, h, arms[j].unit, n);
  }

  /** The arms list the labels with their units, longest first. */
  lemma ArmListRanked()
    ensures Ranked(ArmList(), Table())
  {
    ArmsNameLabels();
    ArmsReturnLength();
    LabelsHaveArms();
    ArmsDescend();
  }

  /** Every arm spells a label and yields that label's unit. */
  lemma ArmsNameLabels()
    ensures forall k | 0 <= k < 56 :: ValueOf(Table(), ArmList()[k].pattern) == Some(ArmList()[k].unit)
  {
    AllArms();
    forall k | 0 <= k < 56
      ensures ValueOf(Table(), ArmList()[k].pattern) == Some(ArmList()[k].unit)
    {
      assert ArmIsRanked(k);
      LabelValue(ByRank(k));
    }
  }

  /** Every arm returns the length of its own pattern. */
  lemma ArmsReturnLength()
    ensures forall k | 0 <= k < 56 :: ArmList()[k].len == |ArmList()[k].pattern|
  {
    AllArms();
  }

  /** Every label is the pattern of some arm: the one of its rank. */
  lemma LabelsHaveArms()
    ensures forall s | ValueOf(Table(), s).Some? :: exists k | 0 <= k < 56 :: ArmList()[k].pattern == s
  {
    AllArms();
    AllShapes();
    forall s | ValueOf(Table(), s).Some?
      ensures exists k | 0 <= k < 56 :: ArmList()[k].pattern == s
    {
      var i := LabelOf(s);
      assert ArmIsRanked(Rank(i));
      assert ArmList()[Rank(i)].pattern == s;
    }
  }

  /** Arm patterns never grow from one arm to a later one. */
  lemma ArmsDescend()
    ensures forall k, k' | 0 <= k < k' < 56 :: |ArmList()[k].pattern| >= |ArmList()[k'].pattern|
  {
    AllArms();
    RankedDescending();
    forall k, k' | 0 <= k < k' < 56
      ensures |ArmList()[k].pattern| >= |ArmList()[k'].pattern|
    {
      assert ArmIsRanked(k) && ArmIsRanked(k');
      assert Outranks(Spelling(ByRank(k)), Spelling(ByRank(k')));
    }
  }
}
