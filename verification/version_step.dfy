/** Stepping a (major, minor, patch) version one release back or forward,
    as the upgrade checker's tests do, with every part counting 0 to 99. */
module VersionStep {
  import opened Results

  datatype Version = Version(major: int, minor: int, patch: int)

  /** Text of the logic error raised when a step leaves the version space. */
  const INVALID_VERSION: string := "Invalid version used!"

  const LAST_PART: int := 99

  /** Minor and patch within 0..99, major not negative. */
  predicate WellFormed(v: Version) {
    0 <= v.major && 0 <= v.minor <= LAST_PART && 0 <= v.patch <= LAST_PART
  }

  /** Position of a well-formed version in release order. */
  function Ordinal(v: Version): int {
    v.major * 10000 + v.minor * 100 + v.patch
  }

  lemma OrdinalInjective(v: Version, w: Version)
    requires WellFormed(v) && WellFormed(w)
    requires Ordinal(v) == Ordinal(w)
    ensures v == w
  {
    assert Ordinal(v) / 100 == v.major * 100 + v.minor && Ordinal(v) % 100 == v.patch;
    assert Ordinal(w) / 100 == w.major * 100 + w.minor && Ordinal(w) % 100 == w.patch;
  }

  /** `before_version`: the release just before `v`, borrowing from minor
      and then major when a part drops below zero; 0.0.0 has none. */
  function BeforeVersion(v: Version): (r: Result<Version, string>)
    ensures r.Raised? <==> v.patch <= 0 && v.minor <= 0 && v.major <= 0
    ensures r.Raised? ==> r.error == INVALID_VERSION
    ensures WellFormed(v) && r.Returned? ==> WellFormed(r.value) && Ordinal(r.value) == Ordinal(v) - 1
  {
    var patch := v.patch - 1;
    if patch < 0 then
      var minor := v.minor - 1;
      if minor < 0 then
        var major := v.major - 1;
        if major < 0 then Raised(INVALID_VERSION)
        else Returned(Version(major, LAST_PART, LAST_PART))
      else Returned(Version(v.major, minor, LAST_PART))
    else Returned(Version(v.major, v.minor, patch))
  }

  /** `after_version`: the release just after `v`, carrying into minor when
      patch passes 99; when minor passes 99 it restarts at 0 and major is
      left as it is. Only a major above 99 is refused, and only then. */
  function AfterVersion(v: Version): (r: Result<Version, string>)
    ensures r.Raised? <==> v.patch >= LAST_PART && v.minor >= LAST_PART && v.major > LAST_PART
    ensures r.Raised? ==> r.error == INVALID_VERSION
    ensures WellFormed(v) && r.Returned? ==> WellFormed(r.value) && r.value.major == v.major
    ensures WellFormed(v) && (v.minor < LAST_PART || v.patch < LAST_PART) ==>
              r.Returned? && Ordinal(r.value) == Ordinal(v) + 1
  {
    var patch := v.patch + 1;
    if patch > LAST_PART then
      var minor := v.minor + 1;
      if minor > LAST_PART then
        if v.major > LAST_PART then Raised(INVALID_VERSION)
        else Returned(Version(v.major, 0, 0))
      else Returned(Version(v.major, minor, 0))
    else Returned(Version(v.major, v.minor, patch))
  }

  /** The quirk of `after_version`: past M.99.99 comes M.0.0, which lies
      9999 releases before it. */
  lemma AfterLastMinorWraps(major: int)
    requires 0 <= major <= LAST_PART
    ensures AfterVersion(Version(major, LAST_PART, LAST_PART)) == Returned(Version(major, 0, 0))
    ensures Ordinal(Version(major, 0, 0)) == Ordinal(Version(major, LAST_PART, LAST_PART)) - 9999
  {
  }

  /** Stepping back then forward returns to `v` unless `v` is an M.0.0. */
  lemma AfterBeforeRoundTrip(v: Version)
    requires WellFormed(v)
    requires v.patch > 0 || v.minor > 0
    ensures BeforeVersion(v).Returned? && AfterVersion(BeforeVersion(v).value) == Returned(v)
  {
    var w := BeforeVersion(v).value;
    assert w.minor < LAST_PART || w.patch < LAST_PART;
    OrdinalInjective(AfterVersion(w).value, v);
  }

  /** Stepping forward then back returns to `v` unless `v` is an M.99.99. */
  lemma BeforeAfterRoundTrip(v: Version)
    requires WellFormed(v)
    requires v.patch < LAST_PART || v.minor < LAST_PART
    ensures AfterVersion(v).Returned? && BeforeVersion(AfterVersion(v).value) == Returned(v)
  {
    var w := AfterVersion(v).value;
    OrdinalInjective(BeforeVersion(w).value, v);
  }

  /** `count` single steps back; the first refused step ends the series. */
  function BeforeN(v: Version, count: nat): (r: Result<Version, string>)
    decreases count
  {
    if count == 0 then Returned(v)
    else
      match BeforeVersion(v)
      case Raised(e) => Raised(e)
      case Returned(w) => BeforeN(w, count - 1)
  }

  /** `count` single steps forward; the first refused step ends the series. */
  function AfterN(v: Version, count: nat): (r: Result<Version, string>)
    decreases count
  {
    if count == 0 then Returned(v)
    else
      match AfterVersion(v)
      case Raised(e) => Raised(e)
      case Returned(w) => AfterN(w, count - 1)
  }

  const INT_MIN: int := -0x8000_0000
  const INT_MAX: int := 0x7FFF_FFFF

  /** A C++ `int`. */
  newtype int32 = x: int | -0x8000_0000 <= x <= 0x7FFF_FFFF

  /** `count--` on a C++ `int`: below `INT_MIN` it wraps to `INT_MAX`, the
      two's-complement result of the overflow. */
  function Decrement(count: int32): (r: int32)
    ensures (r as int - (count as int - 1)) % 0x1_0000_0000 == 0
  {
    if count as int == INT_MIN then INT_MAX as int32 else count - 1
  }

  /** How many times `while (count--)` runs its body: `count` when it is not
      negative, otherwise the decrements down through `INT_MIN` and back
      from `INT_MAX` to zero. */
  function Rounds(count: int32): (n: nat)
    ensures count >= 0 ==> n == count as int
    ensures count < 0 ==> n > INT_MAX
  {
    if count >= 0 then count as int else count as int + 0x1_0000_0000
  }

  /** Each pass through the loop test uses up one round. */
  lemma DecrementRound(count: int32)
    requires count != 0
    ensures Rounds(Decrement(count)) == Rounds(count) - 1
  {
  }

  /** The `count` overload of `before_version`, looping as the source does. */
  method BeforeVersionCount(v: Version, count: int32) returns (r: Result<Version, string>)
    ensures r == BeforeN(v, Rounds(count))
    ensures count == 0 ==> r == Returned(v)
  {
    var result := v;
    var remaining := count;
    while remaining != 0
      invariant BeforeN(result, Rounds(remaining)) == BeforeN(v, Rounds(count))
      decreases Rounds(remaining)
    {
      DecrementRound(remaining);
      remaining := Decrement(remaining);
      var step := BeforeVersion(result);
      if step.Raised? {
        return Raised(step.error);
      }
      result := step.value;
    }
    return Returned(result);
  }

  /** The `count` overload of `after_version`, looping as the source does. */
  method AfterVersionCount(v: Version, count: int32) returns (r: Result<Version, string>)
    ensures r == AfterN(v, Rounds(count))
    ensures count == 0 ==> r == Returned(v)
  {
    var result := v;
    var remaining := count;
    while remaining != 0
      invariant AfterN(result, Rounds(remaining)) == AfterN(v, Rounds(count))
      decreases Rounds(remaining)
    {
      DecrementRound(remaining);
      remaining := Decrement(remaining);
      var step := AfterVersion(result);
      if step.Raised? {
        return Raised(step.error);
      }
      result := step.value;
    }
    return Returned(result);
  }

  /** A negative count steps back past 0.0.0 long before the counter wraps,
      so the series ends in "Invalid version used!". */
  lemma BeforeNegativeCountFails(v: Version, count: int32)
    requires WellFormed(v) && Ordinal(v) <= INT_MAX
    requires count < 0
    ensures BeforeN(v, Rounds(count)) == Raised(INVALID_VERSION)
  {
    BeforeNOrdinal(v, Rounds(count));
    BeforeNError(v, Rounds(count));
  }

  /** A failed series fails with the one message the steps raise. */
  lemma {:induction false} BeforeNError(v: Version, count: nat)
    ensures BeforeN(v, count).Raised? ==> BeforeN(v, count).error == INVALID_VERSION
    decreases count
  {
    if count > 0 {
      match BeforeVersion(v)
      case Raised(_) =>
      case Returned(w) => BeforeNError(w, count - 1);
    }
  }

  /** With a major of at most 99 no forward step fails, whatever the count:
      a negative count keeps the loop going until the counter wraps. */
  lemma {:induction false} AfterNNeverFails(v: Version, count: nat)
    requires WellFormed(v) && v.major <= LAST_PART
    ensures AfterN(v, count).Returned? && WellFormed(AfterN(v, count).value)
    ensures AfterN(v, count).value.major == v.major
    decreases count
  {
    if count > 0 {
      AfterNNeverFails(AfterVersion(v).value, count - 1);
    }
  }

  /** `count` steps back from a well-formed version land `count` releases
      earlier, and fail exactly when that would go below 0.0.0. */
  lemma {:induction false} BeforeNOrdinal(v: Version, count: nat)
    requires WellFormed(v)
    ensures BeforeN(v, count).Returned? <==> count <= Ordinal(v)
    ensures BeforeN(v, count).Returned? ==>
              WellFormed(BeforeN(v, count).value) && Ordinal(BeforeN(v, count).value) == Ordinal(v) - count
    decreases count
  {
    if count > 0 {
      match BeforeVersion(v)
      case Raised(_) =>
        assert Ordinal(v) == 0;
      case Returned(w) =>
        BeforeNOrdinal(w, count - 1);
    }
  }

  /** `count` steps forward land `count` releases later as long as minor
      does not pass 99 on the way. */
  lemma {:induction false} AfterNOrdinal(v: Version, count: nat)
    requires WellFormed(v)
    requires v.minor * 100 + v.patch + count <= LAST_PART * 100 + LAST_PART
    ensures AfterN(v, count).Returned?
    ensures WellFormed(AfterN(v, count).value)
    ensures Ordinal(AfterN(v, count).value) == Ordinal(v) + count
    decreases count
  {
    if count > 0 {
      var w := AfterVersion(v).value;
      assert w.major == v.major;
      AfterNOrdinal(w, count - 1);
    }
  }
}
