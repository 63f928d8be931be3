/**
 * Iceberg's timestamp partition transform: a timestamp in microseconds from
 * 1970-01-01T00:00Z, shifted by a fixed zone offset, becomes the number of
 * whole years, months, days or hours since the epoch. The transform is an
 * immutable value of a granularity, the name it was created under and the
 * offset; the four subclasses of the source are the four granularities.
 */
module TimestampTransform {
  import opened Wrappers
  import opened JavaMath
  import opened ChronoUnits
  import opened ZoneOffsets

  /** The kind of an Iceberg type. */
  datatype TypeId =
    | Boolean | Integer | Long | Float | Double | DateType | Time | Timestamp
    | String | Uuid | Fixed | Binary | Decimal | Struct | List | Map

  datatype Transform = Transform(granularity: Granularity, name: string, zoneOffset: ZoneOffset)

  /** The UnsupportedOperationException raised by the factory, by its cause. */
  datatype TransformError =
    | UnsupportedTimestampMethod(name: string)
    | CannotTransformType(typeId: TypeId)

  // ---- Construction -------------------------------------------------------

  /** The method name that selects each granularity, in lower case. */
  function NameOf(g: Granularity): string {
    match g
    case Year => "year"
    case Month => "month"
    case Day => "day"
    case Hour => "hour"
  }

  /** Lower-casing with the English locale, on the letters A to Z. */
  function LowerAscii(s: string): (r: string)
    ensures |r| == |s|
    ensures forall i :: 0 <= i < |r| ==> !('A' <= r[i] <= 'Z')
    ensures forall i :: 0 <= i < |s| && !('A' <= s[i] <= 'Z') ==> r[i] == s[i]
    ensures forall i :: 0 <= i < |s| && 'A' <= s[i] <= 'Z' ==> r[i] as int == s[i] as int + ('a' as int - 'A' as int)
  {
    seq(|s|, i requires 0 <= i < |s| => if 'A' <= s[i] <= 'Z' then (s[i] as int + 32) as char else s[i])
  }

  /** The granularity a lower-cased method name selects, if any. */
  function GranularityNamed(lowerName: string): (r: Option<Granularity>)
    ensures r.Some? ==> NameOf(r.value) == lowerName
    ensures r.None? ==> forall g :: NameOf(g) != lowerName
  {
    match lowerName
    case "year" => Some(Year)
    case "month" => Some(Month)
    case "day" => Some(Day)
    case "hour" => Some(Hour)
    case _ => None
  }

  /** The private constructor: an absent offset id means UTC. */
  function Make(g: Granularity, name: string, offset: Option<ZoneOffset>): (t: Transform)
    ensures t.granularity == g && t.name == name
    ensures offset.None? ==> t.zoneOffset == UTC
    ensures offset.Some? ==> t.zoneOffset == offset.value
  {
    Transform(g, name, if offset.None? then UTC else offset.value)
  }

  /**
   * The factory `get`: a timestamp type and a method name that is "year",
   * "month", "day" or "hour" ignoring case; the transform keeps the
   * lower-cased name.
   */
  function Get(typeId: TypeId, name: string, offset: Option<ZoneOffset>): (r: Result<Transform, TransformError>)
    ensures typeId != Timestamp ==> r == Failure(CannotTransformType(typeId))
    ensures typeId == Timestamp ==> (r.Success? <==> exists g :: NameOf(g) == LowerAscii(name))
    ensures typeId == Timestamp && r.Failure? ==> r.error == UnsupportedTimestampMethod(name)
    ensures r.Success? ==> r.value.name == LowerAscii(name) && NameOf(r.value.granularity) == r.value.name
    ensures r.Success? && offset.None? ==> r.value.zoneOffset == UTC
    ensures r.Success? && offset.Some? ==> r.value.zoneOffset == offset.value
  {
    if typeId == Timestamp then
      var lowerName := LowerAscii(name);
      match GranularityNamed(lowerName)
      case Some(g) => Success(Make(g, lowerName, offset))
      case None => Failure(UnsupportedTimestampMethod(name))
    else
      Failure(CannotTransformType(typeId))
  }

  /** A transform as the factory builds it: its name is its granularity's. */
  predicate WellNamed(t: Transform) {
    t.name == NameOf(t.granularity)
  }

  /** Names that differ only in the case of A to Z give the same result. */
  lemma GetIgnoresCase(typeId: TypeId, name1: string, name2: string, offset: Option<ZoneOffset>)
    requires LowerAscii(name1) == LowerAscii(name2)
    ensures Get(typeId, name1, offset).Success? <==> Get(typeId, name2, offset).Success?
    ensures Get(typeId, name1, offset).Success? ==> Get(typeId, name1, offset) == Get(typeId, name2, offset)
  {
  }

  /** Every granularity's own name is already lower case. */
  lemma NameOfIsLowerCase(g: Granularity)
    ensures LowerAscii(NameOf(g)) == NameOf(g)
  {
    var n := NameOf(g);
    assert forall i :: 0 <= i < |n| ==> !('A' <= n[i] <= 'Z');
  }

  /** The factory, given a transform's own name and offset, rebuilds it. */
  lemma GetRebuildsTransform(t: Transform)
    requires WellNamed(t)
    ensures Get(Timestamp, t.name, Some(t.zoneOffset)) == Success(t)
  {
    NameOfIsLowerCase(t.granularity);
  }

  /** Upper-case names are accepted and stored in lower case. */
  lemma GetUpperCaseName()
    ensures Get(Timestamp, "MONTH", None) == Success(Transform(Month, "month", UTC))
    ensures Get(Timestamp, "Hour", None) == Success(Transform(Hour, "hour", UTC))
    ensures Get(Timestamp, "week", None) == Failure(UnsupportedTimestampMethod("week"))
    ensures Get(DateType, "day", None) == Failure(CannotTransformType(DateType))
  {
    assert LowerAscii("MONTH") == "month";
    assert LowerAscii("Hour") == "hour";
    assert LowerAscii("week") == "week";
  }

  // ---- Bucketing ----------------------------------------------------------

  /** The shifted instant, in whole seconds: microseconds divided as Java does, plus the offset. */
  function LocalSeconds(t: Transform, micros: int): (r: int)
    ensures var whole := r - t.zoneOffset.totalSeconds;
      && (micros >= 0 ==> 0 <= whole && 1_000_000 * whole <= micros < 1_000_000 * whole + 1_000_000)
      && (micros < 0 ==> whole <= 0 && 1_000_000 * whole - 1_000_000 < micros <= 1_000_000 * whole)
  {
    TruncDiv(micros, 1_000_000) + t.zoneOffset.totalSeconds
  }

  /** ChronoUnit.between(EPOCH, the shifted instant), before the cast to int. */
  function Bucket(t: Transform, micros: int): int {
    UnitsFromEpoch(t.granularity, LocalSeconds(t, micros))
  }

  /** An int64 timestamp, shifted, lies within MAX_LOCAL_SECONDS of the epoch. */
  lemma LocalSecondsRange(t: Transform, micros: int64)
    ensures -MAX_LOCAL_SECONDS <= LocalSeconds(t, micros) <= MAX_LOCAL_SECONDS
  {
    TruncDivMonotone(INT64_MIN, micros, 1_000_000);
    TruncDivMonotone(micros, INT64_MAX, 1_000_000);
    TruncDivUnique(INT64_MIN, 1_000_000, -(INT64_MAX / 1_000_000));
    TruncDivUnique(INT64_MAX, 1_000_000, INT64_MAX / 1_000_000);
  }

  /** For YEARS, MONTHS and DAYS every int64 timestamp has a bucket that fits an int. */
  lemma CalendarBucketFits(t: Transform, micros: int64)
    requires t.granularity != Hour
    ensures IsInt32(Bucket(t, micros))
  {
    LocalSecondsRange(t, micros);
    CalendarUnitsFitInt32(t.granularity, LocalSeconds(t, micros));
  }

  /** The bucket counts whole units between the epoch and the shifted instant, toward zero. */
  lemma BucketCounts(t: Transform, micros: int)
    ensures CountsWholeUnits(t.granularity, LocalSeconds(t, micros), Bucket(t, micros))
  {
    UnitsFromEpochCounts(t.granularity, LocalSeconds(t, micros));
  }

  /**
   * `apply`: null stays null; otherwise the bucket, narrowed to int as the
   * `(int)` cast does, which leaves it unchanged whenever it fits, and always
   * for YEARS, MONTHS and DAYS.
   */
  function Apply(t: Transform, micros: Option<int64>): (r: Option<int32>)
    ensures r.None? <==> micros.None?
    ensures r.Some? && t.granularity != Hour ==> r.value == Bucket(t, micros.value)
    ensures r.Some? && IsInt32(Bucket(t, micros.value)) ==> r.value == Bucket(t, micros.value)
    ensures r.Some? ==> (Bucket(t, micros.value) - r.value) % TWO_TO_THE_32 == 0
  {
    match micros
    case None => None
    case Some(m) =>
      if t.granularity != Hour then
        CalendarBucketFits(t, m);
        Some(NarrowToInt32(Bucket(t, m)))
      else
        Some(NarrowToInt32(Bucket(t, m)))
  }

  /**
   * Where the cast does not wrap, `apply` is the number of whole units between
   * the epoch and the shifted instant, counted toward zero.
   */
  lemma ApplyCountsWholeUnits(t: Transform, micros: int64)
    requires t.granularity == Hour ==> IsInt32(Bucket(t, micros))
    ensures CountsWholeUnits(t.granularity, LocalSeconds(t, micros), Apply(t, Some(micros)).value)
  {
    BucketCounts(t, micros);
  }

  /** HOURS and DAYS are the shifted second count divided by the unit, truncated toward zero. */
  lemma HourAndDayTruncate(t: Transform, micros: int)
    ensures t.granularity == Hour ==> Bucket(t, micros) == TruncDiv(LocalSeconds(t, micros), SECONDS_PER_HOUR)
    ensures t.granularity == Day ==> Bucket(t, micros) == TruncDiv(LocalSeconds(t, micros), SECONDS_PER_DAY)
  {
  }

  /** HOURS fits an int exactly when the shifted instant is less than 2^31 hours from the epoch. */
  lemma HourBucketFits(t: Transform, micros: int)
    requires t.granularity == Hour
    ensures IsInt32(Bucket(t, micros)) <==> -7730941136400 < LocalSeconds(t, micros) < 7730941132800
  {
    HourUnitsFitInt32(LocalSeconds(t, micros));
  }

  /** The bucket never decreases as the timestamp grows. */
  lemma BucketMonotone(t: Transform, micros1: int, micros2: int)
    requires micros1 <= micros2
    ensures Bucket(t, micros1) <= Bucket(t, micros2)
  {
    TruncDivMonotone(micros1, micros2, 1_000_000);
    UnitsFromEpochMonotone(t.granularity, LocalSeconds(t, micros1), LocalSeconds(t, micros2));
  }

  /** `apply` is monotone wherever the cast does not wrap, which is everywhere but far-off HOURS. */
  lemma ApplyMonotone(t: Transform, micros1: int64, micros2: int64)
    requires micros1 <= micros2
    requires t.granularity == Hour ==> IsInt32(Bucket(t, micros1)) && IsInt32(Bucket(t, micros2))
    ensures Apply(t, Some(micros1)).value <= Apply(t, Some(micros2)).value
  {
    BucketMonotone(t, micros1, micros2);
    if t.granularity != Hour {
      CalendarBucketFits(t, micros1);
      CalendarBucketFits(t, micros2);
    }
  }

  /** A smaller result means an earlier timestamp: the order inclusive and strict bounds rely on. */
  lemma ApplyOrderReflected(t: Transform, micros1: int64, micros2: int64)
    requires t.granularity == Hour ==> IsInt32(Bucket(t, micros1)) && IsInt32(Bucket(t, micros2))
    requires Apply(t, Some(micros1)).value < Apply(t, Some(micros2)).value
    ensures micros1 < micros2
  {
    if micros2 <= micros1 {
      ApplyMonotone(t, micros2, micros1);
    }
  }

  /** The result is 0 exactly when the shifted instant is strictly within one unit of the epoch. */
  lemma ApplyZero(t: Transform, micros: int64)
    requires t.granularity == Hour ==> IsInt32(Bucket(t, micros))
    ensures var s := LocalSeconds(t, micros);
      Apply(t, Some(micros)).value == 0 <==> UnitStart(t.granularity, -1) < s < UnitStart(t.granularity, 1)
  {
    if t.granularity != Hour {
      CalendarBucketFits(t, micros);
    }
    UnitsFromEpochZero(t.granularity, LocalSeconds(t, micros));
  }

  /** At UTC, every timestamp within a second of the epoch, on either side, falls in bucket 0. */
  lemma ApplyNearEpochIsZero(t: Transform, micros: int64)
    requires t.zoneOffset == UTC
    requires -1_000_000 < micros < 1_000_000
    ensures Apply(t, Some(micros)) == Some(0)
  {
    TruncDivUnique(micros, 1_000_000, 0);
    assert LocalSeconds(t, micros) == 0;
    if t.granularity == Hour {
      TruncDivUnique(0, SECONDS_PER_HOUR, 0);
    } else {
      UnitsWithinADayOfEpoch(t.granularity, 0);
    }
  }

  /**
   * An offset of `o` seconds moves every bucket boundary by `o` seconds: the
   * transform sees the timestamp the UTC transform of the same granularity
   * sees `o` seconds later, as long as that shift does not carry the
   * microseconds across zero.
   */
  lemma OffsetShiftsBoundaries(t: Transform, utc: Transform, micros: int, shifted: int)
    requires utc.granularity == t.granularity && utc.zoneOffset == UTC
    requires shifted == micros + t.zoneOffset.totalSeconds * 1_000_000
    requires (micros >= 0 && shifted >= 0) || (micros <= 0 && shifted <= 0)
    ensures Bucket(t, micros) == Bucket(utc, shifted)
  {
    TruncDivShiftMillion(micros, t.zoneOffset.totalSeconds);
    assert LocalSeconds(t, micros) == LocalSeconds(utc, shifted);
  }

  /**
   * The offset is added after the microseconds are truncated toward zero, so
   * when the timestamp and the shifted value lie on opposite sides of zero the
   * bucket is one unit off the bucket of the shifted instant. At +01:00 the
   * timestamp one microsecond before the epoch (00:59:59.999999 local time)
   * lands in hour 1, where the UTC transform at the shifted value gives hour 0;
   * at -01:00 the timestamp one microsecond after the epoch lands in hour -1.
   * The instant is a parameter pinned by `requires` rather than a literal in the
   * ensures, so that the solver does not unfold the calendar functions on constants.
   */
  lemma TruncationBeforeShift(plus: Transform, minus: Transform, utc: Transform, one: int64)
    requires plus.granularity == Hour && minus.granularity == Hour && utc.granularity == Hour
    requires plus.zoneOffset.totalSeconds == 3600 && minus.zoneOffset.totalSeconds == -3600
    requires utc.zoneOffset == UTC && one == 1
    ensures Apply(plus, Some(-one)) == Some(1) && Apply(utc, Some(3_600_000_000 - one)) == Some(0)
    ensures Apply(minus, Some(one)) == Some(-1) && Apply(utc, Some(one - 3_600_000_000)) == Some(0)
  {
    TruncDivUnique(-one, 1_000_000, 0);
    TruncDivUnique(one, 1_000_000, 0);
    TruncDivUnique(3_600_000_000 - one, 1_000_000, 3599);
    TruncDivUnique(one - 3_600_000_000, 1_000_000, -3599);
    TruncDivUnique(3600, SECONDS_PER_HOUR, 1);
    TruncDivUnique(-3600, SECONDS_PER_HOUR, -1);
    TruncDivUnique(3599, SECONDS_PER_HOUR, 0);
    TruncDivUnique(-3599, SECONDS_PER_HOUR, 0);
  }

  /**
   * 2021-06-15T10:30:00Z at UTC: hour 451042 and day 18793.
   * The instant is a parameter pinned by `requires` rather than a literal in the
   * ensures, so that the solver does not unfold the calendar functions on constants.
   */
  lemma ApplyScenarioHourDay(t: Transform, micros: int64)
    requires t.zoneOffset == UTC && micros == 1_623_753_000_000_000
    ensures t.granularity == Hour ==> Apply(t, Some(micros)) == Some(451042)
    ensures t.granularity == Day ==> Apply(t, Some(micros)) == Some(18793)
  {
    TruncDivUnique(micros, 1_000_000, 1_623_753_000);
    TruncDivUnique(1_623_753_000, SECONDS_PER_HOUR, 451042);
    TruncDivUnique(1_623_753_000, SECONDS_PER_DAY, 18793);
  }

  /**
   * 2021-06-15T10:30:00Z at UTC: month 617 and year 51.
   * The instant is a parameter pinned by `requires` rather than a literal in the
   * ensures, so that the solver does not unfold the calendar functions on constants.
   */
  lemma ApplyScenarioMonthYear(t: Transform, micros: int64)
    requires t.zoneOffset == UTC && micros == 1_623_753_000_000_000
    ensures t.granularity == Month ==> Apply(t, Some(micros)) == Some(617)
    ensures t.granularity == Year ==> Apply(t, Some(micros)) == Some(51)
  {
    TruncDivUnique(micros, 1_000_000, 1_623_753_000);
    var s := LocalSeconds(t, micros);
    ScenarioMonth(s);
    ScenarioYear(s);
  }

  /**
   * At UTC, YEARS, MONTHS and DAYS put every timestamp within a day of the
   * epoch, on either side, in bucket 0: rounding toward zero makes bucket 0
   * span two units (two days for DAYS).
   */
  lemma ApplyWithinADayOfEpoch(t: Transform, micros: int64)
    requires t.zoneOffset == UTC && t.granularity != Hour
    requires -86_400_000_000 < micros < 86_400_000_000
    ensures Apply(t, Some(micros)) == Some(0)
  {
    SecondsWithinADay(micros);
    UnitsWithinADayOfEpoch(t.granularity, LocalSeconds(t, micros));
  }

  /** Microseconds within a day of the epoch make whole seconds within a day of it. */
  lemma SecondsWithinADay(micros: int)
    requires -86_400_000_000 < micros < 86_400_000_000
    ensures -SECONDS_PER_DAY < TruncDiv(micros, 1_000_000) < SECONDS_PER_DAY
  {
  }

  /**
   * 1969-12-31T12:00:00Z at UTC falls in hour -12.
   * The instant is a parameter pinned by `requires` rather than a literal in the
   * ensures, so that the solver does not unfold the calendar functions on constants.
   */
  lemma ApplyPreEpochHour(t: Transform, micros: int64)
    requires t.zoneOffset == UTC && t.granularity == Hour && micros == -43_200_000_000
    ensures Apply(t, Some(micros)) == Some(-12)
  {
    TruncDivUnique(micros, 1_000_000, -43_200);
    TruncDivUnique(-43_200, SECONDS_PER_HOUR, -12);
  }

  /**
   * The `(int)` cast wraps HOURS for the latest int64 timestamps: the largest
   * one lands in a negative bucket, below the epoch's.
   */
  lemma ApplyHourWrapsAtRangeEnd()
    ensures Bucket(Transform(Hour, "hour", UTC), INT64_MAX) == 2562047788
    ensures Apply(Transform(Hour, "hour", UTC), Some(INT64_MAX)) == Some(-1732919508)
    ensures Apply(Transform(Hour, "hour", UTC), Some(0)) == Some(0)
  {
    var s := 9_223_372_036_854;
    TruncDivUnique(INT64_MAX, 1_000_000, s);
    TruncDivUnique(s, SECONDS_PER_HOUR, 2562047788);
    TruncDivUnique(0, 1_000_000, 0);
    TruncDivUnique(0, SECONDS_PER_HOUR, 0);
  }

  // ---- Typing -------------------------------------------------------------

  /** `canTransform`: only timestamps are accepted. */
  function CanTransform(t: Transform, typeId: TypeId): (r: bool)
    ensures r <==> typeId == Timestamp
  {
    typeId == Timestamp
  }

  /** `getResultType`: DAYS produce dates, the others plain ints, whatever the source type. */
  function ResultType(t: Transform, sourceType: TypeId): (r: TypeId)
    ensures r == DateType <==> t.granularity == Day
    ensures r == DateType || r == Integer
  {
    if t.granularity == Day then DateType else Integer
  }

  /** The factory builds transforms only for the types they can transform. */
  lemma GetOnlyForTransformableTypes(typeId: TypeId, name: string, offset: Option<ZoneOffset>)
    requires Get(typeId, name, offset).Success?
    ensures CanTransform(Get(typeId, name, offset).value, typeId)
  {
  }

  /** A transform from the factory produces dates exactly when it was asked for "day", in any case. */
  lemma ResultTypeOfGet(name: string, offset: Option<ZoneOffset>, sourceType: TypeId)
    requires Get(Timestamp, name, offset).Success?
    ensures ResultType(Get(Timestamp, name, offset).value, sourceType) == DateType <==> LowerAscii(name) == "day"
  {
  }

  // ---- Projection ---------------------------------------------------------

  datatype Operation =
    | IsNull | NotNull | IsNaN | NotNaN
    | Lt | LtEq | Gt | GtEq | Eq | NotEq
    | In | NotIn | StartsWith | NotStartsWith

  /** The term a bound predicate tests: a column, or a transform applied to one. */
  datatype Term =
    | BoundReference(fieldName: string)
    | BoundTransform(fieldName: string, transformName: string)

  /** A bound predicate, by shape: no operand, one literal, or a set of literals. */
  datatype BoundPredicate =
    | UnaryPredicate(op: Operation, term: Term)
    | LiteralPredicate(op: Operation, term: Term, literal: int)
    | SetPredicate(op: Operation, term: Term, literals: set<int>)

  /**
   * The unbound predicate on the partition field a projection returns, given
   * as the helper call that builds it.
   */
  datatype Projected =
    | ProjectTransformPredicate(transform: Transform, name: string, pred: BoundPredicate)
    | PredicateOnField(op: Operation, fieldName: string)
    | TruncateLong(fieldName: string, pred: BoundPredicate, transform: Transform)
    | TruncateLongStrict(fieldName: string, pred: BoundPredicate, transform: Transform)
    | TransformSet(fieldName: string, pred: BoundPredicate, transform: Transform)

  /**
   * `project`, the inclusive projection: a predicate on a transform term goes
   * to projectTransformPredicate; otherwise a unary predicate keeps its
   * operation on the partition field, a literal predicate is truncated, an IN
   * set is transformed, and anything else projects to nothing.
   */
  function Project(t: Transform, fieldName: string, pred: BoundPredicate): (r: Option<Projected>)
    ensures pred.term.BoundTransform? ==> r == Some(ProjectTransformPredicate(t, t.name, pred))
    ensures r.None? <==> !pred.term.BoundTransform? && pred.SetPredicate? && pred.op != In
    ensures !pred.term.BoundTransform? && pred.UnaryPredicate? ==> r == Some(PredicateOnField(pred.op, fieldName))
    ensures !pred.term.BoundTransform? && pred.LiteralPredicate? ==> r == Some(TruncateLong(fieldName, pred, t))
    ensures !pred.term.BoundTransform? && pred.SetPredicate? && pred.op == In ==> r == Some(TransformSet(fieldName, pred, t))
  {
    if pred.term.BoundTransform? then Some(ProjectTransformPredicate(t, t.name, pred))
    else match pred
      case UnaryPredicate(op, _) => Some(PredicateOnField(op, fieldName))
      case LiteralPredicate(_, _, _) => Some(TruncateLong(fieldName, pred, t))
      case SetPredicate(op, _, _) => if op == In then Some(TransformSet(fieldName, pred, t)) else None
  }

  /**
   * `projectStrict`, the strict projection: as the inclusive one, but literal
   * predicates go to the strict truncation and only a NOT IN set is transformed.
   */
  function ProjectStrict(t: Transform, fieldName: string, pred: BoundPredicate): (r: Option<Projected>)
    ensures pred.term.BoundTransform? ==> r == Some(ProjectTransformPredicate(t, t.name, pred))
    ensures r.None? <==> !pred.term.BoundTransform? && pred.SetPredicate? && pred.op != NotIn
    ensures !pred.term.BoundTransform? && pred.UnaryPredicate? ==> r == Some(PredicateOnField(pred.op, fieldName))
    ensures !pred.term.BoundTransform? && pred.LiteralPredicate? ==> r == Some(TruncateLongStrict(fieldName, pred, t))
    ensures !pred.term.BoundTransform? && pred.SetPredicate? && pred.op == NotIn ==> r == Some(TransformSet(fieldName, pred, t))
  {
    if pred.term.BoundTransform? then Some(ProjectTransformPredicate(t, t.name, pred))
    else match pred
      case UnaryPredicate(op, _) => Some(PredicateOnField(op, fieldName))
      case LiteralPredicate(_, _, _) => Some(TruncateLongStrict(fieldName, pred, t))
      case SetPredicate(op, _, _) => if op == NotIn then Some(TransformSet(fieldName, pred, t)) else None
  }

  /** The two projections differ only on literal and set predicates over a plain column. */
  lemma ProjectionModesAgree(t: Transform, fieldName: string, pred: BoundPredicate)
    ensures Project(t, fieldName, pred) != ProjectStrict(t, fieldName, pred)
        <==> !pred.term.BoundTransform? && (pred.LiteralPredicate? || (pred.SetPredicate? && (pred.op == In || pred.op == NotIn)))
  {
  }

  /** A set predicate on a column is projected by at most one mode, and by exactly one for IN and NOT IN. */
  lemma SetProjectionExclusive(t: Transform, fieldName: string, pred: BoundPredicate)
    requires pred.SetPredicate? && !pred.term.BoundTransform?
    ensures !(Project(t, fieldName, pred).Some? && ProjectStrict(t, fieldName, pred).Some?)
    ensures Project(t, fieldName, pred).Some? || ProjectStrict(t, fieldName, pred).Some? <==> pred.op == In || pred.op == NotIn
  {
  }

  /** Checks for null and NaN pass through both projections with the same operation, on the partition field. */
  lemma UnaryPassesThrough(t: Transform, fieldName: string, op: Operation, column: string)
    ensures Project(t, fieldName, UnaryPredicate(op, BoundReference(column))) == Some(PredicateOnField(op, fieldName))
    ensures ProjectStrict(t, fieldName, UnaryPredicate(op, BoundReference(column))) == Some(PredicateOnField(op, fieldName))
  {
  }

  // ---- Identity -----------------------------------------------------------

  /** The result of `toHumanString`: "null", or the formatter of the granularity applied to the value. */
  datatype HumanString =
    | Text(text: string)
    | HumanYear(year: int)
    | HumanMonth(month: int)
    | HumanDay(day: int)
    | HumanHour(hour: int)

  /** The formatter each granularity selects; it always renders the value, never "null". */
  function HumanFormatter(g: Granularity, value: int): (r: HumanString)
    ensures !r.Text?
    ensures (r.HumanYear? <==> g == Year) && (r.HumanMonth? <==> g == Month)
    ensures (r.HumanDay? <==> g == Day) && (r.HumanHour? <==> g == Hour)
    ensures (r.HumanYear? ==> r.year == value) && (r.HumanMonth? ==> r.month == value)
    ensures (r.HumanDay? ==> r.day == value) && (r.HumanHour? ==> r.hour == value)
  {
    match g
    case Year => HumanYear(value)
    case Month => HumanMonth(value)
    case Day => HumanDay(value)
    case Hour => HumanHour(value)
  }

  /** `toHumanString`: "null" for a null value, otherwise the formatter of the transform's granularity. */
  function ToHumanString(t: Transform, value: Option<int32>): (r: HumanString)
    ensures value.None? <==> r == Text("null")
    ensures value.Some? ==> r == HumanFormatter(t.granularity, value.value)
  {
    match value
    case None => Text("null")
    case Some(v) => HumanFormatter(t.granularity, v)
  }

  /**
   * A bucket from `apply` is never shown as "null", and when the bucket fits
   * an int the formatter is given the whole-unit count itself.
   */
  lemma HumanStringOfApply(t: Transform, micros: int64)
    ensures ToHumanString(t, Apply(t, Some(micros))) != Text("null")
    ensures IsInt32(Bucket(t, micros)) ==>
      ToHumanString(t, Apply(t, Some(micros))) == HumanFormatter(t.granularity, Bucket(t, micros))
  {
  }

  /** `toString`: the name alone at offset zero, otherwise the name and the offset's id in brackets. */
  function ToString(t: Transform): (r: string)
    ensures t.zoneOffset.totalSeconds == 0 ==> r == t.name
    ensures t.zoneOffset.totalSeconds != 0 ==> r == t.name + "[" + Id(t.zoneOffset) + "]"
  {
    if t.zoneOffset.totalSeconds == 0 then t.name else t.name + "[" + Id(t.zoneOffset) + "]"
  }

  /** `equals`: another transform with the same granularity, name and offset; never null. */
  function Equals(t: Transform, other: Option<Transform>): (r: bool)
    ensures r <==> other == Some(t)
  {
    match other
    case None => false
    case Some(o) => o.granularity == t.granularity && o.name == t.name && o.zoneOffset == t.zoneOffset
  }

  /** Equality is reflexive, symmetric and transitive. */
  lemma EqualsIsEquivalence(a: Transform, b: Transform, c: Transform)
    ensures Equals(a, Some(a))
    ensures Equals(a, Some(b)) ==> Equals(b, Some(a))
    ensures Equals(a, Some(b)) && Equals(b, Some(c)) ==> Equals(a, Some(c))
  {
  }

  /** Two transforms from the factory are equal exactly when their names match ignoring case and their offsets match. */
  lemma EqualsOfGet(name1: string, name2: string, offset1: Option<ZoneOffset>, offset2: Option<ZoneOffset>)
    requires Get(Timestamp, name1, offset1).Success? && Get(Timestamp, name2, offset2).Success?
    ensures Equals(Get(Timestamp, name1, offset1).value, Some(Get(Timestamp, name2, offset2).value))
        <==> (LowerAscii(name1) == LowerAscii(name2)
              && Get(Timestamp, name1, offset1).value.zoneOffset == Get(Timestamp, name2, offset2).value.zoneOffset)
  {
    var t1, t2 := Get(Timestamp, name1, offset1).value, Get(Timestamp, name2, offset2).value;
    if t1.name == t2.name {
      NameOfInjective(t1.granularity, t2.granularity);
    }
  }

  /** Different granularities have different names. */
  lemma NameOfInjective(g1: Granularity, g2: Granularity)
    requires NameOf(g1) == NameOf(g2)
    ensures g1 == g2
  {
  }

  /** Splits `s` at its first '[' into the text before it and the text after it (empty when there is none). */
  function SplitAtBracket(s: string): (string, string) {
    if |s| == 0 then ("", "")
    else if s[0] == '[' then ("", s[1..])
    else
      var (before, after) := SplitAtBracket(s[1..]);
      ([s[0]] + before, after)
  }

  /** A bracket-free prefix is kept whole in front of what the rest splits into. */
  lemma {:induction false} SplitAfterPrefix(a: string, x: string)
    requires '[' !in a
    ensures SplitAtBracket(a + x) == (a + SplitAtBracket(x).0, SplitAtBracket(x).1)
  {
    if |a| > 0 {
      assert (a + x)[0] == a[0];
      assert (a + x)[1..] == a[1..] + x;
      SplitAfterPrefix(a[1..], x);
      assert [a[0]] + (a[1..] + SplitAtBracket(x).0) == a + SplitAtBracket(x).0;
    } else {
      assert a + x == x;
      assert a + SplitAtBracket(x).0 == SplitAtBracket(x).0;
    }
  }

  /** Reads a transform's string back into its name and its offset's total seconds: the partner of ToString. */
  function ReadToString(s: string): (string, int) {
    var (name, bracketed) := SplitAtBracket(s);
    if |bracketed| == 0 then (name, 0)
    else match ParseId(bracketed[..|bracketed| - 1])
      case Some(seconds) => (name, seconds)
      case None => (name, 0)
  }

  /** A transform whose name has no bracket is read back from its string. */
  lemma ReadToStringRoundTrip(t: Transform)
    requires '[' !in t.name
    ensures ReadToString(ToString(t)) == (t.name, t.zoneOffset.totalSeconds)
  {
    if t.zoneOffset.totalSeconds == 0 {
      SplitAfterPrefix(t.name, "");
      assert t.name + "" == t.name;
    } else {
      var id := Id(t.zoneOffset);
      assert ToString(t) == t.name + ("[" + (id + "]"));
      var bracketed := id + "]";
      assert ("[" + bracketed)[1..] == bracketed;
      assert SplitAtBracket("[" + bracketed) == ("", bracketed);
      SplitAfterPrefix(t.name, "[" + bracketed);
      assert t.name + "" == t.name;
      assert bracketed[..|bracketed| - 1] == id;
      ParseIdRoundTrip(t.zoneOffset);
    }
  }

  /**
   * For transforms from the factory, `toString` is as discriminating as
   * `equals`: equal strings mean equal transforms and back.
   */
  lemma ToStringIdentifies(t1: Transform, t2: Transform)
    requires WellNamed(t1) && WellNamed(t2)
    ensures ToString(t1) == ToString(t2) <==> Equals(t1, Some(t2))
  {
    if ToString(t1) == ToString(t2) {
      ReadToStringRoundTrip(t1);
      ReadToStringRoundTrip(t2);
      NameOfInjective(t1.granularity, t2.granularity);
    }
  }

  /** A UTC transform's string is a name the factory turns back into the same transform. */
  lemma ToStringRoundTrip(t: Transform)
    requires WellNamed(t) && t.zoneOffset == UTC
    ensures Get(Timestamp, ToString(t), None) == Success(t)
  {
    NameOfIsLowerCase(t.granularity);
  }
}
