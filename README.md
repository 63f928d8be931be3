# Iceberg timestamp partition transform, in Dafny

This project models `TimestampTransform`, the Apache Iceberg partition transform.
The transform maps a timestamp, given in microseconds since 1970-01-01T00:00Z, to a partition value.
That value is the number of whole years, months, days or hours since the epoch, after the timestamp is shifted by a fixed zone offset.
The project also models the rest of the class:
- the factory that picks the granularity by name;
- the result type;
- the routing of inclusive and strict predicate projection;
- the human-readable rendering;
- `toString` and `equals`.

The source class is immutable and has no loops, so the model is pure: datatypes, functions and lemmas.

Files and modules:

- `java_math.dfy` (`JavaMath`) defines Java's integer widths. It also defines the `/` operator on `long`, which truncates toward zero, and the `(int)` narrowing cast.
- `calendar.dfy` (`Calendar`) models the proleptic Gregorian calendar that `java.time` uses:
  - conversion between days since 1970-01-01 and (year, month, day), proved to be mutual inverses;
  - month lengths, with the leap-year rule.
- `chrono.dfy` (`ChronoUnits`) models `ChronoUnit.between(EPOCH, t)` for the four units.
  - HOURS is a truncated division of the seconds.
  - DAYS, MONTHS and YEARS follow the date-based path of `LocalDateTime.until` and `LocalDate.monthsUntil`.
  - It defines the reference meaning, `CountsWholeUnits`: whole units between the epoch and `t`, counted toward zero. Each unit is proved to satisfy it.
  - Monotonicity, the zero bucket and the int range are derived from that meaning.
- `zone_offset.dfy` (`ZoneOffsets`) models a zone offset as whole seconds within ±18 hours. It defines the offset's canonical id and a reader for that id, which shows that the id determines the offset.
- `timestamp_transform.dfy` (`TimestampTransform`) models the transform itself. The four subclasses of the source become the `Granularity` field.
- `wrappers.dfy` (`Wrappers`) holds `Option` and `Result`. `Result` stands for the exceptions the factory throws, and `None` stands for Java's `null`.

The `(int)` cast in `apply` is modelled as written: it keeps the low 32 bits.
For YEARS, MONTHS and DAYS every `long` timestamp gives a value that fits an `int`, so the cast changes nothing.
For HOURS the value exceeds `int` beyond about 2^31 hours from the epoch.
There the cast wraps, and the result is no longer monotone. `ApplyHourWrapsAtRangeEnd` shows this at `Long.MAX_VALUE`.
The monotonicity and whole-unit lemmas for HOURS therefore assume that the value fits.

`apply` divides the microseconds by a million, truncating toward zero, and only then adds the offset.
Where the timestamp and the shifted value have the same sign, this is the same as bucketing the shifted instant at UTC (`OffsetShiftsBoundaries`).
Near zero they can differ by one unit: at +01:00 the timestamp one microsecond before the epoch, 00:59:59.999999 local time, falls in hour 1, and at -01:00 the timestamp one microsecond after the epoch falls in hour -1 (`TruncationBeforeShift`).
The model keeps this behaviour as written.

## Model

| member | source | states |
|---|---|---|
| TimestampTransform.Get | api/src/main/java/org/apache/iceberg/transforms/TimestampTransform.java:41-59 | A non-timestamp type fails with a cannot-transform error. For a timestamp type, it succeeds exactly when the name lower-cases to one of the four granularity names, and otherwise fails with an unsupported-method error carrying the original name. On success the transform stores the lower-cased name, the granularity that name selects, and UTC when the offset is absent. |
| TimestampTransform.Make | api/src/main/java/org/apache/iceberg/transforms/TimestampTransform.java:65-73 | The constructor keeps the granularity and name, and uses UTC when no offset id is given, otherwise the given offset. |
| TimestampTransform.LowerAscii | api/src/main/java/org/apache/iceberg/transforms/TimestampTransform.java:43 | `toLowerCase(Locale.ENGLISH)` on the letters A to Z: the length is kept, each upper-case letter becomes its own lower-case letter, no upper-case letter remains, and every other character is kept. |
| TimestampTransform.GranularityNamed | api/src/main/java/org/apache/iceberg/transforms/TimestampTransform.java:44-53 | The switch on the lower-cased name: it selects the granularity whose name it is, and nothing when no granularity has that name. |
| TimestampTransform.GetIgnoresCase | api/src/main/java/org/apache/iceberg/transforms/TimestampTransform.java:43-53 | Two names that lower-case alike are accepted or rejected together, and give the same transform. |
| TimestampTransform.GetRebuildsTransform | api/src/main/java/org/apache/iceberg/transforms/TimestampTransform.java:41-73 | Calling the factory with a transform's own name and offset rebuilds that transform. |
| TimestampTransform.GetUpperCaseName | api/src/main/java/org/apache/iceberg/transforms/TimestampTransform.java:41-59 | "MONTH" and "Hour" are accepted and stored in lower case. "week" is rejected as an unsupported method. A date type is rejected as untransformable. |
| TimestampTransform.Apply | api/src/main/java/org/apache/iceberg/transforms/TimestampTransform.java:76-87 | null maps to null and only null. Otherwise the result is congruent to the bucket modulo 2^32, as the `(int)` cast gives. It equals the bucket whenever the bucket fits, which is always the case for YEARS, MONTHS and DAYS. |
| TimestampTransform.LocalSeconds | api/src/main/java/org/apache/iceberg/transforms/TimestampTransform.java:82-84 | The shifted instant in whole seconds: after subtracting the offset, it is the microseconds divided by a million, truncated toward zero. |
| TimestampTransform.Bucket | api/src/main/java/org/apache/iceberg/transforms/TimestampTransform.java:82-86 | `between(EPOCH, shifted instant)` before the cast. It has no contract of its own; `BucketCounts`, `BucketMonotone` and `CalendarBucketFits` state what it means. |
| JavaMath.TruncDiv | api/src/main/java/org/apache/iceberg/transforms/TimestampTransform.java:83 | Java's `/` on `long`: the quotient rounded toward zero, so the remainder takes the sign of the dividend. |
| JavaMath.NarrowToInt32 | api/src/main/java/org/apache/iceberg/transforms/TimestampTransform.java:86 | Java's `(int)` cast: an `int` congruent to the value modulo 2^32, equal to it when it fits. |
| TimestampTransform.ApplyCountsWholeUnits | api/src/main/java/org/apache/iceberg/transforms/TimestampTransform.java:81-86 | Where the cast does not wrap, the result is the number of whole units between the epoch and the shifted instant, counted toward zero. |
| TimestampTransform.CalendarBucketFits | api/src/main/java/org/apache/iceberg/transforms/TimestampTransform.java:82-86 | For YEARS, MONTHS and DAYS the bucket of every `long` timestamp fits an `int`. |
| TimestampTransform.LocalSecondsRange | api/src/main/java/org/apache/iceberg/transforms/TimestampTransform.java:82-84 | A `long` timestamp, divided to seconds and shifted by the offset, lies within about 9.2e12 seconds of the epoch. |
| TimestampTransform.HourBucketFits | api/src/main/java/org/apache/iceberg/transforms/TimestampTransform.java:86 | The HOURS bucket fits an `int` exactly when the shifted instant is within (-2^31-1, 2^31) hours of the epoch, measured in seconds. |
| TimestampTransform.HourAndDayTruncate | api/src/main/java/org/apache/iceberg/transforms/TimestampTransform.java:82-86 | HOURS is the shifted second count divided by 3600, and DAYS is that count divided by 86400, both truncated toward zero. |
| TimestampTransform.BucketMonotone | api/src/main/java/org/apache/iceberg/transforms/TimestampTransform.java:82-86 | A later timestamp never has a smaller bucket, for every granularity and offset. |
| TimestampTransform.ApplyMonotone | api/src/main/java/org/apache/iceberg/transforms/TimestampTransform.java:76-87 | `apply` is monotone in the timestamp wherever the cast does not wrap, which covers every timestamp for YEARS, MONTHS and DAYS. |
| TimestampTransform.ApplyOrderReflected | api/src/main/java/org/apache/iceberg/transforms/TimestampTransform.java:76-87 | A smaller partition value implies an earlier timestamp. This is the fact that inclusive and strict bounds rely on. |
| TimestampTransform.ApplyZero | api/src/main/java/org/apache/iceberg/transforms/TimestampTransform.java:76-87 | The result is 0 exactly when the shifted instant lies strictly between the start of unit -1 and the start of unit 1. |
| TimestampTransform.ApplyNearEpochIsZero | api/src/main/java/org/apache/iceberg/transforms/TimestampTransform.java:81-86 | At UTC, every timestamp strictly within one second of the epoch maps to 0 at every granularity. |
| TimestampTransform.ApplyWithinADayOfEpoch | api/src/main/java/org/apache/iceberg/transforms/TimestampTransform.java:81-86 | At UTC, YEARS, MONTHS and DAYS map every timestamp strictly within one day of the epoch to 0, so bucket 0 spans two units (two days for DAYS). |
| TimestampTransform.OffsetShiftsBoundaries | api/src/main/java/org/apache/iceberg/transforms/TimestampTransform.java:82-84 | An offset of o seconds gives the bucket that the UTC transform gives o seconds later, as long as the shift does not cross zero microseconds. |
| TimestampTransform.TruncationBeforeShift | api/src/main/java/org/apache/iceberg/transforms/TimestampTransform.java:82-84 | The offset is added after truncation toward zero. At +01:00, one microsecond before the epoch gives hour 1 where the UTC transform at the shifted value gives 0. At -01:00, one microsecond after the epoch gives hour -1 where it gives 0. |
| TimestampTransform.ApplyScenarioHourDay | api/src/main/java/org/apache/iceberg/transforms/TimestampTransform.java:76-87 | 2021-06-15T10:30:00Z at UTC falls in hour 451042 and day 18793. |
| TimestampTransform.ApplyScenarioMonthYear | api/src/main/java/org/apache/iceberg/transforms/TimestampTransform.java:76-87 | 2021-06-15T10:30:00Z at UTC falls in month 617 and year 51. |
| TimestampTransform.ApplyPreEpochHour | api/src/main/java/org/apache/iceberg/transforms/TimestampTransform.java:76-87 | 1969-12-31T12:00:00Z at UTC falls in hour -12. |
| TimestampTransform.ApplyHourWrapsAtRangeEnd | api/src/main/java/org/apache/iceberg/transforms/TimestampTransform.java:86 | At `Long.MAX_VALUE` the HOURS bucket is 2562047788. The cast turns it into -1732919508, which is below the epoch's value 0. |
| TimestampTransform.CanTransform | api/src/main/java/org/apache/iceberg/transforms/TimestampTransform.java:90-92 | True exactly for the timestamp type. |
| TimestampTransform.ResultType | api/src/main/java/org/apache/iceberg/transforms/TimestampTransform.java:95-100 | The date type exactly for DAYS, and the integer type otherwise, whatever the source type. |
| TimestampTransform.GetOnlyForTransformableTypes | api/src/main/java/org/apache/iceberg/transforms/TimestampTransform.java:41-59 | Every transform the factory builds can transform the type it was built for. |
| TimestampTransform.ResultTypeOfGet | api/src/main/java/org/apache/iceberg/transforms/TimestampTransform.java:95-100 | A transform from the factory produces dates exactly when its name lower-cases to "day". |
| TimestampTransform.Project | api/src/main/java/org/apache/iceberg/transforms/TimestampTransform.java:103-116 | A transform term goes to projectTransformPredicate with the transform's name. Otherwise: a unary predicate keeps its operation on the partition field; a literal predicate goes to truncateLong; an IN set goes to transformSet. The result is null exactly for a non-IN set predicate on a column. |
| TimestampTransform.ProjectStrict | api/src/main/java/org/apache/iceberg/transforms/TimestampTransform.java:119-132 | Routes like Project, with two differences: literal predicates go to truncateLongStrict, and only a NOT_IN set goes to transformSet. The result is null exactly for a non-NOT_IN set predicate on a column. |
| TimestampTransform.ProjectionModesAgree | api/src/main/java/org/apache/iceberg/transforms/TimestampTransform.java:103-132 | The two projections return different results exactly for literal predicates, and for IN or NOT_IN sets, on a plain column. |
| TimestampTransform.SetProjectionExclusive | api/src/main/java/org/apache/iceberg/transforms/TimestampTransform.java:112-129 | A set predicate on a column is projected by at most one of the two modes. For IN and NOT_IN it is projected by exactly one. |
| TimestampTransform.UnaryPassesThrough | api/src/main/java/org/apache/iceberg/transforms/TimestampTransform.java:108-109 | Null and NaN checks on a column pass through both projections with the same operation, on the partition field name. |
| TimestampTransform.ToHumanString | api/src/main/java/org/apache/iceberg/transforms/TimestampTransform.java:135-152 | null renders as "null", and only null does. A value goes to the formatter of the transform's granularity. |
| TimestampTransform.HumanFormatter | api/src/main/java/org/apache/iceberg/transforms/TimestampTransform.java:140-151 | The switch on the granularity: YEARS, MONTHS, DAYS and HOURS select `humanYear`, `humanMonth`, `humanDay` and `humanHour` respectively, each given the value itself; the result is never "null". |
| TimestampTransform.HumanStringOfApply | api/src/main/java/org/apache/iceberg/transforms/TimestampTransform.java:135-152 | A value from `apply` never renders as "null". When the bucket fits an `int`, the formatter receives the whole-unit count itself. |
| TimestampTransform.ToString | api/src/main/java/org/apache/iceberg/transforms/TimestampTransform.java:155-161 | The bare name when the offset's total seconds are 0, and otherwise `name[id]`. |
| TimestampTransform.ReadToStringRoundTrip | api/src/main/java/org/apache/iceberg/transforms/TimestampTransform.java:155-161 | For a name without a bracket, the string reads back as the name and the offset's seconds. |
| TimestampTransform.ToStringIdentifies | api/src/main/java/org/apache/iceberg/transforms/TimestampTransform.java:155-175 | For transforms from the factory, two strings are equal exactly when the transforms are equal. |
| TimestampTransform.ToStringRoundTrip | api/src/main/java/org/apache/iceberg/transforms/TimestampTransform.java:41-59 | The string of a UTC transform from the factory is a name that the factory turns back into the same transform. |
| TimestampTransform.Equals | api/src/main/java/org/apache/iceberg/transforms/TimestampTransform.java:164-175 | True exactly when the other object is a transform with the same granularity, name and offset. Never true for null. |
| TimestampTransform.EqualsIsEquivalence | api/src/main/java/org/apache/iceberg/transforms/TimestampTransform.java:164-175 | Equality is reflexive, symmetric and transitive. |
| TimestampTransform.EqualsOfGet | api/src/main/java/org/apache/iceberg/transforms/TimestampTransform.java:164-175 | Two transforms from the factory are equal exactly when their names match ignoring case and their offsets match. |
| ZoneOffsets.ParseIdRoundTrip | api/src/main/java/org/apache/iceberg/transforms/TimestampTransform.java:159 | Reading back an offset's id (`Z`, `±hh:mm` or `±hh:mm:ss`) gives its total seconds. |
| ZoneOffsets.Id | api/src/main/java/org/apache/iceberg/transforms/TimestampTransform.java:159 | `getId()`: "Z" exactly for offset 0; otherwise it starts with the sign of the offset and has the form `±hh:mm` (6 characters) exactly when the offset is whole minutes, and `±hh:mm:ss` (9 characters) otherwise. |
| ZoneOffsets.IdInjective | api/src/main/java/org/apache/iceberg/transforms/TimestampTransform.java:159 | Different offsets have different ids. |
| ZoneOffsets.IdShape | api/src/main/java/org/apache/iceberg/transforms/TimestampTransform.java:156-159 | The id is "Z" exactly for offset 0, and it never contains a bracket. |
| ChronoUnits.UnitsFromEpochCounts | api/src/main/java/org/apache/iceberg/transforms/TimestampTransform.java:86 | `between(EPOCH, t)` counts the whole units from the epoch to `t`, toward zero. This covers HOURS and DAYS by truncated division, and MONTHS and YEARS through the calendar-date path. |
| ChronoUnits.UnitsFromEpochMonotone | api/src/main/java/org/apache/iceberg/transforms/TimestampTransform.java:86 | `between(EPOCH, t)` never decreases as `t` moves forward. |
| ChronoUnits.CountsWholeUnitsUnique | api/src/main/java/org/apache/iceberg/transforms/TimestampTransform.java:86 | An instant has exactly one whole-unit count. |
| ChronoUnits.UnitsFromEpochZero | api/src/main/java/org/apache/iceberg/transforms/TimestampTransform.java:86 | The count is 0 exactly strictly between the starts of units -1 and 1. |
| ChronoUnits.UnitsFromEpoch | api/src/main/java/org/apache/iceberg/transforms/TimestampTransform.java:86 | `granularity.between(EPOCH, timestamp)`. HOURS, on the time-based path, and DAYS, on the date-based path, both equal the seconds divided by 3600 and by 86400, truncated toward zero. MONTHS and YEARS are stated by `UnitsFromEpochCounts`. |
| ChronoUnits.MonthsUntilEpoch | api/src/main/java/org/apache/iceberg/transforms/TimestampTransform.java:86 | The packed month arithmetic gives the calendar month difference. It is one more when the date is before the epoch and not on the first of its month. |
| ChronoUnits.EndDay | api/src/main/java/org/apache/iceberg/transforms/TimestampTransform.java:86 | The end date of `LocalDateTime.until` as days from the epoch: the whole days from the epoch to the instant, counted toward zero. |
| ChronoUnits.MonthsUntil | api/src/main/java/org/apache/iceberg/transforms/TimestampTransform.java:86 | `LocalDate.monthsUntil`: for days of month 1 to 31, the month difference, one less when a later end has not reached the start's day of month, one more when an earlier end is past it. |
| ChronoUnits.CalendarUnitsFitInt32 | api/src/main/java/org/apache/iceberg/transforms/TimestampTransform.java:86 | YEARS, MONTHS and DAYS of any instant a `long` timestamp can name fit an `int`. |
| ChronoUnits.HourUnitsFitInt32 | api/src/main/java/org/apache/iceberg/transforms/TimestampTransform.java:86 | HOURS fits an `int` exactly for instants within (-2^31-1, 2^31) hours of the epoch. |
| ChronoUnits.UnitsWithinADayOfEpoch | api/src/main/java/org/apache/iceberg/transforms/TimestampTransform.java:86 | YEARS, MONTHS and DAYS count 0 for every instant strictly within a day of the epoch. |
| ChronoUnits.ScenarioMonth | api/src/main/java/org/apache/iceberg/transforms/TimestampTransform.java:86 | 2021-06-15T10:30:00Z is in month 617 after the epoch's month. |
| ChronoUnits.ScenarioYear | api/src/main/java/org/apache/iceberg/transforms/TimestampTransform.java:86 | 2021-06-15T10:30:00Z is in year 51 after the epoch's year. |
| Calendar.CivilFromDaysRoundTrip | api/src/main/java/org/apache/iceberg/transforms/TimestampTransform.java:82-86 | The date of a day count is a valid calendar date, and converting it back gives the same day count. |
| Calendar.CivilFromDays | api/src/main/java/org/apache/iceberg/transforms/TimestampTransform.java:82-86 | `LocalDate.ofEpochDay`, used by the date-based path of `between`: a month from 1 to 12 and a day from 1 to 31; `CivilFromDaysRoundTrip` proves the date valid and inverse to the day count. |
| Calendar.DaysFromCivilRoundTrip | api/src/main/java/org/apache/iceberg/transforms/TimestampTransform.java:82-86 | Every valid date converts to a day count and back to itself. |
| Calendar.MonthLength | api/src/main/java/org/apache/iceberg/transforms/TimestampTransform.java:86 | Consecutive month starts are the month's length apart: 28 to 31 days, with February at 29 in leap years. |

## Left out

- `ZoneOffset.of` parsing at line 71. The offset id reaches the model already parsed, as a `ZoneOffset` of whole seconds, or absent for `null`. An id that `ZoneOffset.of` rejects is therefore not represented.
- `ProjectionUtil` is not part of this model. Neither are `Expressions.predicate` or `TransformUtil`'s formatters. Each call appears as a value that records which helper is called and with which arguments. What the helper returns, including any null it returns, is not modelled.
- The soundness of inclusive and strict projection depends on those helpers, so it is not stated. The model proves only the order facts the helpers depend on (`ApplyMonotone`, `ApplyOrderReflected`).
- `hashCode` (lines 177-180) is not modelled. Its value depends on the enum's identity hash. It hashes the same three fields that `equals` compares.
- `granularity()` (lines 182-184) is the field access `t.granularity`.
- `toHumanString`'s default branch (line 150) cannot be reached, because there are only four granularities.
- Exception messages. The two `UnsupportedOperationException`s are represented by their cause and its argument, not by their text. `Type` is represented by its kind only.
- `toLowerCase(Locale.ENGLISH)` is modelled on the letters A to Z only; other characters are kept as they are. Which names are accepted, and the name that is stored, do not change: no character outside A to Z lower-cases to text containing one of the four names.
- `java.time` is not part of this model. `Instant`, `OffsetDateTime` and `ChronoUnit.between` are re-derived in integer arithmetic over the proleptic Gregorian calendar. The range limits of `Instant` are never reached by a `long` of microseconds.
- `equals` on `this == other`, and the `getClass()` comparison, are covered by structural equality: the class of a transform is fixed by its granularity.
- `equals` with an object that is not a `TimestampTransform` (false at line 168) is not represented: the other argument is a transform or absent (`null`).
- `get` with a null name is not represented: names are strings, never null, so the `NullPointerException` that `toLowerCase` throws at line 43 is not modelled.
- Concurrency: none; the class is immutable.
