/**
 * Calendar fields of an instant and the two flooring helpers
 * `floor_30_minutes_dt` and `floor_6_hours_dt`, which are the same code in
 * `nowcasting_api/utils.py` and `src/utils.py`.
 *
 * An instant is a count of microseconds since the epoch in UTC; the fields
 * below are those of Python's `datetime` for that instant (Euclidean
 * division also gives the right fields before 1970).
 */
module TimeFloor {
  import opened Common

  /** Days since the epoch: the date part of a datetime. */
  function Day(t: Instant): int { t / DAY }
  function Hour(t: Instant): int { t % DAY / HOUR }
  function Minute(t: Instant): int { t % HOUR / MINUTE }
  function Second(t: Instant): int { t % MINUTE / SECOND }
  function Microsecond(t: Instant): int { t % SECOND }

  /** `dt.replace(minute=0).replace(second=0).replace(microsecond=0)`. */
  function ZeroBelowHour(t: Instant): (r: Instant)
    ensures Day(r) == Day(t) && Hour(r) == Hour(t)
    ensures Minute(r) == 0 && Second(r) == 0 && Microsecond(r) == 0
  {
    Fields(t);
    FieldsOf(Day(t), Hour(t), 0, 0, 0);
    t - t % HOUR
  }

  /** `dt.replace(hour=0)` followed by the three replacements above. */
  function ZeroBelowDay(t: Instant): (r: Instant)
    ensures Day(r) == Day(t) && Hour(r) == 0
    ensures Minute(r) == 0 && Second(r) == 0 && Microsecond(r) == 0
  {
    Fields(t);
    FieldsOf(Day(t), 0, 0, 0, 0);
    t - t % DAY
  }

  /** `floor_30_minutes_dt`: keep the hour, set the minute to 0 or 30. */
  function Floor30Minutes(t: Instant): Instant
  {
    var approx := Minute(t) / 30 * 30;
    ZeroBelowHour(t) + approx * MINUTE
  }

  /** `floor_6_hours_dt`: keep the date, set the hour to 0, 6, 12 or 18. */
  function Floor6Hours(t: Instant): Instant
  {
    var approx := Hour(t) / 6 * 6;
    ZeroBelowDay(t) + approx * HOUR
  }

  // ---------------------------------------------------------------------
  // Field arithmetic

  /** Every instant is the sum of its fields, each in its range. */
  lemma Fields(t: Instant)
    ensures 0 <= Hour(t) < 24 && 0 <= Minute(t) < 60
    ensures 0 <= Second(t) < 60 && 0 <= Microsecond(t) < SECOND
    ensures t == Day(t) * DAY + Hour(t) * HOUR + Minute(t) * MINUTE
                 + Second(t) * SECOND + Microsecond(t)
    ensures t % HOUR == Minute(t) * MINUTE + Second(t) * SECOND + Microsecond(t)
    ensures t % DAY == Hour(t) * HOUR + t % HOUR
  {
    var d, rd := t / DAY, t % DAY;
    var h, rh := rd / HOUR, rd % HOUR;
    assert t == d * DAY + h * HOUR + rh;
    DivModUnique(t, d * 24 + h, rh, HOUR);
    var m, rm := rh / MINUTE, rh % MINUTE;
    DivModUnique(t, (d * 24 + h) * 60 + m, rm, MINUTE);
    var s, u := rm / SECOND, rm % SECOND;
    DivModUnique(t, ((d * 24 + h) * 60 + m) * 60 + s, u, SECOND);
  }

  /** The fields of an instant built from in-range fields are those fields. */
  lemma FieldsOf(d: int, h: int, m: int, s: int, u: int)
    requires 0 <= h < 24 && 0 <= m < 60 && 0 <= s < 60 && 0 <= u < SECOND
    ensures var t := d * DAY + h * HOUR + m * MINUTE + s * SECOND + u;
      Day(t) == d && Hour(t) == h && Minute(t) == m && Second(t) == s && Microsecond(t) == u
  {
    var t := d * DAY + h * HOUR + m * MINUTE + s * SECOND + u;
    DivModUnique(t, d, h * HOUR + m * MINUTE + s * SECOND + u, DAY);
    DivModUnique(t, d * 24 + h, m * MINUTE + s * SECOND + u, HOUR);
    DivModUnique(t, (d * 24 + h) * 60 + m, s * SECOND + u, MINUTE);
    DivModUnique(t, ((d * 24 + h) * 60 + m) * 60 + s, u, SECOND);
    DivModUnique(h * HOUR + m * MINUTE + s * SECOND + u, h, m * MINUTE + s * SECOND + u, HOUR);
    DivModUnique(m * MINUTE + s * SECOND + u, m, s * SECOND + u, MINUTE);
    DivModUnique(s * SECOND + u, s, u, SECOND);
  }

  /** Euclidean division is unique. */
  lemma DivModUnique(x: int, q: int, r: int, c: int)
    requires c > 0 && 0 <= r < c && x == q * c + r
    ensures x / c == q && x % c == r
  {
    var q', r' := x / c, x % c;
    assert x == q' * c + r';
    if q' > q {
      MulAtLeast(q' - q, c);
    } else if q' < q {
      MulAtLeast(q - q', c);
    }
  }

  lemma {:induction false} MulAtLeast(k: int, c: int)
    requires k >= 1 && c > 0
    ensures k * c >= c
  {
    if k > 1 {
      MulAtLeast(k - 1, c);
      assert k * c == (k - 1) * c + c;
    }
  }

  // ---------------------------------------------------------------------
  // floor_30_minutes_dt

  /** The date and hour are kept; the minute becomes 0 below 30 and 30 from
      30 on; seconds and microseconds become 0. */
  lemma Floor30MinutesFields(t: Instant)
    ensures var r := Floor30Minutes(t);
      && Day(r) == Day(t) && Hour(r) == Hour(t)
      && Minute(r) == (if Minute(t) < 30 then 0 else 30)
      && Second(r) == 0 && Microsecond(r) == 0
  {
    Fields(t);
    FieldsOf(Day(t), Hour(t), Minute(t) / 30 * 30, 0, 0);
  }

  /** The result is the last half-hour boundary at or before the input:
      never later than the input and less than 30 minutes earlier. */
  lemma Floor30MinutesBounds(t: Instant)
    ensures var r := Floor30Minutes(t);
      && r <= t < r + 30 * MINUTE
      && r % (30 * MINUTE) == 0
      && r == t - t % (30 * MINUTE)
  {
    Fields(t);
    var m := Minute(t);
    var rest := (m % 30) * MINUTE + Second(t) * SECOND + Microsecond(t);
    var q := (Day(t) * 24 + Hour(t)) * 2 + m / 30;
    DivModUnique(t, q, rest, 30 * MINUTE);
    DivModUnique(Floor30Minutes(t), q, 0, 30 * MINUTE);
  }

  /** Flooring twice is flooring once. */
  lemma Floor30MinutesIdempotent(t: Instant)
    ensures Floor30Minutes(Floor30Minutes(t)) == Floor30Minutes(t)
  {
    var r := Floor30Minutes(t);
    Floor30MinutesBounds(t);
    Floor30MinutesBounds(r);
  }

  // ---------------------------------------------------------------------
  // floor_6_hours_dt

  /** The date is kept; the hour becomes the largest multiple of 6 that is
      at most the input hour; minute, second and microsecond become 0. */
  lemma Floor6HoursFields(t: Instant)
    ensures var r := Floor6Hours(t);
      && Day(r) == Day(t)
      && Hour(r) in {0, 6, 12, 18}
      && Hour(r) % 6 == 0 && Hour(r) <= Hour(t) < Hour(r) + 6
      && Minute(r) == 0 && Second(r) == 0 && Microsecond(r) == 0
  {
    Fields(t);
    FieldsOf(Day(t), Hour(t) / 6 * 6, 0, 0, 0);
  }

  /** The result is the last six-hour boundary of the day at or before the
      input, and flooring twice is flooring once. */
  lemma Floor6HoursBounds(t: Instant)
    ensures var r := Floor6Hours(t);
      && r <= t < r + 6 * HOUR
      && r == t - t % (6 * HOUR)
      && Floor6Hours(r) == r
  {
    Fields(t);
    var h := Hour(t);
    var rest := (h % 6) * HOUR + t % HOUR;
    var q := Day(t) * 4 + h / 6;
    DivModUnique(t, q, rest, 6 * HOUR);
    var r := Floor6Hours(t);
    Floor6HoursFields(t);
    Fields(r);
  }
}
