/**
  The relative time shown next to each shared essay on the activity page
  (`formatDate` in src/app/activity/page.tsx). Times are milliseconds since
  the epoch; the locale-formatted date used for entries older than a week is
  a parameter.
 */
module ActivityPage {
  import opened Strings

  const MINUTE_MS := 1000 * 60
  const HOUR_MINUTES := 60
  const DAY_MINUTES := 60 * 24
  const WEEK_MINUTES := 60 * 24 * 7

  /** `Math.floor((now - date) / (1000 * 60))`. Dafny's division rounds down
      for a positive divisor, as `Math.floor` does, negative differences included. */
  function MinutesBetween(nowMs: int, dateMs: int): (m: int)
    ensures m * MINUTE_MS <= nowMs - dateMs < (m + 1) * MINUTE_MS
  {
    (nowMs - dateMs) / MINUTE_MS
  }

  /** The bucket a minute difference falls in. */
  datatype RelativeTime = JustNow | MinutesAgo(minutes: nat) | HoursAgo(hours: nat) | DaysAgo(days: nat) | OnDate

  function Bucket(m: int): (b: RelativeTime)
    ensures b == JustNow <==> m < 1
    ensures b.MinutesAgo? <==> 1 <= m < HOUR_MINUTES
    ensures b.MinutesAgo? ==> b.minutes == m
    ensures b.HoursAgo? <==> HOUR_MINUTES <= m < DAY_MINUTES
    ensures b.HoursAgo? ==> 1 <= b.hours <= 23 && b.hours * 60 <= m < (b.hours + 1) * 60
    ensures b.DaysAgo? <==> DAY_MINUTES <= m < WEEK_MINUTES
    ensures b.DaysAgo? ==> 1 <= b.days <= 6 && b.days * DAY_MINUTES <= m < (b.days + 1) * DAY_MINUTES
    ensures b == OnDate <==> m >= WEEK_MINUTES
  {
    if m < 1 then JustNow
    else if m < HOUR_MINUTES then MinutesAgo(m)
    else if m < DAY_MINUTES then HoursAgo(m / 60)
    else if m < WEEK_MINUTES then DaysAgo(m / DAY_MINUTES)
    else OnDate
  }

  /** The label of a bucket, as the page writes it. */
  function Label(b: RelativeTime, localeDate: string): (shown: string)
    ensures b == OnDate ==> shown == localeDate
    ensures b != OnDate ==> |shown| >= 3 && shown[|shown| - 2..] == " 전"
    ensures b.MinutesAgo? ==> |shown| > |NatToString(b.minutes)| && shown[..|NatToString(b.minutes)|] == NatToString(b.minutes) && shown[|NatToString(b.minutes)|..] == "분 전"
    ensures b.HoursAgo? ==> |shown| > |NatToString(b.hours)| && shown[..|NatToString(b.hours)|] == NatToString(b.hours) && shown[|NatToString(b.hours)|..] == "시간 전"
    ensures b.DaysAgo? ==> |shown| > |NatToString(b.days)| && shown[..|NatToString(b.days)|] == NatToString(b.days) && shown[|NatToString(b.days)|..] == "일 전"
  {
    match b
    case JustNow => "방금 전"
    case MinutesAgo(m) => NatToString(m) + "분 전"
    case HoursAgo(h) => NatToString(h) + "시간 전"
    case DaysAgo(d) => NatToString(d) + "일 전"
    case OnDate => localeDate
  }

  /** `formatDate`: "just now" under a minute (and for dates in the future),
      then whole minutes, hours and days, then the date itself. */
  function FormatDate(nowMs: int, dateMs: int, localeDate: string): (shown: string)
    ensures var m := MinutesBetween(nowMs, dateMs);
            && (m < 1 ==> shown == "방금 전")
            && (1 <= m < 60 ==> shown == NatToString(m) + "분 전")
            && (60 <= m < 1440 ==> shown == NatToString(m / 60) + "시간 전")
            && (1440 <= m < 10080 ==> shown == NatToString(m / 1440) + "일 전")
            && (m >= 10080 ==> shown == localeDate)
  {
    Label(Bucket(MinutesBetween(nowMs, dateMs)), localeDate)
  }

  /** The number in a label reads back as the count of whole units elapsed. */
  lemma LabelNumber(nowMs: int, dateMs: int, localeDate: string)
    requires var m := MinutesBetween(nowMs, dateMs); 1 <= m < WEEK_MINUTES
    ensures var m := MinutesBetween(nowMs, dateMs);
            var b := Bucket(m);
            var n: nat := if b.MinutesAgo? then b.minutes else if b.HoursAgo? then b.hours else b.days;
            && FormatDate(nowMs, dateMs, localeDate)[..|NatToString(n)|] == NatToString(n)
            && DigitsValue(NatToString(n)) == n
            && 1 <= n < 60
  {
    var m := MinutesBetween(nowMs, dateMs);
    var b := Bucket(m);
    var n: nat := if b.MinutesAgo? then b.minutes else if b.HoursAgo? then b.hours else b.days;
    NatToStringValue(n);
    var suffix := if b.MinutesAgo? then "분 전" else if b.HoursAgo? then "시간 전" else "일 전";
    assert FormatDate(nowMs, dateMs, localeDate) == NatToString(n) + suffix;
  }

  /** A later "now" never moves an entry back to a finer bucket: the minute
      difference does not decrease. */
  lemma MinutesMonotonic(now1: int, now2: int, dateMs: int)
    requires now1 <= now2
    ensures MinutesBetween(now1, dateMs) <= MinutesBetween(now2, dateMs)
  {
    var m1 := MinutesBetween(now1, dateMs);
    var m2 := MinutesBetween(now2, dateMs);
    assert m1 * MINUTE_MS <= now2 - dateMs < (m2 + 1) * MINUTE_MS;
  }
}
