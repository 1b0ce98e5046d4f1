/**
 Reporting windows (src/lib/date-range.ts). An instant is a count of milliseconds since
 the epoch; local time is six hours ahead of it. A bucket is a local day, by day number,
 or a local month, counted through the years.
 */
module DateRange {
  import Arith
  import opened Options
  import opened Numerals
  import opened Calendar

  const MS_PER_DAY := 86_400_000
  const OFFSET := 360 * 60_000

  datatype Window = Window(start: Option<int>, end: int)

  datatype Granularity = Day | Month

  function LocalDay(t: int): int {
    (t + OFFSET) / MS_PER_DAY
  }

  function LocalMonth(t: int): int {
    MonthOfDay(LocalDay(t))
  }

  function LocalYear(t: int): int {
    YearOfDay(LocalDay(t))
  }

  /** The instant at which a local day begins. */
  function Midnight(day: int): int {
    day * MS_PER_DAY - OFFSET
  }

  function DayStart(t: int): int {
    Midnight(LocalDay(t))
  }

  function MonthStart(t: int, monthsBack: int): int {
    Midnight(FirstDay(LocalMonth(t) - monthsBack))
  }

  ghost predicate Contains(w: Window, t: int) {
    (w.start.Some? ==> w.start.value <= t) && t < w.end
  }

  // ---- the Date objects the program moves around ---------------------------

  /** A mutable JavaScript Date, read and set in UTC. */
  class UtcDate {
    var time: int

    constructor (time: int)
      ensures this.time == time
    {
      this.time := time;
    }

    function TimeInDay(): int
      reads this
    {
      time % MS_PER_DAY
    }

    function Day(): int
      reads this
    {
      time / MS_PER_DAY
    }

    /** setUTCHours(0, 0, 0, 0): the day stays. */
    method ClearHours()
      modifies this
      ensures Day() == old(Day()) && TimeInDay() == 0
    {
      SplitTime(Day(), 0);
      time := time / MS_PER_DAY * MS_PER_DAY;
    }

    /** setUTCDate: the day moves by the difference of the dates, the time of day stays. */
    method SetDate(date: int)
      modifies this
      ensures Day() == old(Day()) + date - DateOfDay(old(Day())) && TimeInDay() == old(TimeInDay())
    {
      hide FirstDay, MonthOfDay;
      SplitTime(FirstDay(MonthOfDay(Day())) + date - 1, TimeInDay());
      time := (FirstDay(MonthOfDay(time / MS_PER_DAY)) + date - 1) * MS_PER_DAY + TimeInDay();
    }

    /**
     setUTCMonth, for any month number: year, date and time of day are kept; a date the month has not got
     spills into the next.
     */
    method SetMonth(month: int)
      modifies this
      ensures var target, date := 12 * YearOfDay(old(Day())) + month, DateOfDay(old(Day()));
        if date <= DaysInMonth(target) then MonthOfDay(Day()) == target && DateOfDay(Day()) == date
        else MonthOfDay(Day()) == target + 1 && DateOfDay(Day()) == date - DaysInMonth(target)
      ensures TimeInDay() == old(TimeInDay())
    {
      hide FirstDay, MonthOfDay, YearOfDay, DateOfDay, DaysInMonth;
      var day := time / MS_PER_DAY;
      ghost var target := 12 * YearOfDay(day) + month;
      SplitTime(FirstDay(target) + DateOfDay(day) - 1, TimeInDay());
      DateInMonth(target, day);
      time := (FirstDay(12 * YearOfDay(day) + month) + DateOfDay(day) - 1) * MS_PER_DAY + TimeInDay();
    }

    function GetMonth(): int
      reads this
    {
      MonthOfDay(time / MS_PER_DAY) % 12
    }
  }

  /** Where the date of a day falls when it is counted from the first of another month. */
  lemma DateInMonth(target: int, day: int)
    ensures var date := DateOfDay(day); var moved := FirstDay(target) + date - 1;
      if date <= DaysInMonth(target) then MonthOfDay(moved) == target && DateOfDay(moved) == date
      else MonthOfDay(moved) == target + 1 && DateOfDay(moved) == date - DaysInMonth(target)
  {
    hide FirstDay, MonthOfDay, YearOfDay, DateOfDay, DaysInMonth;
    DateBounds(day);
    MonthLength(target);
    MonthLength(target + 1);
    var date := DateOfDay(day);
    if date <= DaysInMonth(target) {
      DayOfDate(target, date);
    } else {
      DayOfDate(target + 1, date - DaysInMonth(target));
    }
  }

  /** Days and times of day take an instant apart. */
  lemma SplitTime(day: int, time: int)
    requires 0 <= time < MS_PER_DAY
    ensures (day * MS_PER_DAY + time) / MS_PER_DAY == day && (day * MS_PER_DAY + time) % MS_PER_DAY == time
  {
  }

  method StartOfLocalDay(instant: int) returns (r: int)
    ensures r == DayStart(instant)
  {
    var shifted := new UtcDate(instant + OFFSET);
    shifted.ClearHours();
    r := shifted.time - OFFSET;
  }

  method StartOfLocalMonth(instant: int, monthsBack: int) returns (r: int)
    ensures r == MonthStart(instant, monthsBack)
  {
    hide FirstDay, MonthOfDay, YearOfDay, DaysInMonth;
    var shifted := new UtcDate(instant + OFFSET);
    ghost var month := LocalMonth(instant);
    shifted.SetDate(1);
    FirstOfMonth(month);
    MonthLength(month - monthsBack);
    shifted.ClearHours();
    shifted.SetMonth(shifted.GetMonth() - monthsBack);
    r := shifted.time - OFFSET;
  }

  lemma FirstOfMonth(month: int)
    ensures MonthOfDay(FirstDay(month)) == month && DateOfDay(FirstDay(month)) == 1
    ensures 12 * YearOfDay(FirstDay(month)) + month % 12 == month
  {
    hide FirstDay, MonthOfDay, YearOfDay;
    MonthLength(month);
    MonthUnique(FirstDay(month), month);
    MonthOfDayBounds(FirstDay(month));
  }

  /** The local day is the one of the clock six hours ahead of UTC, counted from 1 January 1970. */
  lemma LocalDayMeans(t: int, day: int)
    ensures LocalDay(t) == day <==> 0 <= t + 6 * 60 * 60 * 1000 - day * (24 * 60 * 60 * 1000) < 24 * 60 * 60 * 1000
  {
  }

  // ---- presets -----------------------------------------------------------

  /** A date field of the form: empty, not a date, or the UTC midnight it names. */
  datatype DateField = Absent | NotADate | OnDay(day: int)

  /** Date.UTC(y, 0, 1): two-digit years are years of the twentieth century. */
  function UtcYearStart(y: int): int {
    DayFromYear(if 0 <= y <= 99 then 1900 + y else y) * MS_PER_DAY
  }

  /** The names the switch knows; Other is a missing name or any different one. */
  datatype Preset =
    | Today | Yesterday | Last7Days | Last30Days | Last90Days
    | ThisMonth | LastMonth | ThisYear | AllTime | Custom | Other

  function ResolveRange(preset: Preset, from: DateField, to: DateField, now: int): Window {
    var today := DayStart(now);
    var tomorrow := today + MS_PER_DAY;
    match preset
    case Today => Window(Some(today), tomorrow)
    case Yesterday => Window(Some(today - MS_PER_DAY), today)
    case Last7Days => Window(Some(today - 6 * MS_PER_DAY), tomorrow)
    case Last30Days => Window(Some(today - 29 * MS_PER_DAY), tomorrow)
    case Last90Days => Window(Some(today - 89 * MS_PER_DAY), tomorrow)
    case ThisMonth => Window(Some(MonthStart(now, 0)), tomorrow)
    case LastMonth => Window(Some(MonthStart(now, 1)), MonthStart(now, 0))
    case ThisYear => Window(Some(UtcYearStart(LocalYear(now)) - OFFSET), tomorrow)
    case AllTime => Window(None, tomorrow)
    case Custom =>
      Window(if from.OnDay? then Some(DayStart(from.day * MS_PER_DAY)) else None,
             if to.OnDay? then DayStart(to.day * MS_PER_DAY) + MS_PER_DAY else tomorrow)
    case Other => Window(Some(today - 29 * MS_PER_DAY), tomorrow)
  }

  /** A window between two local midnights holds exactly the instants of the days between them. */
  lemma DaysOfWindow(first: int, next: int, t: int)
    ensures Midnight(first) <= t < Midnight(next) <==> first <= LocalDay(t) < next
  {
  }

  lemma FieldDay(field: DateField)
    ensures field.OnDay? ==> DayStart(field.day * MS_PER_DAY) == Midnight(field.day)
  {
  }

  /** What each preset but this_year means: the days or months it holds, up to the end of today. */
  lemma PresetMeaning(preset: Preset, from: DateField, to: DateField, now: int, t: int)
    requires preset != ThisYear
    ensures var today := LocalDay(now); Contains(ResolveRange(preset, from, to, now), t) <==>
      match preset
      case Today => LocalDay(t) == today
      case Yesterday => LocalDay(t) == today - 1
      case Last7Days => today - 7 < LocalDay(t) <= today
      case Last30Days => today - 30 < LocalDay(t) <= today
      case Last90Days => today - 90 < LocalDay(t) <= today
      case ThisMonth => LocalMonth(t) == LocalMonth(now) && LocalDay(t) <= today
      case LastMonth => LocalMonth(t) == LocalMonth(now) - 1
      case AllTime => LocalDay(t) <= today
      case Custom => (from.OnDay? ==> from.day <= LocalDay(t)) && LocalDay(t) <= if to.OnDay? then to.day else today
      case Other => today - 30 < LocalDay(t) <= today
  {
    hide FirstDay, MonthOfDay, YearOfDay, DayFromYear, LocalDay;
    var k, today := LocalMonth(now), LocalDay(now);
    DaysOfWindow(LocalDay(t), LocalDay(t) + 1, t);
    match preset {
      case Today => DaysOfWindow(today, today + 1, t);
      case Yesterday => DaysOfWindow(today - 1, today, t);
      case Last7Days => DaysOfWindow(today - 6, today + 1, t);
      case Last90Days => DaysOfWindow(today - 89, today + 1, t);
      case ThisMonth =>
        DaysOfWindow(FirstDay(k), today + 1, t);
        MonthAround(LocalDay(t), k, today);
      case LastMonth =>
        DaysOfWindow(FirstDay(k - 1), FirstDay(k), t);
        MonthAround(LocalDay(t), k - 1, today);
      case AllTime => DaysOfWindow(LocalDay(t), today + 1, t);
      case Custom =>
        DaysOfWindow(if from.OnDay? then from.day else LocalDay(t), (if to.OnDay? then to.day else today) + 1, t);
        FieldDay(from);
        FieldDay(to);
      case _ => DaysOfWindow(today - 29, today + 1, t);
    }
  }

  /** Being in a month is lying between its first day and the next month's. */
  lemma MonthAround(day: int, month: int, today: int)
    ensures MonthOfDay(day) == month <==> FirstDay(month) <= day < FirstDay(month + 1)
    ensures FirstDay(MonthOfDay(today)) <= today < FirstDay(MonthOfDay(today) + 1)
  {
    hide FirstDay, MonthOfDay, YearOfDay;
    MonthOfDayBounds(day);
    MonthOfDayBounds(today);
    if FirstDay(month) <= day < FirstDay(month + 1) {
      MonthUnique(day, month);
    }
  }

  /** this_year holds the year up to today, unless Date.UTC takes the year for one of the twentieth century. */
  lemma ThisYearMeaning(from: DateField, to: DateField, now: int, t: int)
    ensures var w := ResolveRange(ThisYear, from, to, now);
      Contains(w, t) <==>
        if 0 <= LocalYear(now) <= 99 then false
        else LocalYear(t) == LocalYear(now) && LocalDay(t) <= LocalDay(now)
  {
    hide DayFromYear, YearOfDay;
    var y := LocalYear(now);
    YearAround(LocalDay(t), y, LocalDay(now));
    DaysOfWindow(DayFromYear(if 0 <= y <= 99 then 1900 + y else y), LocalDay(now) + 1, t);
    if 0 <= y <= 99 {
      YearsAscend(y + 1, 1900 + y);
    }
  }

  /** On the first of January of the year 50 the window of this_year is empty. */
  lemma MisreadYear(t: int)
    ensures var now := Midnight(DayFromYear(50));
      LocalYear(now) == 50 && !Contains(ResolveRange(ThisYear, Absent, Absent, now), t)
  {
    hide DayFromYear, YearOfDay;
    var now := Midnight(DayFromYear(50));
    DaysOfWindow(DayFromYear(50), DayFromYear(50) + 1, now);
    YearLength(50);
    YearAround(DayFromYear(50), 50, DayFromYear(50));
    ThisYearMeaning(Absent, Absent, now, t);
  }

  lemma {:induction false} YearsAscend(y: int, later: int)
    requires y <= later
    ensures DayFromYear(y) <= DayFromYear(later)
    decreases later - y
  {
    hide DayFromYear;
    if y < later {
      YearLength(later - 1);
      YearsAscend(y, later - 1);
    }
  }

  lemma YearAround(day: int, year: int, today: int)
    ensures YearOfDay(day) == year <==> DayFromYear(year) <= day < DayFromYear(year + 1)
    ensures DayFromYear(YearOfDay(today)) <= today < DayFromYear(YearOfDay(today) + 1)
  {
    hide DayFromYear;
    var y := YearOfDay(day);
    if y < year {
      YearsAscend(y + 1, year);
    } else if year < y {
      YearsAscend(year + 1, y);
    }
  }

  /** The bounds of every window are local midnights. */
  lemma PresetBounds(preset: Preset, from: DateField, to: DateField, now: int)
    ensures var w := ResolveRange(preset, from, to, now);
      && (w.start.Some? ==> exists first :: w.start == Some(Midnight(first)))
      && exists next :: w.end == Midnight(next)
  {
    hide FirstDay, MonthOfDay, YearOfDay, DayFromYear, LocalDay;
    var w, today := ResolveRange(preset, from, to, now), LocalDay(now);
    FieldDay(from);
    FieldDay(to);
    assert preset == Yesterday ==> w.start == Some(Midnight(today - 1));
    assert preset == Last7Days ==> w.start == Some(Midnight(today - 6));
    assert preset == Last90Days ==> w.start == Some(Midnight(today - 89));
    assert preset == Last30Days || preset == Other ==> w.start == Some(Midnight(today - 29));
    assert preset == ThisYear ==> exists y :: w.start == Some(Midnight(DayFromYear(y)));
    assert preset == Custom && to.OnDay? ==> w.end == Midnight(to.day + 1);
    assert w.end == Midnight(today + 1) || preset == Yesterday || preset == LastMonth || preset == Custom;
  }

  /** Now lies in every preset window but yesterday, last month and a misread year. */
  lemma PresetHoldsNow(preset: Preset, from: DateField, to: DateField, now: int)
    requires preset != Custom
    ensures Contains(ResolveRange(preset, from, to, now), now) <==>
      preset != Yesterday && preset != LastMonth && (preset == ThisYear ==> !(0 <= LocalYear(now) <= 99))
  {
    hide FirstDay, MonthOfDay, YearOfDay, DayFromYear;
    if preset == ThisYear {
      ThisYearMeaning(from, to, now, now);
    } else {
      PresetMeaning(preset, from, to, now, now);
    }
  }

  /** last_month ends exactly where this_month starts. */
  lemma MonthsMeet(from: DateField, to: DateField, now: int)
    ensures Some(ResolveRange(LastMonth, from, to, now).end) == ResolveRange(ThisMonth, from, to, now).start
  {
    hide FirstDay, MonthOfDay;
  }

  // ---- comparison periods ------------------------------------------------

  function PreviousRange(w: Window): Option<Window> {
    match w.start
    case None => None
    case Some(start) => Some(Window(Some(start - (w.end - start)), start))
  }

  /** The period before ends where the window starts and is as long; without a start there is none. */
  lemma PreviousMeans(w: Window)
    ensures PreviousRange(w).None? <==> w.start.None?
    ensures PreviousRange(w).Some? ==>
      var previous := PreviousRange(w).value;
      && previous.start.Some? && Some(previous.end) == w.start
      && previous.end - previous.start.value == w.end - previous.end
  {
  }

  /** The window k periods back. */
  function PeriodsBack(w: Window, k: nat): Option<Window> {
    if k == 0 then Some(w)
    else match PeriodsBack(w, k - 1)
      case None => None
      case Some(previous) => PreviousRange(previous)
  }

  lemma {:induction false} PeriodBounds(start: int, end: int, k: nat)
    ensures PeriodsBack(Window(Some(start), end), k)
      == Some(Window(Some(start - k * (end - start)), end - k * (end - start)))
  {
    if k > 0 {
      PeriodBounds(start, end, k - 1);
      assert k * (end - start) == (k - 1) * (end - start) + (end - start);
    }
  }

  ghost predicate InPeriod(start: int, end: int, k: nat, t: int) {
    var period := PeriodsBack(Window(Some(start), end), k);
    period.Some? && Contains(period.value, t)
  }

  lemma {:induction false} InPeriodMeans(start: int, end: int, k: nat, t: int)
    ensures InPeriod(start, end, k, t) <==> start - k * (end - start) <= t < end - k * (end - start)
  {
    PeriodBounds(start, end, k);
  }

  /** Going back period by period covers the past: every earlier instant lies in the period found by division. */
  lemma PeriodsCover(start: int, end: int, t: int)
    requires start < end && t < end
    ensures exists k: nat :: InPeriod(start, end, k, t)
  {
    var length := end - start;
    var k := (end - 1 - t) / length;
    Arith.DivMod(end - 1 - t, length);
    if k < 0 {
      Arith.MulMonotone(k, -1, length);
    }
    InPeriodMeans(start, end, k, t);
  }

  /** And no instant lies in two periods. */
  lemma PeriodsDisjoint(start: int, end: int, j: nat, k: nat, t: int)
    requires start < end && InPeriod(start, end, j, t) && InPeriod(start, end, k, t)
    ensures j == k
  {
    InPeriodMeans(start, end, j, t);
    InPeriodMeans(start, end, k, t);
    Arith.SameMultiple(end - start, j, k);
  }

  // ---- buckets -----------------------------------------------------------

  /** Days up to 92 of them, months beyond that and without a start. */
  lemma GranularityMeans(w: Window)
    ensures PickGranularity(w) == Day <==> w.start.Some? && w.end <= w.start.value + 92 * (24 * 60 * 60 * 1000)
  {
  }

  function PickGranularity(w: Window): Granularity {
    if w.start.None? || w.end - w.start.value > 92 * MS_PER_DAY then Month else Day
  }

  /** String(n).padStart(2, '0'). */
  function Pad2(n: nat): string {
    if n < 10 then "0" + Decimal(n) else Decimal(n)
  }

  /** String(n) for an integer. */
  function IntString(n: int): string {
    if n < 0 then "-" + Decimal(-n) else Decimal(n)
  }

  function MonthKey(month: int): string {
    IntString(month / 12) + "-" + Pad2(month % 12 + 1)
  }

  function DayKey(day: int): string {
    DateBounds(day);
    MonthKey(MonthOfDay(day)) + "-" + Pad2(DateOfDay(day))
  }

  function Bucket(t: int, unit: Granularity): int {
    if unit == Month then LocalMonth(t) else LocalDay(t)
  }

  function KeyOf(bucket: int, unit: Granularity): string {
    if unit == Month then MonthKey(bucket) else DayKey(bucket)
  }

  function BucketKey(t: int, unit: Granularity): string {
    KeyOf(Bucket(t, unit), unit)
  }

  /** Where the cursor stands after k steps: k days on, or at the same time of day on the first of the k-th month. */
  function CursorAt(start: int, unit: Granularity, k: nat): int {
    if k == 0 then start
    else if unit == Month then Midnight(FirstDay(LocalMonth(start) + k)) + (start + OFFSET) % MS_PER_DAY
    else start + k * MS_PER_DAY
  }

  /** How many cursors lie before the end, counting from k and to 5000 at most. */
  function CursorsBefore(start: int, end: int, unit: Granularity, k: nat): nat
    requires k <= 5000
    decreases 5000 - k
  {
    if k == 5000 || CursorAt(start, unit, k) >= end then k else CursorsBefore(start, end, unit, k + 1)
  }

  lemma {:induction false} CursorsBeforeCounts(start: int, end: int, unit: Granularity, k: nat)
    requires k <= 5000
    ensures var n := CursorsBefore(start, end, unit, k);
      && k <= n <= 5000
      && (n == 5000 || CursorAt(start, unit, n) >= end)
      && forall i :: k <= i < n ==> CursorAt(start, unit, i) < end
    decreases 5000 - k
  {
    hide CursorAt;
    if k < 5000 && CursorAt(start, unit, k) < end {
      CursorsBeforeCounts(start, end, unit, k + 1);
    }
  }

  function KeysFrom(first: int, n: nat, unit: Granularity): seq<string> {
    seq(n, i => KeyOf(first + i, unit))
  }

  function ExpectedKeys(w: Window, unit: Granularity): seq<string> {
    match w.start
    case None => []
    case Some(start) => KeysFrom(Bucket(start, unit), CursorsBefore(start, w.end, unit, 0), unit)
  }

  /** The cursor after k steps stands in the k-th bucket from the start. */
  lemma CursorBucket(start: int, unit: Granularity, k: nat)
    ensures Bucket(CursorAt(start, unit, k), unit) == Bucket(start, unit) + k
  {
    hide FirstDay, MonthOfDay;
    if k > 0 && unit == Month {
      SplitTime(FirstDay(LocalMonth(start) + k), (start + OFFSET) % MS_PER_DAY);
      FirstOfMonth(LocalMonth(start) + k);
    } else if k > 0 {
      assert CursorAt(start, unit, k) + OFFSET == start + OFFSET + k * MS_PER_DAY;
    }
  }

  /** The months branch of the loop: the first of the next month, at the same time of day. */
  method NextMonth(instant: int) returns (r: int)
    ensures r == Midnight(FirstDay(LocalMonth(instant) + 1)) + (instant + OFFSET) % MS_PER_DAY
  {
    hide FirstDay, MonthOfDay, YearOfDay, DaysInMonth;
    var shifted := new UtcDate(instant + OFFSET);
    ghost var month := LocalMonth(instant);
    shifted.SetDate(1);
    FirstOfMonth(month);
    MonthLength(month + 1);
    shifted.SetMonth(shifted.GetMonth() + 1);
    r := shifted.time - OFFSET;
  }

  lemma CursorStep(start: int, unit: Granularity, k: nat)
    ensures CursorAt(start, unit, k + 1) == (
      var c := CursorAt(start, unit, k);
      if unit == Month then Midnight(FirstDay(LocalMonth(c) + 1)) + (c + OFFSET) % MS_PER_DAY else c + MS_PER_DAY)
  {
    hide FirstDay, MonthOfDay;
    CursorBucket(start, unit, k);
    if k > 0 && unit == Month {
      SplitTime(FirstDay(LocalMonth(start) + k), (start + OFFSET) % MS_PER_DAY);
    }
  }

  method BucketKeys(w: Window, unit: Granularity) returns (keys: seq<string>)
    ensures keys == ExpectedKeys(w, unit)
  {
    hide FirstDay, MonthOfDay, YearOfDay, KeyOf;
    if w.start.None? {
      return [];
    }
    keys := [];
    var cursor := new UtcDate(w.start.value);
    ghost var start := w.start.value;
    var guard := 0;
    while guard < 5000 && cursor.time < w.end
      invariant 0 <= guard <= 5000 && cursor.time == CursorAt(start, unit, guard)
      invariant keys == KeysFrom(Bucket(start, unit), guard, unit)
      invariant CursorsBefore(start, w.end, unit, 0) == CursorsBefore(start, w.end, unit, guard)
      decreases 5000 - guard
    {
      CursorBucket(start, unit, guard);
      CursorStep(start, unit, guard);
      keys := keys + [KeyOf(Bucket(cursor.time, unit), unit)];
      if unit == Month {
        cursor.time := NextMonth(cursor.time);
      } else {
        cursor.time := cursor.time + MS_PER_DAY;
      }
      guard := guard + 1;
    }
  }

  // ---- the keys are exactly those of the window ----------------------------

  lemma BucketMonotone(t: int, later: int, unit: Granularity)
    requires t <= later
    ensures Bucket(t, unit) <= Bucket(later, unit)
  {
    hide MonthOfDay;
    MonthMonotone(LocalDay(t), LocalDay(later));
  }

  function TimeOfDay(t: int): int {
    (t + OFFSET) % MS_PER_DAY
  }

  /**
   The last bucket of the window is over before the time of day at which the window started: its last instant
   has an earlier time of day than its start, on a later day, which by months is the first of one.
   */
  predicate EndsEarly(start: int, end: int, unit: Granularity) {
    && LocalDay(start) < LocalDay(end - 1)
    && TimeOfDay(end - 1) < TimeOfDay(start)
    && (unit == Month ==> LocalDay(end - 1) == FirstDay(LocalMonth(end - 1)))
  }

  /** That is exactly when the cursor of the last bucket already lies past the end. */
  lemma EndsEarlyMeans(start: int, end: int, unit: Granularity)
    requires start < end
    ensures Bucket(start, unit) <= Bucket(end - 1, unit)
    ensures EndsEarly(start, end, unit) <==> CursorAt(start, unit, Bucket(end - 1, unit) - Bucket(start, unit)) >= end
  {
    hide FirstDay, MonthOfDay;
    BucketMonotone(start, end - 1, unit);
    MonthOfDayBounds(LocalDay(start));
    MonthOfDayBounds(LocalDay(end - 1));
    if unit == Month && LocalMonth(start) < LocalMonth(end - 1) {
      FirstDayAscends(LocalMonth(start) + 1, LocalMonth(end - 1));
    }
  }

  lemma FirstDayAscends(month: int, later: int)
    requires month <= later
    ensures FirstDay(month) <= FirstDay(later)
  {
    hide FirstDay;
    if month < later {
      FirstDayMonotone(month, later);
    }
  }

  /** One key for every bucket that the window touches, but for a last one that ends early, and up to 5000. */
  lemma CursorCount(start: int, end: int, unit: Granularity)
    requires start < end
    ensures var n := Bucket(end - 1, unit) - Bucket(start, unit) + if EndsEarly(start, end, unit) then 0 else 1;
      CursorsBefore(start, end, unit, 0) == if n < 5000 then n else 5000
  {
    hide CursorAt, Bucket, EndsEarly;
    EndsEarlyMeans(start, end, unit);
    var d := Bucket(end - 1, unit) - Bucket(start, unit);
    var m := if EndsEarly(start, end, unit) then d else d + 1;
    var n := CursorsBefore(start, end, unit, 0);
    CursorsBeforeCounts(start, end, unit, 0);
    CursorBefore(start, end, unit, m);
    if n < m {
      CursorBefore(start, end, unit, n);
    }
  }

  /** A cursor lies before the end if its bucket is before the last one, and not if it is after. */
  lemma CursorBefore(start: int, end: int, unit: Granularity, k: nat)
    requires start < end
    ensures k < Bucket(end - 1, unit) - Bucket(start, unit) ==> CursorAt(start, unit, k) < end
    ensures k > Bucket(end - 1, unit) - Bucket(start, unit) ==> CursorAt(start, unit, k) >= end
    ensures start <= CursorAt(start, unit, k)
  {
    hide CursorAt, Bucket;
    var c := CursorAt(start, unit, k);
    CursorBucket(start, unit, k);
    CursorBucket(start, unit, 0);
    CursorStart(start, unit);
    if c >= end {
      BucketMonotone(end - 1, c, unit);
    } else {
      BucketMonotone(c, end - 1, unit);
    }
    if c < start {
      BucketMonotone(c, start, unit);
    }
  }

  lemma CursorStart(start: int, unit: Granularity)
    ensures CursorAt(start, unit, 0) == start
  {
  }

  /** A key is in the list exactly when an instant of the window has it. */
  ghost predicate Covers(start: int, end: int, unit: Granularity) {
    forall key :: key in ExpectedKeys(Window(Some(start), end), unit)
      <==> exists t :: start <= t < end && BucketKey(t, unit) == key
  }

  lemma {:induction false} Pad2ReadsBack(n: nat)
    requires n < 100
    ensures |Pad2(n)| == 2 && AllDigits(Pad2(n)) && Value(Pad2(n)) == n
  {
    DecimalReadsBack(n);
    if n < 10 {
      assert Pad2(n)[..1] == "0" && Pad2(n)[1] == Digit(n);
      assert Value("0") == 0;
    }
  }

  lemma {:induction false} IntSign(n: int)
    ensures IntString(n) != "" && (IntString(n)[0] == '-' <==> n < 0)
  {
    DecimalReadsBack(if n < 0 then -n else n);
    if n >= 0 {
      assert IntString(n)[0] in Decimal(n);
    }
  }

  lemma {:induction false} IntStringInjective(m: int, n: int)
    requires IntString(m) == IntString(n)
    ensures m == n
  {
    IntSign(m);
    IntSign(n);
    DecimalReadsBack(if m < 0 then -m else m);
    DecimalReadsBack(if n < 0 then -n else n);
    if m < 0 {
      assert IntString(m)[1..] == Decimal(-m) && IntString(n)[1..] == Decimal(-n);
    }
  }

  /** A year as it is written: a sign if it is negative, and digits without a leading zero. */
  ghost predicate IsYear(s: string, y: int) {
    if y < 0 then |s| > 1 && s[0] == '-' && s[1] != '0' && AllDigits(s[1..]) && Value(s[1..]) == -y
    else s != "" && (s[0] == '0' ==> s == "0") && AllDigits(s) && Value(s) == y
  }

  ghost predicate TwoDigits(s: string, n: int) {
    |s| == 2 && AllDigits(s) && Value(s) == n
  }

  /** The key is year, hyphen, two-digit month. */
  ghost predicate NamesMonth(key: string, y: int, m: int) {
    |key| >= 3 && IsYear(key[..|key| - 3], y) && key[|key| - 3] == '-' && TwoDigits(key[|key| - 2..], m)
  }

  /** The key is year, hyphen, two-digit month, hyphen, two-digit date. */
  ghost predicate NamesDay(key: string, y: int, m: int, d: int) {
    |key| >= 3 && NamesMonth(key[..|key| - 3], y, m) && key[|key| - 3] == '-' && TwoDigits(key[|key| - 2..], d)
  }

  /**
   The key of an instant names its local month, January being 01, or its local day: the month it names holds
   the day, and the date it names counts from 01 on the first of the month.
   */
  lemma KeyNamesBucket(t: int) returns (y: int, m: int, d: int)
    ensures NamesMonth(BucketKey(t, Month), y, m) && NamesDay(BucketKey(t, Day), y, m, d)
    ensures 1 <= m <= 12 && 1 <= d <= DaysInMonth(12 * y + m - 1)
    ensures FirstDay(12 * y + m - 1) + d - 1 == LocalDay(t)
  {
    hide FirstDay, MonthOfDay, YearOfDay, MonthKey, NamesMonth, DaysInMonth, LocalDay;
    var day := LocalDay(t);
    var month := MonthOfDay(day);
    y, m, d := month / 12, month % 12 + 1, DateOfDay(day);
    MonthOfDayBounds(day);
    MonthLength(month);
    DateBounds(day);
    MonthKeyNames(month);
    Pad2ReadsBack(d);
    var key := DayKey(day);
    assert key[..|key| - 3] == MonthKey(month) && key[|key| - 2..] == Pad2(d);
  }

  lemma {:induction false} MonthKeyNames(month: int)
    ensures NamesMonth(MonthKey(month), month / 12, month % 12 + 1)
  {
    var key := MonthKey(month);
    Pad2ReadsBack(month % 12 + 1);
    YearReadsBack(month / 12);
    assert key[..|key| - 3] == IntString(month / 12) && key[|key| - 2..] == Pad2(month % 12 + 1);
  }

  lemma {:induction false} YearReadsBack(y: int)
    ensures IsYear(IntString(y), y)
  {
    var n := if y < 0 then -y else y;
    DecimalReadsBack(n);
    NoLeadingZero(n);
    if y < 0 {
      assert IntString(y)[1..] == Decimal(n);
    }
  }

  /** A two-digit suffix can be taken off again. */
  lemma {:induction false} SuffixReadsBack(a: string, m: nat, b: string, n: nat)
    requires m < 100 && n < 100 && a + "-" + Pad2(m) == b + "-" + Pad2(n)
    ensures a == b && m == n
  {
    Pad2ReadsBack(m);
    Pad2ReadsBack(n);
    var s, t := a + "-" + Pad2(m), b + "-" + Pad2(n);
    assert s[|s| - 2..] == Pad2(m) && t[|t| - 2..] == Pad2(n);
    assert s[..|s| - 3] == a && t[..|t| - 3] == b;
  }

  /** Different buckets have different keys. */
  lemma KeyInjective(b: int, c: int, unit: Granularity)
    requires KeyOf(b, unit) == KeyOf(c, unit)
    ensures b == c
  {
    hide MonthOfDay, MonthKey, DateOfDay;
    if unit == Month {
      MonthKeyInjective(b, c);
    } else {
      DateBounds(b);
      DateBounds(c);
      SuffixReadsBack(MonthKey(MonthOfDay(b)), DateOfDay(b), MonthKey(MonthOfDay(c)), DateOfDay(c));
      MonthKeyInjective(MonthOfDay(b), MonthOfDay(c));
      DateDeterminesDay(b, c);
    }
  }

  lemma MonthKeyInjective(b: int, c: int)
    requires MonthKey(b) == MonthKey(c)
    ensures b == c
  {
    SuffixReadsBack(IntString(b / 12), b % 12 + 1, IntString(c / 12), c % 12 + 1);
    IntStringInjective(b / 12, c / 12);
  }

  /** The keys run through consecutive buckets, each once. */
  lemma KeysAscend(w: Window, unit: Granularity, i: nat, j: nat)
    requires w.start.Some? && i < j < |ExpectedKeys(w, unit)|
    ensures ExpectedKeys(w, unit)[i] == KeyOf(Bucket(w.start.value, unit) + i, unit)
    ensures ExpectedKeys(w, unit)[i] != ExpectedKeys(w, unit)[j]
  {
    hide KeyOf, CursorsBefore, Bucket;
    var first := Bucket(w.start.value, unit);
    if KeyOf(first + i, unit) == KeyOf(first + j, unit) {
      KeyInjective(first + i, first + j, unit);
    }
  }

  /**
   For any start: the keys are those of the window's instants unless the last bucket ends early or there are over 5000.
   */
  lemma KeysComplete(start: int, end: int, unit: Granularity)
    requires start < end
    ensures Covers(start, end, unit)
      <==> !EndsEarly(start, end, unit) && Bucket(end - 1, unit) - Bucket(start, unit) < 5000
  {
    hide Bucket, KeyOf, CursorAt, CursorsBefore, EndsEarly;
    var first, last := Bucket(start, unit), Bucket(end - 1, unit);
    var n := CursorsBefore(start, end, unit, 0);
    CursorCount(start, end, unit);
    var keys := ExpectedKeys(Window(Some(start), end), unit);
    forall key | key in keys ensures exists t :: start <= t < end && BucketKey(t, unit) == key {
      var i :| 0 <= i < n && keys[i] == key;
      CursorBucket(start, unit, i);
      CursorBefore(start, end, unit, i);
      CursorsBeforeCounts(start, end, unit, 0);
      assert BucketKey(CursorAt(start, unit, i), unit) == key;
    }
    if n == last - first + 1 {
      forall t | start <= t < end ensures BucketKey(t, unit) in keys {
        BucketMonotone(start, t, unit);
        BucketMonotone(t, end - 1, unit);
        assert keys[Bucket(t, unit) - first] == BucketKey(t, unit);
      }
    } else {
      assert BucketKey(end - 1, unit) !in keys by {
        forall i | 0 <= i < n ensures keys[i] != BucketKey(end - 1, unit) {
          if KeyOf(first + i, unit) == KeyOf(last, unit) {
            KeyInjective(first + i, last, unit);
          }
        }
      }
      assert start <= end - 1 < end;
    }
  }

  /**
   A window that starts at a local midnight, with the granularity picked for it, gets exactly the keys of
   its instants, as long as it spans no more than 5000 months. By days there are 92 of them at most, by months
   the window is longer than that.
   */
  lemma WindowKeysComplete(first: int, end: int)
    requires Midnight(first) < end
    ensures var start := Midnight(first); var unit := PickGranularity(Window(Some(start), end));
      && (Covers(start, end, unit) <==> Bucket(end - 1, unit) - Bucket(start, unit) < 5000)
      && (if unit == Day then Covers(start, end, unit) && |ExpectedKeys(Window(Some(start), end), unit)| <= 92
          else end - start > 92 * MS_PER_DAY)
  {
    hide FirstDay, MonthOfDay, Covers, CursorsBefore;
    var start := Midnight(first);
    var unit := PickGranularity(Window(Some(start), end));
    KeysComplete(start, end, unit);
    CursorCount(start, end, unit);
    MidnightNeverEndsEarly(first, end, unit);
  }

  lemma MidnightNeverEndsEarly(first: int, end: int, unit: Granularity)
    requires Midnight(first) < end
    ensures !EndsEarly(Midnight(first), end, unit)
  {
    hide FirstDay, MonthOfDay;
    SplitTime(first, 0);
  }

  const MS_PER_HOUR := 3_600_000

  /** From noon on the first day to one o'clock on the second: the second day's key is missing. */
  lemma LastDayMissed()
    ensures var start, end := 12 * MS_PER_HOUR - OFFSET, 25 * MS_PER_HOUR - OFFSET;
      && LocalDay(start) == 0 && LocalDay(end - 1) == 1
      && ExpectedKeys(Window(Some(start), end), Day) == [DayKey(0)]
      && !Covers(start, end, Day)
  {
    hide DayKey, Covers;
    var start, end := 12 * MS_PER_HOUR - OFFSET, 25 * MS_PER_HOUR - OFFSET;
    CursorCount(start, end, Day);
    KeysComplete(start, end, Day);
    assert KeysFrom(0, 1, Day) == [DayKey(0)];
  }
}
