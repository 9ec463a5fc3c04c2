/// Cadences: a closed form for the last firing of each, and whether a window of time holds one.
/// Instants are milliseconds since the epoch; firings fall on whole minutes.
module Schedule {
  import opened Text
  import Addresses

  const MINUTE_MS: Word := 60_000
  const DAY_MINUTES: Word := 1_440
  const WEEK_MINUTES: Word := 10_080
  /// Days from the Monday of the epoch's week to the epoch.
  const EPOCH_WEEKDAY_OFFSET: Word := 3
  /// The first Monday after the epoch, in minutes.
  const FIRST_MONDAY: Word := 5_760

  datatype Cadence =
    | EveryMinutes(period: Word)
    | DailyAt(minuteOfDay: Word)
    | WeeklyAt(minuteOfWeek: Word)

  datatype Entry = Entry(name: string, addr: string, task: string, goal: string, cadence: Cadence)

  /// The closed form, with the machine's saturating operations written out.
  function LastFiring(cadence: Cadence, now: Word): Word {
    match cadence
    case EveryMinutes(stated) =>
      var period := if stated < 1 then 1 else stated;
      SaturatingSub(now, now % period)
    case DailyAt(minuteOfDay) =>
      var day := SaturatingSub(now, now % DAY_MINUTES);
      var today := SaturatingAdd(day, minuteOfDay);
      if today <= now then today else SaturatingSub(today, DAY_MINUTES)
    case WeeklyAt(minuteOfWeek) =>
      var weekStart := SaturatingAdd(now, SaturatingMul(EPOCH_WEEKDAY_OFFSET, DAY_MINUTES));
      var offset := weekStart % WEEK_MINUTES;
      var thisWeek := SaturatingAdd(SaturatingSub(now, offset), minuteOfWeek);
      if thisWeek <= now then thisWeek else SaturatingSub(thisWeek, WEEK_MINUTES)
  }

  /// Whether the closed form places a firing in `(after, now]`.
  predicate InWindow(cadence: Cadence, after: Word, now: Word) {
    var fired := LastFiring(cadence, now / MINUTE_MS);
    after / MINUTE_MS < fired <= now / MINUTE_MS
  }

  /// The entries whose cadence the window contains by the closed form, in their order.
  function Due(entries: seq<Entry>, after: Word, now: Word): seq<Entry> {
    if entries == [] then []
    else
      (if InWindow(entries[0].cadence, after, now) then [entries[0]] else [])
      + Due(entries[1..], after, now)
  }

  // ------------------------------------------------- the declarative reading

  /// Whether a cadence fires at this minute since the epoch.
  predicate FiresAtMinute(cadence: Cadence, minute: nat) {
    match cadence
    case EveryMinutes(period) => period >= 1 && minute % period == 0
    case DailyAt(minuteOfDay) => minute % DAY_MINUTES == minuteOfDay
    case WeeklyAt(minuteOfWeek) =>
      (minute + EPOCH_WEEKDAY_OFFSET * DAY_MINUTES) % WEEK_MINUTES == minuteOfWeek
  }

  /// Whether a cadence fires at this instant.
  predicate FiresAt(cadence: Cadence, instant: nat) {
    instant % MINUTE_MS == 0 && FiresAtMinute(cadence, instant / MINUTE_MS)
  }

  ghost predicate FiredIn(cadence: Cadence, after: nat, now: nat) {
    exists instant :: after < instant <= now && FiresAt(cadence, instant)
  }

  /// What the file reader admits.
  predicate Accepted(cadence: Cadence) {
    match cadence
    case EveryMinutes(period) => 1 <= period
    case DailyAt(minuteOfDay) => minuteOfDay < DAY_MINUTES
    case WeeklyAt(minuteOfWeek) => minuteOfWeek < WEEK_MINUTES
  }

  /// The instants at which the closed form may be asked about a cadence.
  predicate Settled(cadence: Cadence, now: nat) {
    cadence.WeeklyAt? ==> FIRST_MONDAY * MINUTE_MS <= now
  }

  lemma Division(x: nat, divisor: nat)
    requires divisor >= 1
    ensures x == divisor * (x / divisor) + x % divisor && 0 <= x % divisor < divisor
  {
  }

  lemma {:induction false} MultiplesAreApart(step: nat, a: int, b: int)
    requires step >= 1 && a < b
    ensures step * b >= step * a + step
    decreases b - a
  {
    assert step * b == step * (b - 1) + step;
    if a + 1 < b { MultiplesAreApart(step, a, b - 1); }
  }

  /// Two numbers with one remainder are at least a whole period apart.
  lemma RemainderGap(m: nat, n: nat, period: nat)
    requires period >= 1 && m < n && m % period == n % period
    ensures n - m >= period
  {
    Division(m, period);
    Division(n, period);
    var a, b := m / period, n / period;
    if a < b {
      MultiplesAreApart(period, a, b);
    } else if b < a {
      MultiplesAreApart(period, b, a);
    }
  }

  lemma FloorIsMultiple(x: nat, period: nat)
    requires period >= 1
    ensures x % period <= x && (x - x % period) % period == 0
  {
    var q := x / period;
    Division(x, period);
    var floor := x - x % period;
    assert floor == period * q;
    Division(floor, period);
    if q < floor / period {
      MultiplesAreApart(period, q, floor / period);
    } else if floor / period < q {
      MultiplesAreApart(period, floor / period, q);
    }
  }

  /// What it means for a minute to be the last firing at or before `now`; zero stands for none,
  /// since no window reaches back to the epoch itself.
  ghost predicate IsLastFiring(cadence: Cadence, now: nat, last: nat) {
    && last <= now
    && (last > 0 ==> FiresAtMinute(cadence, last))
    && forall m: nat | 0 < m <= now && FiresAtMinute(cadence, m) :: m <= last
  }

  lemma EveryIsLast(period: Word, now: Word)
    requires 1 <= period
    ensures IsLastFiring(EveryMinutes(period), now, LastFiring(EveryMinutes(period), now))
  {
    FloorIsMultiple(now, period);
    var last := now - now % period;
    assert LastFiring(EveryMinutes(period), now) == last;
    forall m: nat | 0 < m <= now && FiresAtMinute(EveryMinutes(period), m)
      ensures m <= last
    {
      if last < m {
        Division(now, period);
        RemainderGap(last, m, period);
      }
    }
  }

  lemma DailyIsLast(minuteOfDay: Word, now: Word)
    requires minuteOfDay < DAY_MINUTES && now <= U64_MAX / MINUTE_MS
    ensures IsLastFiring(DailyAt(minuteOfDay), now, LastFiring(DailyAt(minuteOfDay), now))
  {
    var day := now - now % DAY_MINUTES;
    assert day == DAY_MINUTES * (now / DAY_MINUTES);
  }

  lemma WeeklyIsLast(minuteOfWeek: Word, now: Word)
    requires minuteOfWeek < WEEK_MINUTES && FIRST_MONDAY <= now <= U64_MAX / MINUTE_MS
    ensures IsLastFiring(WeeklyAt(minuteOfWeek), now, LastFiring(WeeklyAt(minuteOfWeek), now))
  {
    var sinceMonday := (now + 4_320) % WEEK_MINUTES;
    assert now + 4_320 == WEEK_MINUTES * ((now + 4_320) / WEEK_MINUTES) + sinceMonday;
  }

  /// No minute after the closed form's answer fires, and a positive answer is itself a firing.
  lemma LastFiringIsLast(cadence: Cadence, now: Word)
    requires Accepted(cadence)
    requires cadence.WeeklyAt? ==> FIRST_MONDAY <= now
    requires now <= U64_MAX / MINUTE_MS
    ensures IsLastFiring(cadence, now, LastFiring(cadence, now))
  {
    match cadence
    case EveryMinutes(period) => EveryIsLast(period, now);
    case DailyAt(minuteOfDay) => DailyIsLast(minuteOfDay, now);
    case WeeklyAt(minuteOfWeek) => WeeklyIsLast(minuteOfWeek, now);
  }

  /// The closed form is exact: it reports a cadence as due if and only if some instant of the
  /// half-open window fires.
  lemma ClosedFormIsExact(cadence: Cadence, after: Word, now: Word)
    requires Accepted(cadence) && Settled(cadence, now)
    ensures InWindow(cadence, after, now) <==> FiredIn(cadence, after, now)
  {
    var last := LastFiring(cadence, now / MINUTE_MS);
    LastFiringIsLast(cadence, now / MINUTE_MS);
    if InWindow(cadence, after, now) {
      assert after < last * MINUTE_MS <= now && FiresAt(cadence, last * MINUTE_MS);
    }
    if FiredIn(cadence, after, now) {
      var instant :| after < instant <= now && FiresAt(cadence, instant);
      var minute := instant / MINUTE_MS;
      assert instant == minute * MINUTE_MS;
      assert 0 < minute <= now / MINUTE_MS && after / MINUTE_MS < minute;
    }
  }

  /// The schedule answers with exactly the entries that fired in the window, in file order:
  /// nothing invented, nothing repeated, nothing dropped.
  lemma {:induction false} DueIsExact(entries: seq<Entry>, after: Word, now: Word)
    requires forall e | e in entries :: Accepted(e.cadence) && Settled(e.cadence, now)
    ensures forall e :: e in Due(entries, after, now) <==> e in entries && FiredIn(e.cadence, after, now)
    ensures multiset(Due(entries, after, now)) <= multiset(entries)
  {
    if entries != [] {
      DueIsExact(entries[1..], after, now);
      ClosedFormIsExact(entries[0].cadence, after, now);
      assert entries == [entries[0]] + entries[1..];
    }
  }

  // ----------------------------------------------- weekly, before the first Monday

  /// Before the first Monday the saturating subtraction moves the week's start to the epoch, so
  /// this entry is reported for Thursday 1970-01-01 00:09, when nothing fired.
  lemma WeeklyInventsAFiring()
    ensures Accepted(WeeklyAt(9))
    ensures InWindow(WeeklyAt(9), 0, 9 * MINUTE_MS) && !FiredIn(WeeklyAt(9), 0, 9 * MINUTE_MS)
  {
    forall instant | 0 < instant <= 9 * MINUTE_MS
      ensures !FiresAt(WeeklyAt(9), instant)
    {
      var minute := instant / MINUTE_MS;
      assert minute <= 9;
    }
  }

  /// What a caller can test: whether the weekly closed form can be trusted at this minute.
  predicate WeeklyTrusted(minuteOfWeek: Word, nowMinute: Word) {
    var intoEpochWeek := EPOCH_WEEKDAY_OFFSET * DAY_MINUTES;
    || FIRST_MONDAY <= nowMinute
    || minuteOfWeek == 0
    || nowMinute < minuteOfWeek <= intoEpochWeek
    || nowMinute + intoEpochWeek < minuteOfWeek
  }

  /// Exactly when a weekly cadence is answered correctly for every possible start of the window.
  lemma WeeklyExactIff(minuteOfWeek: Word, now: Word)
    requires minuteOfWeek < WEEK_MINUTES
    ensures
      (forall after: Word :: InWindow(WeeklyAt(minuteOfWeek), after, now) <==>
        FiredIn(WeeklyAt(minuteOfWeek), after, now))
      <==> WeeklyTrusted(minuteOfWeek, now / MINUTE_MS)
  {
    var cadence := WeeklyAt(minuteOfWeek);
    var nowMinute := now / MINUTE_MS;
    if FIRST_MONDAY <= nowMinute {
      forall after: Word
        ensures InWindow(cadence, after, now) <==> FiredIn(cadence, after, now)
      {
        ClosedFormIsExact(cadence, after, now);
      }
    } else {
      forall after: Word
        ensures FiredIn(cadence, after, now) <==>
          after / MINUTE_MS < minuteOfWeek - 4320 <= nowMinute
      {
        EarlyWeeklyFirings(minuteOfWeek, after, now);
      }
      if !WeeklyTrusted(minuteOfWeek, nowMinute) {
        if minuteOfWeek <= nowMinute {
          var after: Word := (minuteOfWeek - 1) * MINUTE_MS;
          assert InWindow(cadence, after, now) && !FiredIn(cadence, after, now);
        } else {
          var after: Word := (minuteOfWeek - 4321) * MINUTE_MS;
          assert FiredIn(cadence, after, now) && !InWindow(cadence, after, now);
        }
      }
    }
  }

  lemma EarlyWeeklyFirings(minuteOfWeek: Word, after: Word, now: Word)
    requires minuteOfWeek < WEEK_MINUTES && now / MINUTE_MS < FIRST_MONDAY
    ensures FiredIn(WeeklyAt(minuteOfWeek), after, now) <==>
      after / MINUTE_MS < minuteOfWeek - 4320 <= now / MINUTE_MS
  {
    var cadence := WeeklyAt(minuteOfWeek);
    if FiredIn(cadence, after, now) {
      var instant :| after < instant <= now && FiresAt(cadence, instant);
      assert (instant / MINUTE_MS + 4320) % WEEK_MINUTES == instant / MINUTE_MS + 4320;
    }
    if after / MINUTE_MS < minuteOfWeek - 4320 <= now / MINUTE_MS {
      var instant := (minuteOfWeek - 4320) * MINUTE_MS;
      assert after < instant <= now && FiresAt(cadence, instant);
    }
  }

  // --------------------------------------------------------- runs of polls

  /// Two adjoining windows report a cadence exactly when their union does: a restart between two
  /// polls neither loses a firing nor owes one twice.
  lemma WindowsCompose(cadence: Cadence, a: Word, b: Word, c: Word)
    requires a <= b <= c
    requires Accepted(cadence) && Settled(cadence, b)
    ensures InWindow(cadence, a, c) <==> InWindow(cadence, a, b) || InWindow(cadence, b, c)
  {
    ClosedFormIsExact(cadence, a, b);
    ClosedFormIsExact(cadence, b, c);
    ClosedFormIsExact(cadence, a, c);
    if FiredIn(cadence, a, c) {
      var instant :| a < instant <= c && FiresAt(cadence, instant);
      assert instant <= b || b < instant;
    }
  }

  ghost predicate Increasing(polls: seq<Word>) {
    forall i, j | 0 <= i <= j < |polls| :: polls[i] <= polls[j]
  }

  /// How many polls of a run report the cadence; each poll asks about the time since the one before.
  function Reports(cadence: Cadence, polls: seq<Word>): nat {
    if |polls| < 2 then 0
    else
      Reports(cadence, polls[..|polls| - 1])
      + if InWindow(cadence, polls[|polls| - 2], polls[|polls| - 1]) then 1 else 0
  }

  /// How many minutes in `(after, until]` fire.
  function Firings(cadence: Cadence, after: nat, until: nat): nat
    decreases until
  {
    if until <= after then 0
    else Firings(cadence, after, until - 1) + if FiresAtMinute(cadence, until) then 1 else 0
  }

  function Period(cadence: Cadence): Word {
    match cadence
    case EveryMinutes(period) => period
    case DailyAt(_) => DAY_MINUTES
    case WeeklyAt(_) => WEEK_MINUTES
  }

  lemma {:induction false} FiringsSplit(cadence: Cadence, a: nat, b: nat, c: nat)
    requires a <= b <= c
    ensures Firings(cadence, a, c) == Firings(cadence, a, b) + Firings(cadence, b, c)
    decreases c
  {
    if b < c { FiringsSplit(cadence, a, b, c - 1); }
  }

  lemma NothingFires(cadence: Cadence, at: nat)
    ensures Firings(cadence, at, at) == 0
  {
  }

  lemma {:induction false} FiringsWitness(cadence: Cadence, after: nat, until: nat)
    ensures Firings(cadence, after, until) > 0 <==>
      exists m :: after < m <= until && FiresAtMinute(cadence, m)
    decreases until
  {
    if after < until {
      FiringsWitness(cadence, after, until - 1);
      if m :| after < m <= until && FiresAtMinute(cadence, m) && m < until {
        assert after < m <= until - 1;
      }
    }
  }

  /// A window no longer than the period holds at most one firing.
  lemma {:induction false} OneFiringPerPeriod(cadence: Cadence, after: nat, until: nat)
    requires Accepted(cadence) && until - after <= Period(cadence)
    ensures Firings(cadence, after, until) <= 1
    decreases until
  {
    hide FiresAtMinute, Accepted, Period;
    if after < until {
      OneFiringPerPeriod(cadence, after, until - 1);
      FiringsWitness(cadence, after, until - 1);
      if FiresAtMinute(cadence, until) && Firings(cadence, after, until - 1) > 0 {
        var m :| after < m <= until - 1 && FiresAtMinute(cadence, m);
        FiringsAreApart(cadence, m, until);
      }
    }
  }

  lemma FiringsAreApart(cadence: Cadence, m: nat, n: nat)
    requires Accepted(cadence) && m < n && FiresAtMinute(cadence, m) && FiresAtMinute(cadence, n)
    ensures n - m >= Period(cadence)
  {
    var shift := if cadence.WeeklyAt? then EPOCH_WEEKDAY_OFFSET * DAY_MINUTES else 0;
    RemainderGap(m + shift, n + shift, Period(cadence));
  }

  lemma WindowOwesOneRun(cadence: Cadence, after: Word, now: Word)
    requires after <= now && Accepted(cadence) && Settled(cadence, now)
    ensures InWindow(cadence, after, now) <==>
      Firings(cadence, after / MINUTE_MS, now / MINUTE_MS) > 0
  {
    LastFiringIsLast(cadence, now / MINUTE_MS);
    FiringsWitness(cadence, after / MINUTE_MS, now / MINUTE_MS);
  }

  /// Over a whole run of polls an entry is returned at most as often as it fired, at least once if
  /// it fired at all, and exactly as often when no poll is further from the last than one period.
  lemma {:induction false} ReportsOverARun(cadence: Cadence, polls: seq<Word>)
    requires polls != [] && Increasing(polls) && Accepted(cadence)
    requires forall i | 1 <= i < |polls| :: Settled(cadence, polls[i])
    ensures
      var fired := Firings(cadence, polls[0] / MINUTE_MS, polls[|polls| - 1] / MINUTE_MS);
      && Reports(cadence, polls) <= fired
      && (fired > 0 ==> Reports(cadence, polls) > 0)
      && ((forall i | 1 <= i < |polls| :: polls[i] - polls[i - 1] <= Period(cadence) * MINUTE_MS)
          ==> Reports(cadence, polls) == fired)
  {
    hide InWindow, Firings, Settled, Accepted, Period;
    if |polls| < 2 {
      NothingFires(cadence, polls[0] / MINUTE_MS);
    } else {
      var n := |polls|;
      var front := polls[..n - 1];
      ReportsOverARun(cadence, front);
      var before, now := polls[n - 2], polls[n - 1];
      assert before <= now && polls[0] <= before;
      WindowOwesOneRun(cadence, before, now);
      FiringsSplit(cadence, polls[0] / MINUTE_MS, before / MINUTE_MS, now / MINUTE_MS);
      if forall i | 1 <= i < n :: polls[i] - polls[i - 1] <= Period(cadence) * MINUTE_MS {
        assert polls[n - 1] - polls[n - 2] <= Period(cadence) * MINUTE_MS;
        OneFiringPerPeriod(cadence, before / MINUTE_MS, now / MINUTE_MS);
        forall i | 1 <= i < |front|
          ensures front[i] - front[i - 1] <= Period(cadence) * MINUTE_MS
        {
          assert polls[i] - polls[i - 1] <= Period(cadence) * MINUTE_MS;
        }
      }
    }
  }

  // ------------------------------------------------------------ the file

  datatype Refusal =
    | NotAnAddress | NoCadence | TwoCadences
    | NotAnInterval | NoNumber | ZeroInterval
    | NotAClock | NoHour | NoMinute | NotATimeOfDay
    | NotAWeekly | NotAWeekday

  datatype JobRow = JobRow(
    name: string, addr: string, task: string, goal: string,
    every: Option<string>, daily: Option<string>, weekly: Option<string>)

  function ReadCount(value: string, scale: Word): Result<Cadence, Refusal> {
    match ParseWord(Trim(value))
    case None => Err(NoNumber)
    case Some(count) =>
      if count == 0 then Err(ZeroInterval) else Ok(EveryMinutes(SaturatingMul(count, scale)))
  }

  function ReadEvery(raw: string): Result<Cadence, Refusal> {
    match StripSuffix(raw, "m")
    case Some(value) => ReadCount(value, 1)
    case None =>
      match StripSuffix(raw, "h")
      case Some(value) => ReadCount(value, 60)
      case None => Err(NotAnInterval)
  }

  function ReadClock(raw: string): Result<Word, Refusal> {
    match SplitOnce(Trim(raw), ':')
    case None => Err(NotAClock)
    case Some((hourText, minuteText)) =>
      match ParseWord(hourText)
      case None => Err(NoHour)
      case Some(hours) =>
        match ParseWord(minuteText)
        case None => Err(NoMinute)
        case Some(minutes) =>
          if hours > 23 || minutes > 59 then Err(NotATimeOfDay)
          else Ok(SaturatingAdd(SaturatingMul(hours, 60), minutes))
  }

  const WEEKDAYS: seq<string> := ["mon", "tue", "wed", "thu", "fri", "sat", "sun"]

  function WeekdayIndex(day: string): (index: Option<Word>)
    ensures index.Some? ==> index.value < 7 && WEEKDAYS[index.value] == day
    ensures index.None? ==> day !in WEEKDAYS
  {
    if day == "mon" then Some(0)
    else if day == "tue" then Some(1)
    else if day == "wed" then Some(2)
    else if day == "thu" then Some(3)
    else if day == "fri" then Some(4)
    else if day == "sat" then Some(5)
    else if day == "sun" then Some(6)
    else None
  }

  function ReadWeekly(raw: string): Result<Cadence, Refusal> {
    match SplitOnce(Trim(raw), ' ')
    case None => Err(NotAWeekly)
    case Some((day, clock)) =>
      match WeekdayIndex(Lower(day))
      case None => Err(NotAWeekday)
      case Some(index) =>
        match ReadClock(clock)
        case Err(refusal) => Err(refusal)
        case Ok(minuteOfDay) =>
          Ok(WeeklyAt(SaturatingAdd(SaturatingMul(index, DAY_MINUTES), minuteOfDay)))
  }

  function ReadCadence(row: JobRow): Result<Cadence, Refusal> {
    match (row.every, row.daily, row.weekly)
    case (Some(every), None, None) => ReadEvery(every)
    case (None, Some(daily), None) =>
      (match ReadClock(daily)
       case Ok(minuteOfDay) => Ok(DailyAt(minuteOfDay))
       case Err(refusal) => Err(refusal))
    case (None, None, Some(weekly)) => ReadWeekly(weekly)
    case (None, None, None) => Err(NoCadence)
    case _ => Err(TwoCadences)
  }

  lemma ReadClockStaysInTheDay(raw: string)
    ensures ReadClock(raw).Ok? ==> ReadClock(raw).value < DAY_MINUTES
  {
    hide SplitOnce, ParseWord, Trim;
  }

  lemma ReadEveryIsPositive(raw: string)
    ensures ReadEvery(raw).Ok? ==> Accepted(ReadEvery(raw).value)
  {
    hide StripSuffix, ParseWord, Trim;
  }

  lemma ReadWeeklyStaysInTheWeek(raw: string)
    ensures ReadWeekly(raw).Ok? ==> Accepted(ReadWeekly(raw).value)
  {
    hide SplitOnce, ReadClock, Trim, WeekdayIndex, Lower;
    match SplitOnce(Trim(raw), ' ')
    case None =>
    case Some((_, clock)) => ReadClockStaysInTheDay(clock);
  }

  /// Every cadence the file reader lets through is one the closed form is exact for.
  lemma ReadCadencesAreAccepted(row: JobRow)
    ensures ReadCadence(row).Ok? ==> Accepted(ReadCadence(row).value)
  {
    hide ReadEvery, ReadClock, ReadWeekly;
    match (row.every, row.daily, row.weekly)
    case (Some(every), None, None) => ReadEveryIsPositive(every);
    case (None, Some(daily), None) => ReadClockStaysInTheDay(daily);
    case (None, None, Some(weekly)) => ReadWeeklyStaysInTheWeek(weekly);
    case _ =>
  }

  /// How a person spells a time of day.
  function ClockText(minuteOfDay: nat): string {
    Decimal(minuteOfDay / 60) + ":" + Decimal(minuteOfDay % 60)
  }

  /// How a person spells a cadence.
  function Spelled(job: JobRow, cadence: Cadence): JobRow
    requires Accepted(cadence)
  {
    match cadence
    case EveryMinutes(period) =>
      job.(every := Some(Decimal(period) + "m"), daily := None, weekly := None)
    case DailyAt(minuteOfDay) =>
      job.(every := None, daily := Some(ClockText(minuteOfDay)), weekly := None)
    case WeeklyAt(minuteOfWeek) =>
      job.(every := None, daily := None,
           weekly := Some(WEEKDAYS[minuteOfWeek / DAY_MINUTES] + " " + ClockText(minuteOfWeek % DAY_MINUTES)))
  }

  lemma ClockTextShape(minuteOfDay: nat)
    ensures
      var hours, minutes, text := Decimal(minuteOfDay / 60), Decimal(minuteOfDay % 60), ClockText(minuteOfDay);
      && text == hours + [':'] + minutes && ':' !in hours
      && IsDigit(text[|text| - 1]) && Trim(text) == text
  {
    hide Decimal, Trim;
    var hours, minutes := Decimal(minuteOfDay / 60), Decimal(minuteOfDay % 60);
    var text := ClockText(minuteOfDay);
    assert hours[0] in hours && minutes[|minutes| - 1] in minutes;
    assert text[0] == hours[0] && text[|text| - 1] == minutes[|minutes| - 1];
    TrimIsIdentity(text);
  }

  lemma ClockTextReads(minuteOfDay: nat)
    requires minuteOfDay < DAY_MINUTES
    ensures ReadClock(ClockText(minuteOfDay)) == Ok(minuteOfDay)
  {
    hide Decimal, Trim, SplitOnce, ParseWord, ClockText;
    ClockTextShape(minuteOfDay);
    SplitOnceJoined(Decimal(minuteOfDay / 60), ':', Decimal(minuteOfDay % 60));
    ParseDecimal(minuteOfDay / 60);
    ParseDecimal(minuteOfDay % 60);
  }

  lemma IntervalTextReads(period: Word)
    requires 1 <= period
    ensures ReadEvery(Decimal(period) + "m") == Ok(EveryMinutes(period))
  {
    hide Decimal, Trim, ParseWord;
    var digits := Decimal(period);
    assert (digits + "m")[|digits|..] == "m" && (digits + "m")[..|digits|] == digits;
    assert digits[0] in digits && digits[|digits| - 1] in digits;
    TrimIsIdentity(digits);
    ParseDecimal(period);
  }

  lemma WeekdayReads(index: nat)
    requires index < 7
    ensures WeekdayIndex(Lower(WEEKDAYS[index])) == Some(index)
    ensures ' ' !in WEEKDAYS[index] && |WEEKDAYS[index]| == 3 && !IsWhitespace(WEEKDAYS[index][0])
  {
    assert Lower(WEEKDAYS[index]) == WEEKDAYS[index];
  }

  lemma WeeklyTextReads(minuteOfWeek: Word)
    requires minuteOfWeek < WEEK_MINUTES
    ensures
      ReadWeekly(WEEKDAYS[minuteOfWeek / DAY_MINUTES] + " " + ClockText(minuteOfWeek % DAY_MINUTES))
      == Ok(WeeklyAt(minuteOfWeek))
  {
    hide Trim, SplitOnce, ReadClock, ClockText, WeekdayIndex, Lower;
    var index, minuteOfDay := minuteOfWeek / DAY_MINUTES, minuteOfWeek % DAY_MINUTES;
    WeekdayReads(index);
    ClockTextShape(minuteOfDay);
    ClockTextReads(minuteOfDay);
    var day, clock := WEEKDAYS[index], ClockText(minuteOfDay);
    var text := day + " " + clock;
    assert text[0] == day[0] && text[|text| - 1] == clock[|clock| - 1];
    TrimIsIdentity(text);
    SplitOnceJoined(day, ' ', clock);
  }

  /// The spelling round-trips: there is a row for every accepted cadence, and it reads back.
  lemma SpelledCadenceReads(job: JobRow, cadence: Cadence)
    requires Accepted(cadence)
    ensures ReadCadence(Spelled(job, cadence)) == Ok(cadence)
  {
    hide ReadEvery, ReadClock, ReadWeekly, ClockText, Decimal;
    match cadence
    case EveryMinutes(period) => IntervalTextReads(period);
    case DailyAt(minuteOfDay) => ClockTextReads(minuteOfDay);
    case WeeklyAt(minuteOfWeek) => WeeklyTextReads(minuteOfWeek);
  }

  function ReadRow(row: JobRow): Result<Entry, Refusal> {
    match Addresses.Parse(row.addr)
    case None => Err(NotAnAddress)
    case Some(addr) =>
      match ReadCadence(row)
      case Err(refusal) => Err(refusal)
      case Ok(cadence) => Ok(Entry(row.name, addr, row.task, row.goal, cadence))
  }

  /// Reads a schedule: every row becomes one entry in order, or the first row that cannot be read
  /// refuses the whole file.
  method ParseSchedule(rows: seq<JobRow>) returns (schedule: Result<seq<Entry>, Refusal>)
    ensures schedule.Ok? <==> forall i | 0 <= i < |rows| :: ReadRow(rows[i]).Ok?
    ensures schedule.Ok? ==>
      && |schedule.value| == |rows|
      && forall i | 0 <= i < |rows| :: Ok(schedule.value[i]) == ReadRow(rows[i])
    ensures schedule.Err? ==>
      exists i | 0 <= i < |rows| ::
        && ReadRow(rows[i]) == Err(schedule.error)
        && forall j | 0 <= j < i :: ReadRow(rows[j]).Ok?
  {
    hide ReadRow;
    var entries: seq<Entry> := [];
    for i := 0 to |rows|
      invariant |entries| == i
      invariant forall j | 0 <= j < i :: ReadRow(rows[j]) == Ok(entries[j])
    {
      match ReadRow(rows[i])
      case Err(refusal) => return Err(refusal);
      case Ok(entry) => entries := entries + [entry];
    }
    return Ok(entries);
  }
}
