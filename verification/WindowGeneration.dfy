/** Window generation as a whole: disjoint calendars, whole weeks, and the store that keeps generated windows. */
module WindowGeneration {
  import opened TimeUnits
  import opened WindowCoverage
  import opened ScheduleWindowService

  // ---------------------------------------------------------------- disjoint calendars

  predicate ItemsOverlap(a: Availability, b: Availability) {
    a.dayOfWeek == b.dayOfWeek && Max(a.startMin, b.startMin) < Min(a.endMin, b.endMin)
  }

  ghost predicate Disjoint(avail: seq<Availability>) {
    forall i, j :: 0 <= i < j < |avail| ==> !ItemsOverlap(avail[i], avail[j])
  }

  lemma {:induction false} OfferedAtMostOnce(avail: seq<Availability>, weekday: int, m: int)
    requires Disjoint(avail)
    ensures Offered(avail, weekday, m) <= 1
    ensures Offered(avail, weekday, m) == 1 <==>
            exists i :: 0 <= i < |avail| && avail[i].dayOfWeek == weekday && avail[i].startMin <= m < avail[i].endMin
  {
    if avail != [] {
      var init, a := avail[..|avail| - 1], avail[|avail| - 1];
      assert forall i :: 0 <= i < |init| ==> init[i] == avail[i];
      OfferedAtMostOnce(init, weekday, m);
      if i :| 0 <= i < |init| && init[i].dayOfWeek == weekday && init[i].startMin <= m < init[i].endMin {
        assert !ItemsOverlap(avail[i], a);
        assert avail[i].dayOfWeek == weekday && avail[i].startMin <= m < avail[i].endMin;
      } else if a.dayOfWeek == weekday && a.startMin <= m < a.endMin {
        assert avail[|avail| - 1] == a;
      }
    }
  }

  /** With a disjoint calendar a minute lies in one window if its weekday offers it and no exception of that day
      covers it, and otherwise in none. */
  lemma PromisedOnce(avail: seq<Availability>, exs: seq<CalendarException>, fromMs: int, toMs: int, day: int, m: int)
    requires Disjoint(avail)
    ensures Promised(avail, exs, fromMs, toMs, day, m) <= 1
    ensures Promised(avail, exs, fromMs, toMs, day, m) == 1 <==>
            && DayInRange(day, DayStartUTC(fromMs), DayStartUTC(toMs))
            && !Excepted(exs, DayStartUTC, day, m)
            && exists i :: 0 <= i < |avail| && avail[i].dayOfWeek == GetDayOfWeek(day)
                           && avail[i].startMin <= m < avail[i].endMin
  {
    OfferedAtMostOnce(avail, GetDayOfWeek(day), m);
  }

  // ---------------------------------------------------------------- whole weeks

  /** Minutes of the items of one weekday, and of all items. */
  ghost function WeekdayMinutes(avail: seq<Availability>, weekday: int): int {
    if avail == [] then 0
    else
      var a := avail[|avail| - 1];
      WeekdayMinutes(avail[..|avail| - 1], weekday) + (if a.dayOfWeek == weekday then a.endMin - a.startMin else 0)
  }

  ghost function WeeklyMinutes(avail: seq<Availability>): int {
    if avail == [] then 0
    else WeeklyMinutes(avail[..|avail| - 1]) + avail[|avail| - 1].endMin - avail[|avail| - 1].startMin
  }

  ghost predicate WeekdaysValid(avail: seq<Availability>) {
    forall i :: 0 <= i < |avail| ==> 0 <= avail[i].dayOfWeek <= 6
  }

  lemma {:induction false} DayTotal(avail: seq<Availability>, weekday: int, day: int)
    ensures TotalMinutes(DayWindows(OfDay(avail, weekday), day)) == WeekdayMinutes(avail, weekday)
  {
    var today := DayWindows(OfDay(avail, weekday), day);
    if avail != [] {
      var init, a := avail[..|avail| - 1], avail[|avail| - 1];
      DayTotal(init, weekday, day);
      if a.dayOfWeek == weekday {
        assert today == DayWindows(OfDay(init, weekday), day) + [DatedWindow(a, day)];
        TotalConcat(DayWindows(OfDay(init, weekday), day), [DatedWindow(a, day)]);
        assert [DatedWindow(a, day)][..0] == [];
      } else {
        assert today == DayWindows(OfDay(init, weekday), day);
      }
    }
  }

  function NextWeekday(weekday: int): int {
    if weekday == 6 then 0 else weekday + 1
  }

  /** From `first` on, weekdays lie in 0..6 and advance by one, cyclically, each day. */
  ghost predicate WeekdaysAdvance(weekdayOf: int -> int, first: int) {
    forall d :: first <= d ==> 0 <= weekdayOf(d) <= 6 && weekdayOf(d + DAY_MS) == NextWeekday(weekdayOf(d))
  }

  lemma NextDay(d: int)
    requires 0 <= d
    ensures 0 <= GetDayOfWeek(d) <= 6 && GetDayOfWeek(d + DAY_MS) == NextWeekday(GetDayOfWeek(d))
  {
    var days := d / DAY_MS;
    assert (d + DAY_MS) / DAY_MS == days + 1;
    assert GetDayOfWeek(d) == (days + 4) % 7;
    assert GetDayOfWeek(d + DAY_MS) == (days + 5) % 7;
  }

  lemma CalendarAdvances(first: int)
    requires 0 <= first
    ensures WeekdaysAdvance(GetDayOfWeek, first)
  {
    forall d | first <= d
      ensures 0 <= GetDayOfWeek(d) <= 6 && GetDayOfWeek(d + DAY_MS) == NextWeekday(GetDayOfWeek(d))
    {
      NextDay(d);
    }
  }

  /** Day n after the first of January 1970 starts at n times 86400000 ms, and its weekday is (n + 4) mod 7, since that
      day was a Thursday; a time of day changes neither. */
  lemma EpochDay(n: nat, time: nat)
    requires time < 86_400_000
    ensures DayStartUTC(n * 86_400_000 + time) == n * 86_400_000
    ensures GetDayOfWeek(n * 86_400_000 + time) == (n + 4) % 7
  {
    assert (n * 86_400_000 + time) / 86_400_000 == n;
  }

  /** Before 1970 the truncating remainder is no weekday: it is right if and only if the day is one of the last four
      before the epoch or a Sunday. */
  lemma WeekdayRightIff(n: int)
    ensures GetDayOfWeek(n * 86_400_000) == (n + 4) % 7 <==> n >= -4 || (n + 4) % 7 == 0
  {
    if n < 0 {
      assert (-n * 86_400_000) / 86_400_000 == -n;
    } else {
      EpochDay(n, 0);
    }
  }

  /** The windows of day n are those its weekday offers, for the days from that of `fromMs` to that of `toMs`. */
  lemma ExpandedOnDay(avail: seq<Availability>, fromMs: nat, toMs: nat, n: nat, m: int)
    ensures Coverage(CalendarWindows(avail, fromMs, toMs), n * 86_400_000, m)
            == if fromMs / 86_400_000 <= n <= toMs / 86_400_000 then Offered(avail, (n + 4) % 7, m) else 0
  {
    ExpandedCoverage(avail, GetDayOfWeek, DayStartUTC(fromMs), DayStartUTC(toMs), n * 86_400_000, m);
    EpochDay(n, 0);
    DayOfRange(fromMs, toMs, n);
  }

  lemma DaysBetween(a: int, b: int, n: int)
    ensures DayInRange(n * 86_400_000, a * 86_400_000, b * 86_400_000) <==> a <= n <= b
  {
    assert (n * 86_400_000 - a * 86_400_000) % DAY_MS == 0 by {
      assert n * 86_400_000 - a * 86_400_000 == (n - a) * DAY_MS;
    }
  }

  lemma DayOfRange(fromMs: nat, toMs: nat, n: nat)
    ensures DayInRange(n * 86_400_000, DayStartUTC(fromMs), DayStartUTC(toMs))
            <==> fromMs / 86_400_000 <= n <= toMs / 86_400_000
  {
    var a, b := fromMs / 86_400_000, toMs / 86_400_000;
    assert DayStartUTC(fromMs) == a * 86_400_000 && DayStartUTC(toMs) == b * 86_400_000;
    DaysBetween(a, b, n);
  }

  /** An exception's minute on day n: its date lies within the day. */
  ghost predicate ExceptedOn(exs: seq<CalendarException>, n: nat, m: int) {
    exists i :: 0 <= i < |exs| && exs[i].dateMs / 86_400_000 == n && exs[i].startMin <= m < exs[i].endMin
  }

  /** What an answer that is the calendar offers on day n. */
  lemma CalendarOnDay(answer: seq<Window>, avail: seq<Availability>, exs: seq<CalendarException>, fromMs: nat,
                      toMs: nat, n: nat, m: int)
    requires IsCalendar(answer, avail, exs, fromMs, toMs) && forall i :: 0 <= i < |exs| ==> exs[i].dateMs >= 0
    ensures Coverage(answer, n * 86_400_000, m)
            == if fromMs / 86_400_000 <= n <= toMs / 86_400_000 && !ExceptedOn(exs, n, m)
               then Offered(avail, (n + 4) % 7, m) else 0
  {
    var day := n * 86_400_000;
    EpochDay(n, 0);
    DayOfRange(fromMs, toMs, n);
    forall i | 0 <= i < |exs|
      ensures DayStartUTC(exs[i].dateMs) == day <==> exs[i].dateMs / 86_400_000 == n
    {
      EpochDay(exs[i].dateMs / 86_400_000, exs[i].dateMs % 86_400_000);
    }
    if Excepted(exs, DayStartUTC, day, m) {
      var i :| 0 <= i < |exs| && DayStartUTC(exs[i].dateMs) == day && exs[i].Covers(m);
      assert ExceptedOn(exs, n, m);
    }
    if i :| 0 <= i < |exs| && exs[i].dateMs / 86_400_000 == n && exs[i].startMin <= m < exs[i].endMin {
      assert DayStartUTC(exs[i].dateMs) == day && exs[i].Covers(m);
    }
    assert Coverage(answer, day, m) == Promised(avail, exs, fromMs, toMs, day, m);
  }

  lemma OneDay(avail: seq<Availability>, weekdayOf: int -> int, first: int, last: int)
    requires first <= last
    ensures TotalMinutes(Expanded(avail, weekdayOf, first, last)) ==
            WeekdayMinutes(avail, weekdayOf(first)) + TotalMinutes(Expanded(avail, weekdayOf, first + DAY_MS, last))
  {
    DayTotal(avail, weekdayOf(first), first);
    TotalConcat(DayWindows(OfDay(avail, weekdayOf(first)), first), Expanded(avail, weekdayOf, first + DAY_MS, last));
  }

  /** The minutes of n consecutive weekdays. */
  ghost function Upcoming(avail: seq<Availability>, weekday: int, n: nat): int
    decreases n
  {
    if n == 0 then 0 else WeekdayMinutes(avail, weekday) + Upcoming(avail, NextWeekday(weekday), n - 1)
  }

  function DaysLater(day: int, n: nat): (later: int)
    ensures later == day + n * DAY_MS
    decreases n
  {
    if n == 0 then day else DaysLater(day + DAY_MS, n - 1)
  }

  lemma {:induction false} SomeDays(avail: seq<Availability>, weekdayOf: int -> int, first: int, last: int, n: nat)
    requires WeekdaysAdvance(weekdayOf, first)
    requires DaysLater(first, n) <= last + DAY_MS
    ensures TotalMinutes(Expanded(avail, weekdayOf, first, last)) ==
            Upcoming(avail, weekdayOf(first), n) + TotalMinutes(Expanded(avail, weekdayOf, DaysLater(first, n), last))
    decreases n
  {
    if n > 0 {
      assert first <= last;
      OneDay(avail, weekdayOf, first, last);
      assert weekdayOf(first + DAY_MS) == NextWeekday(weekdayOf(first));
      SomeDays(avail, weekdayOf, first + DAY_MS, last, n - 1);
    }
  }

  /** How many days after `weekday` the weekday `other` comes. */
  function DaysUntil(weekday: int, other: int): int {
    if weekday <= other then other - weekday else other - weekday + 7
  }

  /** An item of weekday d counts once among n <= 7 consecutive days, if d is among them. */
  lemma {:induction false} UpcomingItem(init: seq<Availability>, a: Availability, weekday: int, n: nat)
    requires 0 <= weekday <= 6 && 0 <= a.dayOfWeek <= 6 && n <= 7
    ensures Upcoming(init + [a], weekday, n) ==
            Upcoming(init, weekday, n) + (if DaysUntil(weekday, a.dayOfWeek) < n then a.endMin - a.startMin else 0)
    decreases n
  {
    if n > 0 {
      UpcomingItem(init, a, NextWeekday(weekday), n - 1);
      assert (init + [a])[..|init|] == init;
    }
  }

  lemma {:induction false} UpcomingNothing(weekday: int, n: nat)
    ensures Upcoming([], weekday, n) == 0
    decreases n
  {
    if n > 0 {
      UpcomingNothing(NextWeekday(weekday), n - 1);
    }
  }

  /** Seven days in a row contain every item once, whichever weekday comes first. */
  lemma {:induction false} AnyWeek(avail: seq<Availability>, weekday: int)
    requires WeekdaysValid(avail) && 0 <= weekday <= 6
    ensures Upcoming(avail, weekday, 7) == WeeklyMinutes(avail)
  {
    if avail == [] {
      UpcomingNothing(weekday, 7);
    } else {
      var init, a := avail[..|avail| - 1], avail[|avail| - 1];
      assert avail == init + [a];
      assert forall i :: 0 <= i < |init| ==> init[i] == avail[i];
      AnyWeek(init, weekday);
      UpcomingItem(init, a, weekday, 7);
    }
  }

  /** Any k whole weeks of days yield exactly k times the weekly minutes, whatever weekday they start on. */
  lemma {:induction false} WholeWeeks(avail: seq<Availability>, weekdayOf: int -> int, first: int, k: nat)
    requires WeekdaysValid(avail) && WeekdaysAdvance(weekdayOf, first)
    ensures TotalMinutes(Expanded(avail, weekdayOf, first, first + (7 * k - 1) * DAY_MS)) == k * WeeklyMinutes(avail)
    decreases k
  {
    if k > 0 {
      var last := first + (7 * k - 1) * DAY_MS;
      SomeDays(avail, weekdayOf, first, last, 7);
      AnyWeek(avail, weekdayOf(first));
      WholeWeeks(avail, weekdayOf, first + 7 * DAY_MS, k - 1);
      assert last == first + 7 * DAY_MS + (7 * (k - 1) - 1) * DAY_MS;
      assert k * WeeklyMinutes(avail) == WeeklyMinutes(avail) + (k - 1) * WeeklyMinutes(avail);
    }
  }

  lemma WholeWeeksOfCalendar(avail: seq<Availability>, fromMs: int, k: nat)
    requires WeekdaysValid(avail) && 0 <= fromMs
    ensures TotalMinutes(Expanded(avail, GetDayOfWeek, DayStartUTC(fromMs), DayStartUTC(fromMs) + (7 * k - 1) * DAY_MS))
            == k * WeeklyMinutes(avail)
  {
    CalendarAdvances(DayStartUTC(fromMs));
    WholeWeeks(avail, GetDayOfWeek, DayStartUTC(fromMs), k);
  }

  // ---------------------------------------------------------------- the window store

  function DefaultFullDayAvailability(userId: int): (r: seq<Availability>)
    ensures WeekdaysValid(r) && Disjoint(r) && forall i :: 0 <= i < |r| ==> r[i].userId == userId
  {
    seq(7, day => Availability(userId, day, 8 * 60, 22 * 60))
  }

  /** Every weekday offers the minutes from 8:00 to 22:00, each once, and no others. */
  lemma DefaultCalendarOffers(userId: int, weekday: int, m: int)
    ensures Offered(DefaultFullDayAvailability(userId), weekday, m) == Bit(0 <= weekday <= 6 && 8 * 60 <= m < 22 * 60)
  {
    var avail := DefaultFullDayAvailability(userId);
    for k := 0 to 7
      invariant Offered(avail[..k], weekday, m) == Bit(0 <= weekday < k && 8 * 60 <= m < 22 * 60)
    {
      assert avail[..k + 1][..k] == avail[..k];
    }
    assert avail[..7] == avail;
  }

  /** Rows of one user between two days, both included. */
  function Cached(windows: seq<Window>, userId: int, first: int, last: int): seq<Window> {
    if windows == [] then []
    else
      var w := windows[|windows| - 1];
      Cached(windows[..|windows| - 1], userId, first, last) +
      (if w.userId == userId && first <= w.dateMs <= last then [w] else [])
  }

  /** The user has given availability of his own. */
  ghost predicate Configured(avail: seq<Availability>, userId: int) {
    exists i :: 0 <= i < |avail| && avail[i].userId == userId
  }

  function ByUser(avail: seq<Availability>, userId: int): (r: seq<Availability>)
    ensures forall i :: 0 <= i < |r| ==> r[i].userId == userId
    ensures r != [] <==> Configured(avail, userId)
  {
    if avail == [] then []
    else ByUser(avail[..|avail| - 1], userId)
         + (if avail[|avail| - 1].userId == userId then [avail[|avail| - 1]] else [])
  }

  function ListExceptions(exs: seq<CalendarException>, userId: int, first: int, last: int): seq<CalendarException> {
    if exs == [] then []
    else
      var ex := exs[|exs| - 1];
      ListExceptions(exs[..|exs| - 1], userId, first, last) +
      (if ex.userId == userId && first <= ex.dateMs <= last then [ex] else [])
  }

  lemma {:induction false} CachedConcat(a: seq<Window>, b: seq<Window>, userId: int, first: int, last: int)
    ensures Cached(a + b, userId, first, last) == Cached(a, userId, first, last) + Cached(b, userId, first, last)
  {
    if b == [] {
      assert a + b == a;
    } else {
      assert (a + b)[..|a + b| - 1] == a + b[..|b| - 1];
      CachedConcat(a, b[..|b| - 1], userId, first, last);
    }
  }

  lemma {:induction false} CachedAll(ws: seq<Window>, userId: int, first: int, last: int)
    requires AllOf(ws, userId, first, last)
    ensures Cached(ws, userId, first, last) == ws
  {
    if ws != [] {
      CachedAll(ws[..|ws| - 1], userId, first, last);
    }
  }

  function ExceptionsOf(exs: seq<CalendarException>, userId: int): seq<CalendarException> {
    if exs == [] then []
    else ExceptionsOf(exs[..|exs| - 1], userId) + (if exs[|exs| - 1].userId == userId then [exs[|exs| - 1]] else [])
  }

  lemma MultisetAppend<T>(s: seq<T>, x: T, y: T)
    ensures multiset(s + [x])[y] == multiset(s)[y] + (if x == y then 1 else 0)
  {
  }

  /** What the reads return, row by row: the user's availability, the user's exceptions with dates in the range, and the
      user's windows with dates in the range, each as often as it is stored. */
  lemma {:induction false} AvailabilityRead(avail: seq<Availability>, userId: int, a: Availability)
    ensures multiset(ByUser(avail, userId))[a] == if a.userId == userId then multiset(avail)[a] else 0
  {
    if avail != [] {
      var init, last := avail[..|avail| - 1], avail[|avail| - 1];
      assert avail == init + [last];
      AvailabilityRead(init, userId, a);
      MultisetAppend(init, last, a);
      if last.userId == userId {
        MultisetAppend(ByUser(init, userId), last, a);
      } else {
        assert ByUser(avail, userId) == ByUser(init, userId);
      }
    }
  }

  lemma {:induction false} ExceptionsRead(exs: seq<CalendarException>, userId: int, first: int, last: int,
                                          ex: CalendarException)
    ensures multiset(ListExceptions(exs, userId, first, last))[ex]
            == if ex.userId == userId && first <= ex.dateMs <= last then multiset(exs)[ex] else 0
  {
    if exs != [] {
      var init, e := exs[..|exs| - 1], exs[|exs| - 1];
      assert exs == init + [e];
      ExceptionsRead(init, userId, first, last, ex);
      MultisetAppend(init, e, ex);
      if e.userId == userId && first <= e.dateMs <= last {
        MultisetAppend(ListExceptions(init, userId, first, last), e, ex);
      } else {
        assert ListExceptions(exs, userId, first, last) == ListExceptions(init, userId, first, last);
      }
    }
  }

  lemma {:induction false} UsersExceptions(exs: seq<CalendarException>, userId: int, ex: CalendarException)
    ensures multiset(ExceptionsOf(exs, userId))[ex] == if ex.userId == userId then multiset(exs)[ex] else 0
  {
    if exs != [] {
      var init, e := exs[..|exs| - 1], exs[|exs| - 1];
      assert exs == init + [e];
      UsersExceptions(init, userId, ex);
      MultisetAppend(init, e, ex);
      if e.userId == userId {
        MultisetAppend(ExceptionsOf(init, userId), e, ex);
      } else {
        assert ExceptionsOf(exs, userId) == ExceptionsOf(init, userId);
      }
    }
  }

  lemma {:induction false} WindowsRead(ws: seq<Window>, userId: int, first: int, last: int, w: Window)
    ensures multiset(Cached(ws, userId, first, last))[w]
            == if w.userId == userId && first <= w.dateMs <= last then multiset(ws)[w] else 0
  {
    if ws != [] {
      var init, v := ws[..|ws| - 1], ws[|ws| - 1];
      assert ws == init + [v];
      WindowsRead(init, userId, first, last, w);
      MultisetAppend(init, v, w);
      if v.userId == userId && first <= v.dateMs <= last {
        MultisetAppend(Cached(init, userId, first, last), v, w);
      } else {
        assert Cached(ws, userId, first, last) == Cached(init, userId, first, last);
      }
    }
  }

  ghost predicate DatesAre(exs: seq<CalendarException>, dayOf: int -> int) {
    forall i :: 0 <= i < |exs| ==> dayOf(exs[i].dateMs) == exs[i].dateMs
  }

  /** Reading only the exceptions of the range loses none of a day inside it, because stored dates are day starts. */
  lemma {:induction false} ListedSameDay(exs: seq<CalendarException>, dayOf: int -> int, userId: int, first: int,
                                         last: int, day: int)
    requires DatesAre(exs, dayOf) && first <= day <= last
    ensures OnDay(ListExceptions(exs, userId, first, last), dayOf, day) == OnDay(ExceptionsOf(exs, userId), dayOf, day)
  {
    if exs != [] {
      var init, ex := exs[..|exs| - 1], exs[|exs| - 1];
      assert forall i :: 0 <= i < |init| ==> init[i] == exs[i];
      ListedSameDay(init, dayOf, userId, first, last, day);
      assert dayOf(ex.dateMs) == ex.dateMs;
      if ex.userId != userId {
        assert ListExceptions(exs, userId, first, last) == ListExceptions(init, userId, first, last);
        assert ExceptionsOf(exs, userId) == ExceptionsOf(init, userId);
      } else {
        OnDayAppend(ExceptionsOf(init, userId), ex, dayOf, day);
        if first <= ex.dateMs <= last {
          OnDayAppend(ListExceptions(init, userId, first, last), ex, dayOf, day);
        } else {
          assert ListExceptions(exs, userId, first, last) == ListExceptions(init, userId, first, last);
        }
      }
    }
  }

  lemma OnDayAppend(exs: seq<CalendarException>, ex: CalendarException, dayOf: int -> int, day: int)
    ensures OnDay(exs + [ex], dayOf, day) == OnDay(exs, dayOf, day) + (if dayOf(ex.dateMs) == day then [ex] else [])
  {
    assert (exs + [ex])[..|exs|] == exs;
  }

  /** So the range read gives the same promise and the same orders of the day as all of the user's exceptions. */
  lemma ListedSuffices(exs: seq<CalendarException>, userId: int, avail: seq<Availability>, fromMs: int, toMs: int)
    requires DatesAre(exs, DayStartUTC)
    ensures var listed := ListExceptions(exs, userId, DayStartUTC(fromMs), DayStartUTC(toMs));
            var all, expanded := ExceptionsOf(exs, userId), CalendarWindows(avail, fromMs, toMs);
            && (forall day, m :: Promised(avail, listed, fromMs, toMs, day, m)
                                 == Promised(avail, all, fromMs, toMs, day, m))
            && SameOnDays(expanded, listed, all)
  {
    var first, last := DayStartUTC(fromMs), DayStartUTC(toMs);
    var listed, all := ListExceptions(exs, userId, first, last), ExceptionsOf(exs, userId);
    forall day, m
      ensures Promised(avail, listed, fromMs, toMs, day, m) == Promised(avail, all, fromMs, toMs, day, m)
    {
      if DayInRange(day, first, last) {
        ListedSameDay(exs, DayStartUTC, userId, first, last, day);
        OnDayCovers(listed, DayStartUTC, day, m);
        OnDayCovers(all, DayStartUTC, day, m);
      }
    }
    var ws := CalendarWindows(avail, fromMs, toMs);
    ExpandedDays(avail, GetDayOfWeek, first, last);
    forall k | 0 <= k < |ws|
      ensures OnDay(listed, DayStartUTC, DayStartUTC(ws[k].dateMs))
              == OnDay(all, DayStartUTC, DayStartUTC(ws[k].dateMs))
    {
      RangeDaysAligned(ws[k].dateMs, fromMs, toMs);
      ListedSameDay(exs, DayStartUTC, userId, first, last, ws[k].dateMs);
    }
  }

  lemma OnDayCovers(exs: seq<CalendarException>, dayOf: int -> int, day: int, m: int)
    ensures AnyCovers(OnDay(exs, dayOf, day), m) <==> Excepted(exs, dayOf, day, m)
  {
    var today := OnDay(exs, dayOf, day);
    if AnyCovers(today, m) {
      var i :| 0 <= i < |today| && today[i].Covers(m);
      OnDayMembers(exs, dayOf, day, today[i]);
    }
    if k :| 0 <= k < |exs| && dayOf(exs[k].dateMs) == day && exs[k].Covers(m) {
      OnDayMembers(exs, dayOf, day, exs[k]);
    }
  }

  /** The same exceptions on the days of the windows. */
  ghost predicate SameOnDays(ws: seq<Window>, exs: seq<CalendarException>, exs': seq<CalendarException>) {
    forall k :: 0 <= k < |ws| ==>
      OnDay(exs, DayStartUTC, DayStartUTC(ws[k].dateMs)) == OnDay(exs', DayStartUTC, DayStartUTC(ws[k].dateMs))
  }

  lemma SameOrders(ws: seq<Window>, exs: seq<CalendarException>, exs': seq<CalendarException>,
                   order: int -> seq<CalendarException>)
    requires SameOnDays(ws, exs, exs') && OrdersOf(order, ws, exs, DayStartUTC)
    ensures OrdersOf(order, ws, exs', DayStartUTC)
  {
    forall k | 0 <= k < |ws|
      ensures SortsDay(order, exs', DayStartUTC, DayStartUTC(ws[k].dateMs))
    {
      assert SortsDay(order, exs, DayStartUTC, DayStartUTC(ws[k].dateMs));
    }
  }

  // ---------------------------------------------------------------- answers from stored rows

  ghost predicate HasRow(ws: seq<Window>, userId: int, day: int) {
    exists i :: 0 <= i < |ws| && ws[i].userId == userId && ws[i].dateMs == day
  }

  /** What the calendar says of a day, whatever range is asked for. */
  ghost function PromisedOn(avail: seq<Availability>, exs: seq<CalendarException>, day: int, m: int): nat {
    if Excepted(exs, DayStartUTC, day, m) then 0 else Offered(avail, GetDayOfWeek(day), m)
  }

  /** Each of the user's days that has a row has the calendar's windows. */
  ghost predicate StoredDaysRight(ws: seq<Window>, userId: int, avail: seq<Availability>, exs: seq<CalendarException>) {
    forall day, m :: HasRow(ws, userId, day) ==>
        Coverage(Cached(ws, userId, day, day), day, m) == PromisedOn(avail, exs, day, m)
  }

  ghost predicate DatesStored(ws: seq<Window>) {
    forall i :: 0 <= i < |ws| ==> DayStartUTC(ws[i].dateMs) == ws[i].dateMs
  }

  /** The days of the range that have a row have the calendar's windows. */
  ghost predicate RangeRight(ws: seq<Window>, userId: int, avail: seq<Availability>, exs: seq<CalendarException>,
                             fromMs: int, toMs: int) {
    forall day, m :: DayInRange(day, DayStartUTC(fromMs), DayStartUTC(toMs)) && HasRow(ws, userId, day) ==>
                       Coverage(Cached(ws, userId, day, day), day, m) == PromisedOn(avail, exs, day, m)
  }

  /** Every day of the range without a stored row is a day on which the calendar promises nothing. */
  ghost predicate NothingMissed(ws: seq<Window>, userId: int, avail: seq<Availability>, exs: seq<CalendarException>,
                                fromMs: int, toMs: int) {
    forall day, m :: DayInRange(day, DayStartUTC(fromMs), DayStartUTC(toMs)) && !HasRow(ws, userId, day) ==>
                       PromisedOn(avail, exs, day, m) == 0
  }

  lemma {:induction false} CachedDay(ws: seq<Window>, userId: int, first: int, last: int, day: int, m: int)
    ensures Coverage(Cached(ws, userId, first, last), day, m)
            == if first <= day <= last then Coverage(Cached(ws, userId, day, day), day, m) else 0
  {
    if ws != [] {
      var init, w := ws[..|ws| - 1], ws[|ws| - 1];
      CachedDay(init, userId, first, last, day, m);
      CoverageOfOne(w, day, m);
      CoverageConcat(Cached(init, userId, first, last), [w], day, m);
      CoverageConcat(Cached(init, userId, day, day), [w], day, m);
      assert forall s: seq<Window> :: s + [] == s;
    }
  }

  lemma {:induction false} NoRowNoCoverage(ws: seq<Window>, userId: int, day: int, m: int)
    requires !HasRow(ws, userId, day)
    ensures Coverage(Cached(ws, userId, day, day), day, m) == 0
  {
    if ws != [] {
      var init, w := ws[..|ws| - 1], ws[|ws| - 1];
      assert forall i :: 0 <= i < |init| ==> init[i] == ws[i];
      assert w == ws[|ws| - 1];
      NoRowNoCoverage(init, userId, day, m);
      assert Cached(ws, userId, day, day) == Cached(init, userId, day, day);
    }
  }

  lemma AlignedDayInRange(day: int, fromMs: int, toMs: int)
    requires DayStartUTC(day) == day && DayStartUTC(fromMs) <= day <= DayStartUTC(toMs)
    ensures DayInRange(day, DayStartUTC(fromMs), DayStartUTC(toMs))
  {
  }

  lemma StoredAnswerAt(ws: seq<Window>, userId: int, fromMs: int, toMs: int, day: int, m: int)
    requires DatesStored(ws)
    ensures var first, last := DayStartUTC(fromMs), DayStartUTC(toMs);
            Coverage(Cached(ws, userId, first, last), day, m)
            == if DayInRange(day, first, last) && HasRow(ws, userId, day)
               then Coverage(Cached(ws, userId, day, day), day, m) else 0
  {
    var first, last := DayStartUTC(fromMs), DayStartUTC(toMs);
    CachedDay(ws, userId, first, last, day, m);
    if !HasRow(ws, userId, day) {
      NoRowNoCoverage(ws, userId, day, m);
    } else if first <= day <= last {
      AlignedDayInRange(day, fromMs, toMs);
    }
  }

  /** Stored rows answer any range they touch, and nothing renews them: the answer is the calendar if and only if the
      days that have rows still have the calendar's windows and the days without rows promise nothing. */
  lemma StoredAnswerIff(ws: seq<Window>, userId: int, avail: seq<Availability>, exs: seq<CalendarException>,
                        fromMs: int, toMs: int)
    requires DatesStored(ws)
    ensures IsCalendar(Cached(ws, userId, DayStartUTC(fromMs), DayStartUTC(toMs)), avail, exs, fromMs, toMs)
            <==> RangeRight(ws, userId, avail, exs, fromMs, toMs) && NothingMissed(ws, userId, avail, exs, fromMs, toMs)
  {
    var first, last := DayStartUTC(fromMs), DayStartUTC(toMs);
    var answer := Cached(ws, userId, first, last);
    forall day, m
      ensures Coverage(answer, day, m)
              == if DayInRange(day, first, last) && HasRow(ws, userId, day)
                 then Coverage(Cached(ws, userId, day, day), day, m) else 0
      ensures Promised(avail, exs, fromMs, toMs, day, m)
              == if DayInRange(day, first, last) then PromisedOn(avail, exs, day, m) else 0
    {
      StoredAnswerAt(ws, userId, fromMs, toMs, day, m);
    }
    if IsCalendar(answer, avail, exs, fromMs, toMs) {
      forall day, m | DayInRange(day, first, last)
        ensures Coverage(answer, day, m) == PromisedOn(avail, exs, day, m)
      {
        assert Coverage(answer, day, m) == Promised(avail, exs, fromMs, toMs, day, m);
      }
    } else {
      var day, m :| Coverage(answer, day, m) != Promised(avail, exs, fromMs, toMs, day, m);
      assert DayInRange(day, first, last);
    }
  }

  /** The days of the range on which the calendar has changed are days without a row and now promise nothing. */
  ghost predicate UnchangedWhereStored(ws: seq<Window>, userId: int, avail: seq<Availability>,
                                       exs: seq<CalendarException>, avail': seq<Availability>,
                                       exs': seq<CalendarException>, fromMs: int, toMs: int) {
    forall day, m :: DayInRange(day, DayStartUTC(fromMs), DayStartUTC(toMs)) ==>
      PromisedOn(avail', exs', day, m) == if HasRow(ws, userId, day) then PromisedOn(avail, exs, day, m) else 0
  }

  /** After a change of the calendar, rows stored under the old one answer the new one if and only if the two agree on
      every stored day of the range and the new one promises nothing on the others. */
  lemma ChangedCalendarIff(ws: seq<Window>, userId: int, avail: seq<Availability>, exs: seq<CalendarException>,
                           avail': seq<Availability>, exs': seq<CalendarException>, fromMs: int, toMs: int)
    requires DatesStored(ws) && StoredDaysRight(ws, userId, avail, exs)
    ensures IsCalendar(Cached(ws, userId, DayStartUTC(fromMs), DayStartUTC(toMs)), avail', exs', fromMs, toMs)
            <==> UnchangedWhereStored(ws, userId, avail, exs, avail', exs', fromMs, toMs)
  {
    var first, last := DayStartUTC(fromMs), DayStartUTC(toMs);
    StoredAnswerIff(ws, userId, avail', exs', fromMs, toMs);
    if UnchangedWhereStored(ws, userId, avail, exs, avail', exs', fromMs, toMs) {
      forall day, m | DayInRange(day, first, last)
        ensures HasRow(ws, userId, day) ==>
                  Coverage(Cached(ws, userId, day, day), day, m) == PromisedOn(avail', exs', day, m)
        ensures !HasRow(ws, userId, day) ==> PromisedOn(avail', exs', day, m) == 0
      {
        assert HasRow(ws, userId, day) ==>
            Coverage(Cached(ws, userId, day, day), day, m) == PromisedOn(avail, exs, day, m);
      }
    } else if RangeRight(ws, userId, avail', exs', fromMs, toMs) {
      var day, m :| DayInRange(day, first, last) && PromisedOn(avail', exs', day, m)
                    != if HasRow(ws, userId, day) then PromisedOn(avail, exs, day, m) else 0;
      assert HasRow(ws, userId, day) ==>
          Coverage(Cached(ws, userId, day, day), day, m) == PromisedOn(avail, exs, day, m);
    }
  }

  lemma EpochDays()
    ensures DayStartUTC(0) == 0 && DayStartUTC(DAY_MS) == DAY_MS && DayInRange(DAY_MS, 0, DAY_MS)
    ensures 0 <= GetDayOfWeek(0) <= 6 && 0 <= GetDayOfWeek(DAY_MS) <= 6
  {
  }

  lemma FirstDayStored(userId: int)
    ensures var w := Window(userId, 0, 8 * 60, 22 * 60);
            DatesStored([w]) && StoredDaysRight([w], userId, DefaultFullDayAvailability(userId), [])
  {
    var w := Window(userId, 0, 8 * 60, 22 * 60);
    var ws := [w];
    EpochDays();
    assert ws[..|ws| - 1] == [];
    assert Cached(ws, userId, 0, 0) == ws;
    forall day, m | HasRow(ws, userId, day)
      ensures Coverage(Cached(ws, userId, day, day), day, m)
              == PromisedOn(DefaultFullDayAvailability(userId), [], day, m)
    {
      CoverageOfOne(w, 0, m);
      DefaultCalendarOffers(userId, GetDayOfWeek(0), m);
    }
  }

  /** Windows were generated for one day; asked for that day and the next, the service answers from the stored row and
      misses a minute the calendar promises. */
  lemma StoredRowsMissNextDay(userId: int)
    ensures var ws, avail := [Window(userId, 0, 8 * 60, 22 * 60)], DefaultFullDayAvailability(userId);
            && DatesStored(ws) && StoredDaysRight(ws, userId, avail, [])
            && Cached(ws, userId, 0, DAY_MS) != []
            && Promised(avail, [], 0, DAY_MS, DAY_MS, 8 * 60) == 1
            && Coverage(Cached(ws, userId, 0, DAY_MS), DAY_MS, 8 * 60) == 0
  {
    var w := Window(userId, 0, 8 * 60, 22 * 60);
    var ws := [w];
    EpochDays();
    FirstDayStored(userId);
    assert ws[..|ws| - 1] == [];
    assert Cached(ws, userId, 0, DAY_MS) == ws;
    DefaultCalendarOffers(userId, GetDayOfWeek(DAY_MS), 8 * 60);
    CoverageOfOne(w, DAY_MS, 8 * 60);
  }

  /** The user's hours were 8 to 22 when a day was stored and now start at 9: the service goes on offering minute
      8:00. */
  lemma StaleRowOffered(userId: int)
    ensures var ws, weekday := [Window(userId, 0, 8 * 60, 22 * 60)], GetDayOfWeek(0);
            var avail' := [Availability(userId, weekday, 9 * 60, 22 * 60)];
            && DatesStored(ws) && StoredDaysRight(ws, userId, DefaultFullDayAvailability(userId), [])
            && Coverage(Cached(ws, userId, 0, 0), 0, 8 * 60) == 1
            && Promised(avail', [], 0, 0, 0, 8 * 60) == 0
            && !IsCalendar(Cached(ws, userId, 0, 0), avail', [], 0, 0)
  {
    var w, ws := Window(userId, 0, 8 * 60, 22 * 60), [Window(userId, 0, 8 * 60, 22 * 60)];
    var avail' := [Availability(userId, GetDayOfWeek(0), 9 * 60, 22 * 60)];
    EpochDays();
    FirstDayStored(userId);
    assert ws[..|ws| - 1] == [];
    assert Cached(ws, userId, 0, 0) == ws;
    CoverageOfOne(w, 0, 8 * 60);
    assert avail'[..|avail'| - 1] == [];
    assert Offered(avail', GetDayOfWeek(0), 8 * 60) == 0;
    assert Promised(avail', [], 0, 0, 0, 8 * 60) != Coverage(Cached(ws, userId, 0, 0), 0, 8 * 60);
  }

  lemma {:induction false} RowsOfConcat(a: seq<Window>, b: seq<Window>, userId: int, day: int)
    ensures HasRow(a + b, userId, day) <==> HasRow(a, userId, day) || HasRow(b, userId, day)
  {
    if HasRow(a, userId, day) {
      var i :| 0 <= i < |a| && a[i].userId == userId && a[i].dateMs == day;
      assert (a + b)[i] == a[i];
    }
    if HasRow(b, userId, day) {
      var i :| 0 <= i < |b| && b[i].userId == userId && b[i].dateMs == day;
      assert (a + b)[|a| + i] == b[i];
    }
    if HasRow(a + b, userId, day) {
      var i :| 0 <= i < |a + b| && (a + b)[i].userId == userId && (a + b)[i].dateMs == day;
      assert i < |a| ==> a[i] == (a + b)[i];
      assert i >= |a| ==> b[i - |a|] == (a + b)[i];
    }
  }

  lemma {:induction false} NothingCachedNoRow(ws: seq<Window>, userId: int, first: int, last: int, day: int)
    requires Cached(ws, userId, first, last) == [] && first <= day <= last
    ensures !HasRow(ws, userId, day)
  {
    if ws != [] {
      var init := ws[..|ws| - 1];
      assert forall i :: 0 <= i < |init| ==> init[i] == ws[i];
      NothingCachedNoRow(init, userId, first, last, day);
    }
  }

  /** Storing a right answer for days without rows keeps the stored days right. */
  lemma StoringKeepsDaysRight(ws: seq<Window>, generated: seq<Window>, userId: int, avail: seq<Availability>,
                              exs: seq<CalendarException>, fromMs: int, toMs: int)
    requires StoredDaysRight(ws, userId, avail, exs) && Cached(ws, userId, DayStartUTC(fromMs), DayStartUTC(toMs)) == []
    requires AllOf(generated, userId, DayStartUTC(fromMs), DayStartUTC(toMs)) && DatesStored(generated)
    requires IsCalendar(generated, avail, exs, fromMs, toMs)
    ensures StoredDaysRight(ws + generated, userId, avail, exs)
  {
    var first, last := DayStartUTC(fromMs), DayStartUTC(toMs);
    forall day, m | HasRow(ws + generated, userId, day)
      ensures Coverage(Cached(ws + generated, userId, day, day), day, m) == PromisedOn(avail, exs, day, m)
    {
      RowsOfConcat(ws, generated, userId, day);
      CachedConcat(ws, generated, userId, day, day);
      CoverageConcat(Cached(ws, userId, day, day), Cached(generated, userId, day, day), day, m);
      if HasRow(generated, userId, day) {
        NothingCachedNoRow(ws, userId, first, last, day);
        NoRowNoCoverage(ws, userId, day, m);
        CachedAll(generated, userId, first, last);
        CachedDay(generated, userId, first, last, day, m);
        AlignedDayInRange(day, fromMs, toMs);
      } else {
        NoRowNoCoverage(generated, userId, day, m);
      }
    }
  }

  datatype WindowAnswer = InvalidRange | Answer(windows: seq<Window>, usingDefaults: bool)

  class WindowService {
    var windows: seq<Window>
    var availability: seq<Availability>
    var exceptions: seq<CalendarException>

    /** Dates carry no time of day. */
    ghost predicate Valid()
      reads this
    {
      DatesAre(exceptions, DayStartUTC) && DatesStored(windows)
    }

    /** The calendar that applies to a user, the default one when none is configured. */
    ghost function Calendar(userId: int): seq<Availability>
      reads this
    {
      if ByUser(availability, userId) == [] then DefaultFullDayAvailability(userId) else ByUser(availability, userId)
    }

    /** `order` is the order the sort has given each day's exceptions. */
    method GetOrCreateWindowsWithInfo(userId: int, fromDateMs: int, toDateMs: int)
      returns (r: WindowAnswer, ghost order: int -> seq<CalendarException>)
      requires Valid()
      modifies this`windows
      ensures Valid()
      ensures r == InvalidRange <==> fromDateMs > toDateMs
      ensures r.Answer? ==>
                var stored := Cached(old(windows), userId, DayStartUTC(fromDateMs), DayStartUTC(toDateMs));
                var avail, exs := Calendar(userId), ExceptionsOf(exceptions, userId);
                if stored != [] then
                  && r == Answer(stored, false)
                  && (IsCalendar(r.windows, avail, exs, fromDateMs, toDateMs)
                      <==> RangeRight(old(windows), userId, avail, exs, fromDateMs, toDateMs)
                           && NothingMissed(old(windows), userId, avail, exs, fromDateMs, toDateMs))
                else
                  && Generated(userId, avail, fromDateMs, toDateMs, order, r.windows)
                  && (IsCalendar(r.windows, avail, exs, fromDateMs, toDateMs)
                      && StoredDaysRight(old(windows), userId, avail, exs)
                      ==> StoredDaysRight(windows, userId, avail, exs))
      // generated windows are kept, unless they came from the default calendar; a repeated call returns them as
      // they are
      ensures var stored := Cached(old(windows), userId, DayStartUTC(fromDateMs), DayStartUTC(toDateMs));
              && (r.Answer? ==> (r.usingDefaults <==> stored == [] && !Configured(availability, userId)))
              && windows == if r.Answer? && stored == [] && Configured(availability, userId)
                            then old(windows) + r.windows else old(windows)
      ensures r.Answer? && !r.usingDefaults ==>
                Cached(windows, userId, DayStartUTC(fromDateMs), DayStartUTC(toDateMs)) == r.windows
    {
      order := _ => [];
      if fromDateMs > toDateMs {
        return InvalidRange, order;
      }
      var first, last := DayStartUTC(fromDateMs), DayStartUTC(toDateMs);
      var stored := Cached(windows, userId, first, last);
      if |stored| > 0 {
        StoredAnswerIff(windows, userId, Calendar(userId), ExceptionsOf(exceptions, userId), fromDateMs, toDateMs);
        return Answer(stored, false), order;
      }
      var availCalendar := ByUser(availability, userId);
      var usingDefaults := false;
      if |availCalendar| == 0 {
        availCalendar := DefaultFullDayAvailability(userId);
        usingDefaults := true;
      }
      var generated;
      generated, order := GenerateFor(userId, availCalendar, fromDateMs, toDateMs);
      if |generated| == 0 {
        return Answer([], usingDefaults), order;
      }
      if !usingDefaults {
        Persist(userId, availCalendar, generated, fromDateMs, toDateMs);
      }
      return Answer(generated, usingDefaults), order;
    }

    /** What the pipeline answers for a calendar: the exactly promised minutes, each exactly as often if and only if no
        window is doubled in part in the order of the exceptions, and surely if they are harmless in any order. */
    ghost predicate Generated(userId: int, avail: seq<Availability>, fromDateMs: int, toDateMs: int,
                              order: int -> seq<CalendarException>, generated: seq<Window>)
      reads this
    {
      var exs, expanded := ExceptionsOf(exceptions, userId), CalendarWindows(avail, fromDateMs, toDateMs);
      && OrdersOf(order, expanded, exs, DayStartUTC) && generated == Subtracted(expanded, order, DayStartUTC)
      && (forall day, m ::
            Coverage(generated, day, m) > 0 <==> Promised(avail, exs, fromDateMs, toDateMs, day, m) > 0)
      && (IsCalendar(generated, avail, exs, fromDateMs, toDateMs) <==> NoneDoubled(expanded, order, DayStartUTC))
      && (AllHarmless(expanded, exs, DayStartUTC) ==> IsCalendar(generated, avail, exs, fromDateMs, toDateMs))
    }

    lemma GeneratedFromListed(userId: int, avail: seq<Availability>, fromDateMs: int, toDateMs: int,
                              order: int -> seq<CalendarException>, generated: seq<Window>)
      requires Valid()
      requires var expanded := CalendarWindows(avail, fromDateMs, toDateMs);
               var listed := ListExceptions(exceptions, userId, DayStartUTC(fromDateMs), DayStartUTC(toDateMs));
               OrdersOf(order, expanded, listed, DayStartUTC) && generated == Subtracted(expanded, order, DayStartUTC)
      ensures Generated(userId, avail, fromDateMs, toDateMs, order, generated)
    {
      var exs, expanded := ExceptionsOf(exceptions, userId), CalendarWindows(avail, fromDateMs, toDateMs);
      var listed := ListExceptions(exceptions, userId, DayStartUTC(fromDateMs), DayStartUTC(toDateMs));
      ListedSuffices(exceptions, userId, avail, fromDateMs, toDateMs);
      SameOrders(expanded, listed, exs, order);
      SubtractedOffers(expanded, exs, order, DayStartUTC);
      PipelineAnswer(avail, exs, fromDateMs, toDateMs, generated);
      if AllHarmless(expanded, exs, DayStartUTC) {
        HarmlessDoublesNothing(expanded, exs, order, DayStartUTC);
      }
    }

    method GenerateFor(userId: int, avail: seq<Availability>, fromDateMs: int, toDateMs: int)
      returns (generated: seq<Window>, ghost order: int -> seq<CalendarException>)
      requires Valid() && forall i :: 0 <= i < |avail| ==> avail[i].userId == userId
      ensures Generated(userId, avail, fromDateMs, toDateMs, order, generated)
      ensures AllOf(generated, userId, DayStartUTC(fromDateMs), DayStartUTC(toDateMs)) && DatesStored(generated)
    {
      var listed := ListExceptions(exceptions, userId, DayStartUTC(fromDateMs), DayStartUTC(toDateMs));
      generated, order := GenerateWindows(avail, listed, fromDateMs, toDateMs);
      forall i | 0 <= i < |generated|
        ensures DayStartUTC(generated[i].dateMs) == generated[i].dateMs
      {
        RangeDaysAligned(generated[i].dateMs, fromDateMs, toDateMs);
      }
      GeneratedFromListed(userId, avail, fromDateMs, toDateMs, order, generated);
    }

    /** Keeps the generated windows, so that the same range is answered with them from now on. */
    method Persist(userId: int, ghost avail: seq<Availability>, generated: seq<Window>, fromDateMs: int, toDateMs: int)
      requires Valid() && Cached(windows, userId, DayStartUTC(fromDateMs), DayStartUTC(toDateMs)) == []
      requires AllOf(generated, userId, DayStartUTC(fromDateMs), DayStartUTC(toDateMs)) && DatesStored(generated)
      modifies this`windows
      ensures Valid() && windows == old(windows) + generated
      ensures Cached(windows, userId, DayStartUTC(fromDateMs), DayStartUTC(toDateMs)) == generated
      ensures var exs := ExceptionsOf(exceptions, userId);
              IsCalendar(generated, avail, exs, fromDateMs, toDateMs)
                  && StoredDaysRight(old(windows), userId, avail, exs)
              ==> StoredDaysRight(windows, userId, avail, exs)
    {
      ghost var exs := ExceptionsOf(exceptions, userId);
      if IsCalendar(generated, avail, exs, fromDateMs, toDateMs) && StoredDaysRight(windows, userId, avail, exs) {
        StoringKeepsDaysRight(windows, generated, userId, avail, exs, fromDateMs, toDateMs);
      }
      CachedConcat(windows, generated, userId, DayStartUTC(fromDateMs), DayStartUTC(toDateMs));
      CachedAll(generated, userId, DayStartUTC(fromDateMs), DayStartUTC(toDateMs));
      windows := windows + generated;
    }
  }
}
