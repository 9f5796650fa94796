/** Expansion of weekly availability into dated windows and subtraction of calendar exceptions. */
module ScheduleWindowService {
  import opened TimeUnits
  import opened SetFacts
  import opened WindowCoverage

  /** Every row belongs to the user and to a day between the two, both included. */
  ghost predicate AllOf(ws: seq<Window>, userId: int, first: int, last: int) {
    forall i :: 0 <= i < |ws| ==> ws[i].userId == userId && first <= ws[i].dateMs <= last
  }

  // ---------------------------------------------------------------- expansion

  function OfDay(avail: seq<Availability>, weekday: int): seq<Availability> {
    if avail == [] then []
    else OfDay(avail[..|avail| - 1], weekday) +
         (if avail[|avail| - 1].dayOfWeek == weekday then [avail[|avail| - 1]] else [])
  }

  function DatedWindow(a: Availability, day: int): Window {
    Window(a.userId, day, a.startMin, a.endMin)
  }

  function DayWindows(avail: seq<Availability>, day: int): (ws: seq<Window>)
    ensures |ws| == |avail| && forall i :: 0 <= i < |ws| ==> ws[i] == DatedWindow(avail[i], day)
  {
    seq(|avail|, i requires 0 <= i < |avail| => DatedWindow(avail[i], day))
  }

  /** The windows of the days first, first + 1 day, ..., up to last, in that order. */
  function Expanded(avail: seq<Availability>, weekdayOf: int -> int, first: int, last: int): seq<Window>
    decreases last - first
  {
    if last < first then []
    else DayWindows(OfDay(avail, weekdayOf(first)), first) + Expanded(avail, weekdayOf, first + DAY_MS, last)
  }

  /** A map read with the empty list for an absent key. */
  function ListAt<T>(lists: map<int, seq<T>>, key: int): seq<T> {
    if key in lists then lists[key] else []
  }

  method GroupByDayOfWeek(avail: seq<Availability>) returns (byDayOfWeek: map<int, seq<Availability>>)
    ensures forall d :: ListAt(byDayOfWeek, d) == OfDay(avail, d)
  {
    byDayOfWeek := map[];
    for k := 0 to |avail|
      invariant forall d :: ListAt(byDayOfWeek, d) == OfDay(avail[..k], d)
    {
      assert avail[..k + 1][..k] == avail[..k];
      byDayOfWeek := byDayOfWeek[avail[k].dayOfWeek := ListAt(byDayOfWeek, avail[k].dayOfWeek) + [avail[k]]];
    }
    assert avail[..|avail|] == avail;
  }

  method AppendDay(before: seq<Window>, availList: seq<Availability>, day: int) returns (windows: seq<Window>)
    ensures windows == before + DayWindows(availList, day)
    ensures forall later :: windows + later == before + (DayWindows(availList, day) + later)
  {
    windows := before;
    for i := 0 to |availList|
      invariant windows == before + DayWindows(availList, day)[..i]
    {
      windows := windows + [DatedWindow(availList[i], day)];
    }
    forall later
      ensures windows + later == before + (DayWindows(availList, day) + later)
    {
      Associative(before, DayWindows(availList, day), later);
    }
  }

  /** The loop over the days, for any assignment of weekdays to dates. */
  method ExpandDays(avail: seq<Availability>, weekdayOf: int -> int, firstMs: int, endDateMs: int)
    returns (windows: seq<Window>)
    ensures windows == Expanded(avail, weekdayOf, firstMs, endDateMs)
  {
    var byDayOfWeek := GroupByDayOfWeek(avail);
    windows := [];
    var currentDateMs := firstMs;
    while currentDateMs <= endDateMs
      invariant windows + Expanded(avail, weekdayOf, currentDateMs, endDateMs)
                == Expanded(avail, weekdayOf, firstMs, endDateMs)
      decreases endDateMs - currentDateMs
    {
      windows := AppendDay(windows, ListAt(byDayOfWeek, weekdayOf(currentDateMs)), currentDateMs);
      currentDateMs := currentDateMs + DAY_MS;
    }
  }

  method ExpandAvailabilityToWindows(avail: seq<Availability>, fromDateMs: int, toDateMs: int)
    returns (windows: seq<Window>)
    ensures windows == Expanded(avail, GetDayOfWeek, DayStartUTC(fromDateMs), DayStartUTC(toDateMs))
  {
    windows := ExpandDays(avail, GetDayOfWeek, DayStartUTC(fromDateMs), DayStartUTC(toDateMs));
  }

  lemma Associative<T>(a: seq<T>, b: seq<T>, c: seq<T>)
    ensures a + (b + c) == a + b + c
  {
  }

  // ---------------------------------------------------------------- subtraction from one window

  ghost predicate SortedByStart(exs: seq<CalendarException>) {
    forall i, j :: 0 <= i < j < |exs| ==> exs[i].startMin <= exs[j].startMin
  }

  ghost predicate NonEmpty(exs: seq<CalendarException>) {
    forall i :: 0 <= i < |exs| ==> exs[i].startMin < exs[i].endMin
  }

  ghost predicate AnyCovers(exs: seq<CalendarException>, m: int) {
    exists i :: 0 <= i < |exs| && exs[i].Covers(m)
  }

  /** The pieces of the window from `start` on. */
  function Cut(win: Window, start: int, exs: seq<CalendarException>): seq<Window>
    decreases |exs|
  {
    if exs == [] then
      if start < win.endMin then [win.(startMin := start)] else []
    else if exs[0].endMin <= start || exs[0].startMin >= win.endMin then
      Cut(win, start, exs[1..])
    else
      (if exs[0].startMin > start then [win.(startMin := start, endMin := Min(exs[0].startMin, win.endMin))]
       else []) +
      (if exs[0].endMin < win.endMin then Cut(win, exs[0].endMin, exs[1..]) else [])
  }

  ghost predicate PiecesOf(win: Window, start: int, ws: seq<Window>) {
    forall i :: 0 <= i < |ws| ==>
      && ws[i].userId == win.userId && ws[i].dateMs == win.dateMs
      && start <= ws[i].startMin && ws[i].endMin <= win.endMin
  }

  lemma AnyCoversCons(exs: seq<CalendarException>, m: int)
    requires exs != []
    ensures AnyCovers(exs, m) <==> exs[0].Covers(m) || AnyCovers(exs[1..], m)
  {
  }

  lemma PrependPiece(w: Window, ws: seq<Window>, m: int)
    ensures InPieces([w] + ws, m) <==> w.startMin <= m < w.endMin || InPieces(ws, m)
  {
    var more := [w] + ws;
    if InPieces(ws, m) {
      var i :| 0 <= i < |ws| && ws[i].startMin <= m < ws[i].endMin;
      assert more[i + 1].startMin <= m < more[i + 1].endMin;
    }
    if w.startMin <= m < w.endMin {
      assert more[0].startMin <= m < more[0].endMin;
    }
  }

  lemma NothingBefore(exs: seq<CalendarException>, m: int)
    requires SortedByStart(exs) && exs != [] && m < exs[0].startMin
    ensures !AnyCovers(exs, m)
  {
  }

  /** Which minutes the pieces cover: those of the window, from `start` on, that no exception covers. This holds for all
      exceptions, also for one that ends before it starts and so covers nothing. */
  lemma {:induction false} CutCovers(win: Window, start: int, exs: seq<CalendarException>, m: int)
    requires SortedByStart(exs)
    ensures InPieces(Cut(win, start, exs), m) <==> start <= m < win.endMin && !AnyCovers(exs, m)
    decreases |exs|
  {
    if exs == [] {
      PrependPiece(win.(startMin := start), [], m);
      assert [win.(startMin := start)] + [] == [win.(startMin := start)];
    } else {
      var ex, rest := exs[0], exs[1..];
      AnyCoversCons(exs, m);
      if ex.endMin <= start || ex.startMin >= win.endMin {
        CutCovers(win, start, rest, m);
      } else {
        var tail := if ex.endMin < win.endMin then Cut(win, ex.endMin, rest) else [];
        if ex.endMin < win.endMin {
          CutCovers(win, ex.endMin, rest, m);
        }
        if m < ex.startMin {
          NothingBefore(exs, m);
        }
        PrependPiece(win.(startMin := start, endMin := Min(ex.startMin, win.endMin)), tail, m);
        assert [] + tail == tail;
      }
    }
  }

  ghost predicate Lasting(ws: seq<Window>) {
    forall i :: 0 <= i < |ws| ==> ws[i].startMin < ws[i].endMin
  }

  lemma {:induction false} CutPieces(win: Window, start: int, exs: seq<CalendarException>)
    ensures PiecesOf(win, start, Cut(win, start, exs)) && Lasting(Cut(win, start, exs))
    decreases |exs|
  {
    if exs != [] {
      if exs[0].endMin <= start || exs[0].startMin >= win.endMin {
        CutPieces(win, start, exs[1..]);
      } else if exs[0].endMin < win.endMin {
        CutPieces(win, exs[0].endMin, exs[1..]);
      }
    }
  }

  lemma PrependCanonical(w: Window, win: Window, tail: seq<Window>, from: int)
    requires Canonical(tail) && PiecesOf(win, from, tail) && w.startMin < w.endMin < from
    requires w.userId == win.userId && w.dateMs == win.dateMs
    ensures Canonical([w] + tail)
  {
  }

  lemma {:induction false} CutCanonical(win: Window, start: int, exs: seq<CalendarException>)
    requires SortedByStart(exs) && NonEmpty(exs)
    ensures Canonical(Cut(win, start, exs))
    decreases |exs|
  {
    if exs != [] {
      var ex, rest := exs[0], exs[1..];
      if ex.endMin <= start || ex.startMin >= win.endMin {
        CutCanonical(win, start, rest);
      } else {
        var tail := if ex.endMin < win.endMin then Cut(win, ex.endMin, rest) else [];
        if ex.endMin < win.endMin {
          CutCanonical(win, ex.endMin, rest);
          CutPieces(win, ex.endMin, rest);
        }
        if ex.startMin > start {
          PrependCanonical(win.(startMin := start, endMin := ex.startMin), win, tail, ex.endMin);
        } else {
          assert [] + tail == tail;
        }
      }
    }
  }

  // ---------------------------------------------------------------- how often a minute is offered

  /** Minutes offered at all are counted, and only they. */
  lemma {:induction false} CountedIffInPieces(ws: seq<Window>, day: int, m: int)
    requires forall i :: 0 <= i < |ws| ==> ws[i].dateMs == day
    ensures Coverage(ws, day, m) > 0 <==> InPieces(ws, m)
  {
    if ws != [] {
      var init, w := ws[..|ws| - 1], ws[|ws| - 1];
      assert ws == init + [w];
      assert forall i :: 0 <= i < |init| ==> init[i] == ws[i];
      CountedIffInPieces(init, day, m);
      AppendPiece(init, w, m);
    }
  }

  predicate Inverted(ex: CalendarException) { ex.endMin < ex.startMin }

  /** An exception that ends before it starts does no harm outside the window, or when one listed before it ends no
      earlier. */
  ghost predicate Harmless(win: Window, start: int, exs: seq<CalendarException>) {
    forall k :: 0 <= k < |exs| && Inverted(exs[k]) ==>
      exs[k].endMin <= start || exs[k].startMin >= win.endMin || ReachedBefore(exs, k, exs[k].endMin)
  }

  ghost predicate ReachedBefore(exs: seq<CalendarException>, k: nat, end: int)
    requires k <= |exs|
  {
    exists j :: 0 <= j < k && exs[j].endMin >= end
  }

  ghost predicate OncePerMinute(ws: seq<Window>, day: int) {
    forall m :: Coverage(ws, day, m) <= 1
  }

  lemma HarmlessSkip(win: Window, start: int, exs: seq<CalendarException>)
    requires exs != [] && SortedByStart(exs) && (exs[0].endMin <= start || exs[0].startMin >= win.endMin)
    ensures Harmless(win, start, exs) <==> Harmless(win, start, exs[1..])
  {
    var rest := exs[1..];
    forall k | 0 <= k < |rest|
      ensures exs[k + 1] == rest[k]
      ensures ReachedBefore(exs, k + 1, rest[k].endMin) <==>
              exs[0].endMin >= rest[k].endMin || ReachedBefore(rest, k, rest[k].endMin)
    {
      ReachedShift(exs, k, rest[k].endMin);
    }
  }

  lemma ReachedShift(exs: seq<CalendarException>, k: nat, end: int)
    requires k < |exs|
    ensures ReachedBefore(exs, k + 1, end) <==> exs[0].endMin >= end || ReachedBefore(exs[1..], k, end)
  {
    if ReachedBefore(exs[1..], k, end) {
      var j :| 0 <= j < k && exs[1..][j].endMin >= end;
      assert exs[j + 1].endMin >= end;
    }
    if ReachedBefore(exs, k + 1, end) && exs[0].endMin < end {
      var j :| 0 <= j < k + 1 && exs[j].endMin >= end;
      assert exs[1..][j - 1].endMin >= end;
    }
  }

  /** At an exception that reaches into the open part, the cut goes on from its end. */
  lemma HarmlessStep(win: Window, start: int, exs: seq<CalendarException>)
    requires exs != [] && SortedByStart(exs) && exs[0].endMin > start && exs[0].startMin < win.endMin
    ensures Harmless(win, start, exs) <==>
            !Inverted(exs[0]) && (exs[0].endMin < win.endMin ==> Harmless(win, exs[0].endMin, exs[1..]))
  {
    var rest := exs[1..];
    forall k | 0 <= k < |rest|
      ensures exs[k + 1] == rest[k]
      ensures ReachedBefore(exs, k + 1, rest[k].endMin) <==>
              exs[0].endMin >= rest[k].endMin || ReachedBefore(rest, k, rest[k].endMin)
    {
      ReachedShift(exs, k, rest[k].endMin);
    }
    assert !ReachedBefore(exs, 0, exs[0].endMin);
  }

  /** No minute is offered twice if and only if every exception that ends before it starts is harmless. */
  lemma {:induction false} OnceIffHarmless(win: Window, start: int, exs: seq<CalendarException>)
    requires SortedByStart(exs)
    ensures OncePerMinute(Cut(win, start, exs), win.dateMs) <==> Harmless(win, start, exs)
    decreases |exs|
  {
    var day, pieces := win.dateMs, Cut(win, start, exs);
    if exs == [] {
      forall m
        ensures Coverage(pieces, day, m) <= 1
      {
        CutCovers(win, start, exs, m);
        assert pieces == [] || pieces[..|pieces| - 1] == [];
      }
    } else {
      var ex, rest := exs[0], exs[1..];
      if ex.endMin <= start || ex.startMin >= win.endMin {
        HarmlessSkip(win, start, exs);
        OnceIffHarmless(win, start, rest);
      } else {
        HarmlessStep(win, start, exs);
        if ex.endMin < win.endMin {
          OnceIffHarmless(win, ex.endMin, rest);
        }
        OnceAtStep(win, start, exs);
      }
    }
  }

  lemma OnceAtStep(win: Window, start: int, exs: seq<CalendarException>)
    requires exs != [] && SortedByStart(exs) && exs[0].endMin > start && exs[0].startMin < win.endMin
    ensures var tail := if exs[0].endMin < win.endMin then Cut(win, exs[0].endMin, exs[1..]) else [];
            OncePerMinute(Cut(win, start, exs), win.dateMs) <==> !Inverted(exs[0]) && OncePerMinute(tail, win.dateMs)
  {
    var day, ex, rest := win.dateMs, exs[0], exs[1..];
    var tail := if ex.endMin < win.endMin then Cut(win, ex.endMin, rest) else [];
    var head := if ex.startMin > start then [win.(startMin := start, endMin := Min(ex.startMin, win.endMin))]
        else [];
    var pieces := Cut(win, start, exs);
    assert pieces == head + tail;
    CutPieces(win, ex.endMin, rest);
    forall m
      ensures Coverage(pieces, day, m) == Bit(start <= m < ex.startMin) + Coverage(tail, day, m)
      ensures Coverage(tail, day, m) > 0 ==> ex.endMin <= m
    {
      CoverageConcat(head, tail, day, m);
      assert head == [] || head[..|head| - 1] == [];
      CountedIffInPieces(tail, day, m);
    }
    if Inverted(ex) {
      var m := ex.endMin;
      CutCovers(win, ex.endMin, rest, m);
      if AnyCovers(rest, m) {
        NothingBefore(exs, m);
        AnyCoversCons(exs, m);
      }
      CountedIffInPieces(tail, day, m);
      assert Coverage(pieces, day, m) >= 2;
    } else if OncePerMinute(pieces, day) {
      forall m
        ensures Coverage(tail, day, m) <= 1
      {
        assert Coverage(pieces, day, m) <= 1;
      }
    }
  }

  /** Sorting by start leaves the order of equal starts open. */
  ghost predicate IsSortOf(sorted: seq<CalendarException>, exs: seq<CalendarException>) {
    SortedByStart(sorted) && multiset(sorted) == multiset(exs)
  }

  /** Reached by an exception that starts earlier. */
  ghost predicate ReachedEarlier(exs: seq<CalendarException>, ex: CalendarException) {
    exists e :: e in exs && e.startMin < ex.startMin && e.endMin >= ex.endMin
  }

  ghost predicate HarmlessInAnyOrder(win: Window, exs: seq<CalendarException>) {
    forall ex :: ex in exs && Inverted(ex) ==>
      ex.endMin <= win.startMin || ex.startMin >= win.endMin || ReachedEarlier(exs, ex)
  }

  lemma AnyOrderSuffices(win: Window, exs: seq<CalendarException>, sorted: seq<CalendarException>)
    requires HarmlessInAnyOrder(win, exs) && IsSortOf(sorted, exs)
    ensures Harmless(win, win.startMin, sorted)
  {
    forall k | 0 <= k < |sorted| && Inverted(sorted[k])
      ensures sorted[k].endMin <= win.startMin || sorted[k].startMin >= win.endMin
              || ReachedBefore(sorted, k, sorted[k].endMin)
    {
      var ex := sorted[k];
      assert ex in multiset(sorted);
      if ReachedEarlier(exs, ex) {
        var e :| e in exs && e.startMin < ex.startMin && e.endMin >= ex.endMin;
        assert e in multiset(sorted);
        var j :| 0 <= j < |sorted| && sorted[j] == e;
        assert j < k;
      }
    }
  }

  /** An order that puts a given exception first among those of its start. */
  lemma FirstOfItsStart(exs: seq<CalendarException>, i: nat) returns (sorted: seq<CalendarException>, k: nat)
    requires i < |exs|
    ensures IsSortOf(sorted, exs) && k < |sorted| && sorted[k] == exs[i]
    ensures forall j :: 0 <= j < k ==> sorted[j].startMin < exs[i].startMin
  {
    WithoutOne(exs, i);
    sorted, k := PlacedFirst(exs[i], exs, SortByStart(exs[..i] + exs[i + 1..]));
  }

  lemma PlacedFirst(ex: CalendarException, exs: seq<CalendarException>, others: seq<CalendarException>)
    returns (sorted: seq<CalendarException>, k: nat)
    requires SortedByStart(others) && multiset(exs) == multiset(others) + multiset{ex}
    ensures IsSortOf(sorted, exs) && k < |sorted| && sorted[k] == ex
    ensures forall j :: 0 <= j < k ==> sorted[j].startMin < ex.startMin
  {
    k := Place(ex.startMin, others);
    sorted := InsertByStart(ex, others);
  }

  lemma WithoutOne(exs: seq<CalendarException>, i: nat)
    requires i < |exs|
    ensures multiset(exs) == multiset(exs[..i] + exs[i + 1..]) + multiset{exs[i]}
  {
    assert exs == exs[..i] + [exs[i]] + exs[i + 1..];
  }

  /** In every order the sort may produce, no minute is offered twice, if and only if each exception that ends before it
      starts lies outside the window or an earlier-starting one ends no earlier. */
  lemma AnyOrderOnceIff(win: Window, exs: seq<CalendarException>)
    ensures (forall sorted :: IsSortOf(sorted, exs) ==> OncePerMinute(Cut(win, win.startMin, sorted), win.dateMs))
            <==> HarmlessInAnyOrder(win, exs)
  {
    if HarmlessInAnyOrder(win, exs) {
      forall sorted | IsSortOf(sorted, exs)
        ensures OncePerMinute(Cut(win, win.startMin, sorted), win.dateMs)
      {
        AnyOrderSuffices(win, exs, sorted);
        OnceIffHarmless(win, win.startMin, sorted);
      }
    } else {
      var ex :| ex in exs && Inverted(ex) && ex.endMin > win.startMin && ex.startMin < win.endMin
          && !ReachedEarlier(exs, ex);
      var i :| 0 <= i < |exs| && exs[i] == ex;
      var sorted, k := FirstOfItsStart(exs, i);
      forall j | 0 <= j < k
        ensures sorted[j].endMin < ex.endMin
      {
        assert sorted[j] in multiset(sorted);
      }
      assert !ReachedBefore(sorted, k, sorted[k].endMin);
      OnceIffHarmless(win, win.startMin, sorted);
      assert !OncePerMinute(Cut(win, win.startMin, sorted), win.dateMs);
    }
  }

  /** The loop over the exceptions. */
  method CutLoop(win: Window, exceptions: seq<CalendarException>) returns (result: seq<Window>)
    ensures result == Cut(win, win.startMin, exceptions)
  {
    result := [];
    var currentStart := win.startMin;
    var currentEnd := win.endMin;
    ghost var all := Cut(win, win.startMin, exceptions);
    var k := 0;
    while k < |exceptions|
      invariant k <= |exceptions|
      invariant result + Cut(win, currentStart, exceptions[k..]) == all
    {
      var ex := exceptions[k];
      ghost var before, open := result, Cut(win, currentStart, exceptions[k..]);
      assert exceptions[k..][1..] == exceptions[k + 1..];
      k := k + 1;
      if ex.endMin <= currentStart || ex.startMin >= currentEnd {
        continue;
      }
      ghost var tail := if ex.endMin < currentEnd then Cut(win, ex.endMin, exceptions[k..]) else [];
      if ex.startMin > currentStart {
        ghost var piece := win.(startMin := currentStart, endMin := Min(ex.startMin, currentEnd));
        assert open == [piece] + tail;
        Associative(before, [piece], tail);
        result := result + [win.(startMin := currentStart, endMin := Min(ex.startMin, currentEnd))];
      } else {
        assert open == tail;
      }
      assert result + tail == all;
      if ex.endMin < currentEnd {
        currentStart := ex.endMin;
      } else {
        currentStart := currentEnd;
        assert result == all;
        break;
      }
    }
    if currentStart < currentEnd {
      result := result + [win.(startMin := currentStart, endMin := currentEnd)];
    }
    assert result == all;
  }

  /** Window minus the union of the exceptions; they may overlap, stick out, be empty, or end before they start. */
  method SubtractIntervalsFromWindow(win: Window, exceptions: seq<CalendarException>) returns (result: seq<Window>)
    requires SortedByStart(exceptions)
    ensures result == Cut(win, win.startMin, exceptions)
    ensures PiecesOf(win, win.startMin, result) && Lasting(result)
    ensures forall m :: InPieces(result, m) <==> win.startMin <= m < win.endMin && !AnyCovers(exceptions, m)
    ensures OncePerMinute(result, win.dateMs) <==> Harmless(win, win.startMin, exceptions)
    ensures NonEmpty(exceptions) ==> Canonical(result)
  {
    result := CutLoop(win, exceptions);
    CutPieces(win, win.startMin, exceptions);
    OnceIffHarmless(win, win.startMin, exceptions);
    forall m
      ensures InPieces(result, m) <==> win.startMin <= m < win.endMin && !AnyCovers(exceptions, m)
    {
      CutCovers(win, win.startMin, exceptions, m);
    }
    if NonEmpty(exceptions) {
      CutCanonical(win, win.startMin, exceptions);
    }
  }

  /** The minutes offered do not depend on the order or the shape of the exceptions, only on the minutes they cover;
      where none is offered twice the counts agree, and for non-empty exceptions the very pieces. */
  lemma OrderIrrelevant(win: Window, exs: seq<CalendarException>, exs': seq<CalendarException>, m: int)
    requires SortedByStart(exs) && SortedByStart(exs') && forall k :: AnyCovers(exs, k) <==> AnyCovers(exs', k)
    ensures var a, b := Cut(win, win.startMin, exs), Cut(win, win.startMin, exs');
            && (InPieces(a, m) <==> InPieces(b, m))
            && (Harmless(win, win.startMin, exs) && Harmless(win, win.startMin, exs') ==>
                  Coverage(a, win.dateMs, m) == Coverage(b, win.dateMs, m))
            && (NonEmpty(exs) && NonEmpty(exs') ==> a == b)
  {
    var a, b := Cut(win, win.startMin, exs), Cut(win, win.startMin, exs');
    forall k
      ensures InPieces(a, k) <==> InPieces(b, k)
    {
      CutCovers(win, win.startMin, exs, k);
      CutCovers(win, win.startMin, exs', k);
    }
    CutPieces(win, win.startMin, exs);
    CutPieces(win, win.startMin, exs');
    CountedIffInPieces(a, win.dateMs, m);
    CountedIffInPieces(b, win.dateMs, m);
    OnceIffHarmless(win, win.startMin, exs);
    OnceIffHarmless(win, win.startMin, exs');
    if NonEmpty(exs) && NonEmpty(exs') {
      CutCanonical(win, win.startMin, exs);
      CutCanonical(win, win.startMin, exs');
      CanonicalUnique(a, b, win.userId, win.dateMs);
    }
  }

  /** Minutes are conserved, the pieces lasting as long as the minutes of the window that no exception covers, if and
      only if no minute is offered twice. */
  lemma MinutesConservedIff(win: Window, exs: seq<CalendarException>)
    requires SortedByStart(exs) && win.startMin <= win.endMin
    ensures TotalMinutes(Cut(win, win.startMin, exs)) == UncoveredMinutes(exs, win.startMin, win.endMin)
            <==> Harmless(win, win.startMin, exs)
  {
    var pieces := Cut(win, win.startMin, exs);
    CutPieces(win, win.startMin, exs);
    TotalIsCoverageSum(pieces, win.dateMs, win.startMin, win.endMin);
    PiecesCoverUncovered(win, exs, win.endMin);
    OnceIffHarmless(win, win.startMin, exs);
    forall m | m < win.startMin || m >= win.endMin
      ensures Coverage(pieces, win.dateMs, m) == 0
    {
      CutCovers(win, win.startMin, exs, m);
      CountedIffInPieces(pieces, win.dateMs, m);
    }
    assert OnceUpTo(pieces, win, win.endMin) <==> OncePerMinute(pieces, win.dateMs);
  }

  ghost function UncoveredMinutes(exs: seq<CalendarException>, lo: int, hi: int): nat
    decreases hi - lo
  {
    if hi <= lo then 0 else UncoveredMinutes(exs, lo, hi - 1) + Bit(!AnyCovers(exs, hi - 1))
  }

  ghost predicate OnceUpTo(ws: seq<Window>, win: Window, hi: int) {
    forall m :: win.startMin <= m < hi ==> Coverage(ws, win.dateMs, m) <= 1
  }

  lemma PiecesCoverMinute(win: Window, exs: seq<CalendarException>, m: int)
    requires SortedByStart(exs) && win.startMin <= m < win.endMin
    ensures var n := Coverage(Cut(win, win.startMin, exs), win.dateMs, m);
            n >= Bit(!AnyCovers(exs, m)) && (n == Bit(!AnyCovers(exs, m)) <==> n <= 1)
  {
    CutPieces(win, win.startMin, exs);
    CutCovers(win, win.startMin, exs, m);
    CountedIffInPieces(Cut(win, win.startMin, exs), win.dateMs, m);
  }

  lemma OnceUpToStep(ws: seq<Window>, win: Window, hi: int)
    requires win.startMin < hi
    ensures OnceUpTo(ws, win, hi) <==> OnceUpTo(ws, win, hi - 1) && Coverage(ws, win.dateMs, hi - 1) <= 1
  {
  }

  lemma {:induction false} PiecesCoverUncovered(win: Window, exs: seq<CalendarException>, hi: int)
    requires SortedByStart(exs) && hi <= win.endMin
    ensures var pieces := Cut(win, win.startMin, exs);
            && CoverageSum(pieces, win.dateMs, win.startMin, hi) >= UncoveredMinutes(exs, win.startMin, hi)
            && (CoverageSum(pieces, win.dateMs, win.startMin, hi) == UncoveredMinutes(exs, win.startMin, hi)
                <==> OnceUpTo(pieces, win, hi))
    decreases hi - win.startMin
  {
    if win.startMin < hi {
      PiecesCoverUncovered(win, exs, hi - 1);
      PiecesCoverMinute(win, exs, hi - 1);
      OnceUpToStep(Cut(win, win.startMin, exs), win, hi);
    }
  }

  // ---------------------------------------------------------------- subtraction from all windows

  function Place(start: int, exs: seq<CalendarException>): (p: nat)
    requires SortedByStart(exs)
    ensures p <= |exs|
    ensures forall i :: 0 <= i < p ==> exs[i].startMin < start
    ensures forall i :: p <= i < |exs| ==> start <= exs[i].startMin
  {
    if exs == [] || start <= exs[0].startMin then 0 else 1 + Place(start, exs[1..])
  }

  function InsertByStart(ex: CalendarException, exs: seq<CalendarException>): (r: seq<CalendarException>)
    requires SortedByStart(exs)
    ensures SortedByStart(r) && multiset(r) == multiset(exs) + multiset{ex}
  {
    var p := Place(ex.startMin, exs);
    assert exs == exs[..p] + exs[p..];
    exs[..p] + [ex] + exs[p..]
  }

  /** One of the orders by start. */
  function SortByStart(exs: seq<CalendarException>): (r: seq<CalendarException>)
    ensures SortedByStart(r) && multiset(r) == multiset(exs)
  {
    if exs == [] then []
    else
      assert exs == [exs[0]] + exs[1..];
      InsertByStart(exs[0], SortByStart(exs[1..]))
  }

  function OnDay(exs: seq<CalendarException>, dayOf: int -> int, day: int): seq<CalendarException> {
    if exs == [] then []
    else OnDay(exs[..|exs| - 1], dayOf, day) + (if dayOf(exs[|exs| - 1].dateMs) == day then [exs[|exs| - 1]] else [])
  }

  lemma {:induction false} OnDayMembers(exs: seq<CalendarException>, dayOf: int -> int, day: int, ex: CalendarException)
    ensures ex in OnDay(exs, dayOf, day) <==> ex in exs && dayOf(ex.dateMs) == day
  {
    if exs != [] {
      OnDayMembers(exs[..|exs| - 1], dayOf, day, ex);
      assert exs == exs[..|exs| - 1] + [exs[|exs| - 1]];
    }
  }

  /** The order of a day's exceptions is one the sort may have produced. */
  ghost predicate SortsDay(order: int -> seq<CalendarException>, exs: seq<CalendarException>, dayOf: int -> int,
                           day: int) {
    IsSortOf(order(day), OnDay(exs, dayOf, day))
  }

  ghost predicate OrdersOf(order: int -> seq<CalendarException>, windows: seq<Window>, exs: seq<CalendarException>,
                           dayOf: int -> int) {
    forall k :: 0 <= k < |windows| ==> SortsDay(order, exs, dayOf, dayOf(windows[k].dateMs))
  }

  lemma SortedDayCovers(order: int -> seq<CalendarException>, exs: seq<CalendarException>, dayOf: int -> int, day: int,
                        m: int)
    requires SortsDay(order, exs, dayOf, day)
    ensures AnyCovers(order(day), m) <==> Excepted(exs, dayOf, day, m)
  {
    var sorted := order(day);
    if AnyCovers(sorted, m) {
      var i :| 0 <= i < |sorted| && sorted[i].Covers(m);
      assert sorted[i] in multiset(sorted);
      OnDayMembers(exs, dayOf, day, sorted[i]);
      var k :| 0 <= k < |exs| && exs[k] == sorted[i];
      assert dayOf(exs[k].dateMs) == day && exs[k].Covers(m);
    }
    if Excepted(exs, dayOf, day, m) {
      var k :| 0 <= k < |exs| && dayOf(exs[k].dateMs) == day && exs[k].Covers(m);
      OnDayMembers(exs, dayOf, day, exs[k]);
      assert exs[k] in multiset(sorted);
      var i :| 0 <= i < |sorted| && sorted[i] == exs[k];
      assert sorted[i].Covers(m);
    }
  }

  ghost predicate NoEmptyList(lists: map<int, seq<CalendarException>>) {
    forall d :: d in lists ==> lists[d] != []
  }

  method GroupByDate(exs: seq<CalendarException>, dayOf: int -> int) returns (byDate: map<int, seq<CalendarException>>)
    ensures NoEmptyList(byDate) && forall d :: ListAt(byDate, d) == OnDay(exs, dayOf, d)
  {
    byDate := map[];
    for k := 0 to |exs|
      invariant NoEmptyList(byDate)
      invariant forall d :: ListAt(byDate, d) == OnDay(exs[..k], dayOf, d)
    {
      var d := dayOf(exs[k].dateMs);
      assert exs[..k + 1][..k] == exs[..k];
      byDate := byDate[d := ListAt(byDate, d) + [exs[k]]];
    }
    assert exs[..|exs|] == exs;
  }

  /** Which of the orders by start comes out is left open. */
  method SortLists(grouped: map<int, seq<CalendarException>>) returns (byDate: map<int, seq<CalendarException>>)
    requires NoEmptyList(grouped)
    ensures NoEmptyList(byDate) && forall d :: IsSortOf(ListAt(byDate, d), ListAt(grouped, d))
  {
    byDate := grouped;
    var keys := grouped.Keys;
    while keys != {}
      invariant keys <= byDate.Keys == grouped.Keys && NoEmptyList(byDate)
      invariant forall d :: if d in keys then ListAt(byDate, d) == ListAt(grouped, d)
                            else IsSortOf(ListAt(byDate, d), ListAt(grouped, d))
      decreases keys
    {
      var d := Pick(keys);
      byDate := byDate[d := SortByStart(byDate[d])];
      keys := keys - {d};
    }
  }

  lemma {:induction false} OtherDayUncovered(ws: seq<Window>, home: int, day: int, m: int)
    requires day != home && forall i :: 0 <= i < |ws| ==> ws[i].dateMs == home
    ensures Coverage(ws, day, m) == 0
  {
    if ws != [] {
      OtherDayUncovered(ws[..|ws| - 1], home, day, m);
    }
  }

  /** `left` offers at least what `windows` offers, except for the minutes under an exception of their day, which it
      does not offer. */
  ghost predicate Offers(windows: seq<Window>, exs: seq<CalendarException>, dayOf: int -> int, left: seq<Window>) {
    forall day, m :: OffersAt(windows, exs, dayOf, left, day, m)
  }

  ghost predicate OffersAt(windows: seq<Window>, exs: seq<CalendarException>, dayOf: int -> int, left: seq<Window>,
                           day: int, m: int) {
    && Coverage(left, day, m) >= Wanted(windows, exs, dayOf, day, m)
    && (Wanted(windows, exs, dayOf, day, m) == 0 ==> Coverage(left, day, m) == 0)
  }

  ghost function Wanted(windows: seq<Window>, exs: seq<CalendarException>, dayOf: int -> int, day: int, m: int): nat {
    if Excepted(exs, dayOf, dayOf(day), m) then 0 else Coverage(windows, day, m)
  }

  /** ... and offers each exactly as often. */
  ghost predicate LeftOver(windows: seq<Window>, exs: seq<CalendarException>, dayOf: int -> int, left: seq<Window>) {
    forall day, m :: Coverage(left, day, m) == Wanted(windows, exs, dayOf, day, m)
  }

  /** What is left of a window under the exceptions of its day. */
  function PiecesLeft(win: Window, exs: seq<CalendarException>): seq<Window> {
    if exs == [] then [win] else Cut(win, win.startMin, exs)
  }

  /** What is left of all windows, when the exceptions of a day come in the given order. */
  ghost function Subtracted(windows: seq<Window>, order: int -> seq<CalendarException>, dayOf: int -> int): seq<Window>
  {
    if windows == [] then []
    else
      var win := windows[|windows| - 1];
      Subtracted(windows[..|windows| - 1], order, dayOf) + PiecesLeft(win, order(dayOf(win.dateMs)))
  }

  /** No window is doubled in part by an exception of its day that ends before it starts. */
  ghost predicate NoneDoubled(windows: seq<Window>, order: int -> seq<CalendarException>, dayOf: int -> int) {
    forall k :: 0 <= k < |windows| ==> NotDoubled(windows[k], order, dayOf)
  }

  ghost predicate NotDoubled(win: Window, order: int -> seq<CalendarException>, dayOf: int -> int) {
    Harmless(win, win.startMin, order(dayOf(win.dateMs)))
  }

  /** ... whatever the order. */
  ghost predicate AllHarmless(windows: seq<Window>, exs: seq<CalendarException>, dayOf: int -> int) {
    forall k :: 0 <= k < |windows| ==> HarmlessOn(windows[k], exs, dayOf)
  }

  ghost predicate HarmlessOn(win: Window, exs: seq<CalendarException>, dayOf: int -> int) {
    HarmlessInAnyOrder(win, OnDay(exs, dayOf, dayOf(win.dateMs)))
  }

  lemma HarmlessDoublesNothing(windows: seq<Window>, exs: seq<CalendarException>, order: int -> seq<CalendarException>,
                               dayOf: int -> int)
    requires OrdersOf(order, windows, exs, dayOf) && AllHarmless(windows, exs, dayOf)
    ensures NoneDoubled(windows, order, dayOf)
  {
    forall k | 0 <= k < |windows|
      ensures NotDoubled(windows[k], order, dayOf)
    {
      assert HarmlessOn(windows[k], exs, dayOf);
      assert SortsDay(order, exs, dayOf, dayOf(windows[k].dateMs));
      AnyOrderSuffices(windows[k], OnDay(exs, dayOf, dayOf(windows[k].dateMs)), order(dayOf(windows[k].dateMs)));
    }
  }

  /** Exceptions that last are never the cause. */
  lemma NonEmptyDoublesNothing(windows: seq<Window>, exs: seq<CalendarException>, dayOf: int -> int)
    requires NonEmpty(exs)
    ensures AllHarmless(windows, exs, dayOf)
  {
    forall k | 0 <= k < |windows|
      ensures HarmlessOn(windows[k], exs, dayOf)
    {
      var day := dayOf(windows[k].dateMs);
      forall ex | ex in OnDay(exs, dayOf, day)
        ensures !Inverted(ex)
      {
        OnDayMembers(exs, dayOf, day, ex);
      }
    }
  }

  lemma CoverageOfOne(win: Window, day: int, m: int)
    ensures Coverage([win], day, m) == Bit(win.Covers(day, m))
  {
    var one := [win];
    assert one[..|one| - 1] == [];
  }

  /** One window against the exceptions of its day. */
  lemma PieceOffers(win: Window, exs: seq<CalendarException>, dayOf: int -> int, sorted: seq<CalendarException>,
                    day: int, m: int)
    requires SortedByStart(sorted) && (AnyCovers(sorted, m) <==> Excepted(exs, dayOf, dayOf(win.dateMs), m))
    ensures var pieces := Cut(win, win.startMin, sorted);
            && Wanted([win], exs, dayOf, day, m) <= 1
            && (Coverage(pieces, day, m) > 0 <==> Wanted([win], exs, dayOf, day, m) == 1)
            && (day != win.dateMs ==> Coverage(pieces, day, m) == 0)
  {
    var pieces := Cut(win, win.startMin, sorted);
    CoverageOfOne(win, day, m);
    CutPieces(win, win.startMin, sorted);
    if day == win.dateMs {
      CutCovers(win, win.startMin, sorted, m);
      CountedIffInPieces(pieces, day, m);
    } else {
      OtherDayUncovered(pieces, win.dateMs, day, m);
    }
  }

  lemma PiecesCoverage(win: Window, exs: seq<CalendarException>, dayOf: int -> int, sorted: seq<CalendarException>)
    requires SortedByStart(sorted) && forall m :: AnyCovers(sorted, m) <==> Excepted(exs, dayOf, dayOf(win.dateMs), m)
    ensures var pieces := Cut(win, win.startMin, sorted);
            && Offers([win], exs, dayOf, pieces)
            && (LeftOver([win], exs, dayOf, pieces) <==> OncePerMinute(pieces, win.dateMs))
  {
    var pieces := Cut(win, win.startMin, sorted);
    forall day, m
      ensures OffersAt([win], exs, dayOf, pieces, day, m)
      ensures Coverage(pieces, day, m) == Wanted([win], exs, dayOf, day, m)
              <==> day != win.dateMs || Coverage(pieces, day, m) <= 1
    {
      PieceOffers(win, exs, dayOf, sorted, day, m);
    }
    if LeftOver([win], exs, dayOf, pieces) {
      forall m
        ensures Coverage(pieces, win.dateMs, m) <= 1
      {
        assert Coverage(pieces, win.dateMs, m) == Wanted([win], exs, dayOf, win.dateMs, m);
      }
    }
  }

  lemma NoExceptionCoverage(win: Window, exs: seq<CalendarException>, dayOf: int -> int)
    requires forall m :: !Excepted(exs, dayOf, dayOf(win.dateMs), m)
    ensures Offers([win], exs, dayOf, [win]) && LeftOver([win], exs, dayOf, [win])
  {
    forall day, m
      ensures Coverage([win], day, m) == Wanted([win], exs, dayOf, day, m)
    {
      if day != win.dateMs {
        OtherDayUncovered([win], win.dateMs, day, m);
      }
    }
    assert forall day, m :: OffersAt([win], exs, dayOf, [win], day, m);
  }

  /** One window, under the order of its day. */
  lemma PiecesLeftOffer(win: Window, exs: seq<CalendarException>, order: int -> seq<CalendarException>,
                        dayOf: int -> int)
    requires SortsDay(order, exs, dayOf, dayOf(win.dateMs))
    ensures var pieces := PiecesLeft(win, order(dayOf(win.dateMs)));
            && Offers([win], exs, dayOf, pieces)
            && (LeftOver([win], exs, dayOf, pieces) <==> NotDoubled(win, order, dayOf))
            && forall i :: 0 <= i < |pieces| ==> pieces[i].userId == win.userId && pieces[i].dateMs == win.dateMs
  {
    var sorted := order(dayOf(win.dateMs));
    forall m
      ensures AnyCovers(sorted, m) <==> Excepted(exs, dayOf, dayOf(win.dateMs), m)
    {
      SortedDayCovers(order, exs, dayOf, dayOf(win.dateMs), m);
    }
    if sorted == [] {
      NoExceptionCoverage(win, exs, dayOf);
    } else {
      PiecesCoverage(win, exs, dayOf, sorted);
      OnceIffHarmless(win, win.startMin, sorted);
      CutPieces(win, win.startMin, sorted);
    }
  }

  ghost predicate RowsFrom(windows: seq<Window>, rows: seq<Window>) {
    forall i :: 0 <= i < |rows| ==> IsRowOf(windows, rows[i].userId, rows[i].dateMs)
  }

  ghost predicate IsRowOf(windows: seq<Window>, userId: int, day: int) {
    exists j :: 0 <= j < |windows| && windows[j].userId == userId && windows[j].dateMs == day
  }

  lemma RowsFromAllOf(windows: seq<Window>, rows: seq<Window>, userId: int, first: int, last: int)
    requires RowsFrom(windows, rows) && AllOf(windows, userId, first, last)
    ensures AllOf(rows, userId, first, last)
  {
    forall i | 0 <= i < |rows|
      ensures rows[i].userId == userId && first <= rows[i].dateMs <= last
    {
      assert IsRowOf(windows, rows[i].userId, rows[i].dateMs);
    }
  }

  /** What each part offers adds up, and the whole is exact if and only if both parts are. */
  lemma OffersAddUp(a: seq<Window>, b: seq<Window>, exs: seq<CalendarException>, dayOf: int -> int,
                    left: seq<Window>, more: seq<Window>)
    requires Offers(a, exs, dayOf, left) && Offers(b, exs, dayOf, more)
    ensures Offers(a + b, exs, dayOf, left + more)
    ensures LeftOver(a + b, exs, dayOf, left + more) <==> LeftOver(a, exs, dayOf, left) && LeftOver(b, exs, dayOf, more)
  {
    forall day, m
      ensures OffersAt(a, exs, dayOf, left, day, m) && OffersAt(b, exs, dayOf, more, day, m)
      ensures Coverage(left + more, day, m) == Coverage(left, day, m) + Coverage(more, day, m)
      ensures Wanted(a + b, exs, dayOf, day, m) == Wanted(a, exs, dayOf, day, m) + Wanted(b, exs, dayOf, day, m)
    {
      CoverageConcat(left, more, day, m);
      CoverageConcat(a, b, day, m);
    }
    assert forall day, m :: OffersAt(a + b, exs, dayOf, left + more, day, m);
    if LeftOver(a + b, exs, dayOf, left + more) {
      forall day, m
        ensures Coverage(left, day, m) == Wanted(a, exs, dayOf, day, m)
        ensures Coverage(more, day, m) == Wanted(b, exs, dayOf, day, m)
      {
        assert Coverage(left + more, day, m) == Wanted(a + b, exs, dayOf, day, m);
      }
    }
  }

  lemma OrdersOfParts(order: int -> seq<CalendarException>, windows: seq<Window>, n: nat, exs: seq<CalendarException>,
                      dayOf: int -> int)
    requires n < |windows| && OrdersOf(order, windows, exs, dayOf)
    ensures OrdersOf(order, windows[..n], exs, dayOf) && SortsDay(order, exs, dayOf, dayOf(windows[n].dateMs))
  {
  }

  lemma NoneDoubledStep(windows: seq<Window>, n: nat, order: int -> seq<CalendarException>, dayOf: int -> int)
    requires |windows| == n + 1
    ensures NoneDoubled(windows, order, dayOf) <==>
            NoneDoubled(windows[..n], order, dayOf) && NotDoubled(windows[n], order, dayOf)
  {
    assert forall k :: 0 <= k < n ==> windows[..n][k] == windows[k];
  }

  /** In any order of the exceptions, what is left offers exactly the minutes it should, and each exactly as often if
      and only if no window is doubled in part in that order. */
  lemma {:induction false} SubtractedOffers(windows: seq<Window>, exs: seq<CalendarException>,
                                            order: int -> seq<CalendarException>, dayOf: int -> int)
    requires OrdersOf(order, windows, exs, dayOf)
    ensures Offers(windows, exs, dayOf, Subtracted(windows, order, dayOf))
    ensures LeftOver(windows, exs, dayOf, Subtracted(windows, order, dayOf)) <==> NoneDoubled(windows, order, dayOf)
  {
    if windows == [] {
      assert forall day, m :: OffersAt([], exs, dayOf, [], day, m);
    } else {
      var n := |windows| - 1;
      var init, win := windows[..n], windows[n];
      assert windows == init + [win];
      OrdersOfParts(order, windows, n, exs, dayOf);
      SubtractedOffers(init, exs, order, dayOf);
      PiecesLeftOffer(win, exs, order, dayOf);
      OffersAddUp(init, [win], exs, dayOf, Subtracted(init, order, dayOf), PiecesLeft(win, order(dayOf(win.dateMs))));
      NoneDoubledStep(windows, n, order, dayOf);
    }
  }

  lemma PiecesLeftRows(win: Window, exs: seq<CalendarException>)
    ensures forall i :: 0 <= i < |PiecesLeft(win, exs)| ==>
              PiecesLeft(win, exs)[i].userId == win.userId && PiecesLeft(win, exs)[i].dateMs == win.dateMs
  {
    CutPieces(win, win.startMin, exs);
  }

  lemma {:induction false} SubtractedRows(windows: seq<Window>, order: int -> seq<CalendarException>, dayOf: int -> int)
    ensures RowsFrom(windows, Subtracted(windows, order, dayOf))
  {
    if windows != [] {
      var n := |windows| - 1;
      var init, win := windows[..n], windows[n];
      SubtractedRows(init, order, dayOf);
      PiecesLeftRows(win, order(dayOf(win.dateMs)));
      var rows := Subtracted(windows, order, dayOf);
      forall i | 0 <= i < |rows|
        ensures IsRowOf(windows, rows[i].userId, rows[i].dateMs)
      {
        if i < |Subtracted(init, order, dayOf)| {
          assert IsRowOf(init, rows[i].userId, rows[i].dateMs);
        } else {
          assert windows[n].userId == rows[i].userId && windows[n].dateMs == rows[i].dateMs;
        }
      }
    }
  }

  /** In every order the sort may produce the windows are offered exactly, minus their exceptions, if and only if each
      exception that ends before it starts lies outside the windows of its day or an earlier-starting one ends no
      earlier. */
  lemma EveryOrderExactIff(windows: seq<Window>, exs: seq<CalendarException>, dayOf: int -> int)
    ensures (forall order :: OrdersOf(order, windows, exs, dayOf) ==>
               LeftOver(windows, exs, dayOf, Subtracted(windows, order, dayOf)))
            <==> AllHarmless(windows, exs, dayOf)
  {
    if AllHarmless(windows, exs, dayOf) {
      forall order | OrdersOf(order, windows, exs, dayOf)
        ensures LeftOver(windows, exs, dayOf, Subtracted(windows, order, dayOf))
      {
        HarmlessDoublesNothing(windows, exs, order, dayOf);
        SubtractedOffers(windows, exs, order, dayOf);
      }
    } else {
      var k :| 0 <= k < |windows| && !HarmlessOn(windows[k], exs, dayOf);
      var order := WorstOrder(windows, k, exs, dayOf);
      SubtractedOffers(windows, exs, order, dayOf);
      assert !NotDoubled(windows[k], order, dayOf);
    }
  }

  /** An order in which window k is doubled in part. */
  lemma WorstOrder(windows: seq<Window>, k: nat, exs: seq<CalendarException>, dayOf: int -> int)
    returns (order: int -> seq<CalendarException>)
    requires k < |windows| && !HarmlessOn(windows[k], exs, dayOf)
    ensures OrdersOf(order, windows, exs, dayOf) && !NotDoubled(windows[k], order, dayOf)
  {
    var win, day := windows[k], dayOf(windows[k].dateMs);
    AnyOrderOnceIff(win, OnDay(exs, dayOf, day));
    var sorted :| IsSortOf(sorted, OnDay(exs, dayOf, day))
        && !OncePerMinute(Cut(win, win.startMin, sorted), win.dateMs);
    order := (d: int) => if d == day then sorted else SortByStart(OnDay(exs, dayOf, d));
    OnceIffHarmless(win, win.startMin, sorted);
  }

  /** Each day's exceptions, in the given order. */
  ghost predicate Grouped(byDate: map<int, seq<CalendarException>>, order: int -> seq<CalendarException>) {
    NoEmptyList(byDate) && forall d :: ListAt(byDate, d) == order(d) && SortedByStart(order(d))
  }

  method GroupAndSort(exs: seq<CalendarException>, dayOf: int -> int)
    returns (byDate: map<int, seq<CalendarException>>, ghost order: int -> seq<CalendarException>)
    ensures Grouped(byDate, order) && forall d :: SortsDay(order, exs, dayOf, d)
  {
    var grouped := GroupByDate(exs, dayOf);
    byDate := SortLists(grouped);
    order := d => ListAt(byDate, d);
  }

  /** What is left of one window. */
  method SubtractDay(win: Window, dayOf: int -> int, exceptionsByDate: map<int, seq<CalendarException>>,
                     ghost order: int -> seq<CalendarException>) returns (remaining: seq<Window>)
    requires Grouped(exceptionsByDate, order)
    ensures remaining == PiecesLeft(win, order(dayOf(win.dateMs)))
  {
    var dateKey := dayOf(win.dateMs);
    assert ListAt(exceptionsByDate, dateKey) == order(dateKey);
    if dateKey !in exceptionsByDate {
      return [win];
    }
    remaining := SubtractIntervalsFromWindow(win, exceptionsByDate[dateKey]);
  }

  method SubtractAll(windows: seq<Window>, dayOf: int -> int, exceptionsByDate: map<int, seq<CalendarException>>,
                     ghost order: int -> seq<CalendarException>) returns (result: seq<Window>)
    requires Grouped(exceptionsByDate, order)
    ensures result == Subtracted(windows, order, dayOf)
  {
    result := [];
    for k := 0 to |windows|
      invariant result == Subtracted(windows[..k], order, dayOf)
    {
      var remaining := SubtractDay(windows[k], dayOf, exceptionsByDate, order);
      assert windows[..k + 1][..k] == windows[..k];
      result := result + remaining;
    }
    assert windows[..|windows|] == windows;
  }

  method SubtractOnDays(windows: seq<Window>, exceptions: seq<CalendarException>, dayOf: int -> int)
    returns (result: seq<Window>, ghost order: int -> seq<CalendarException>)
    ensures OrdersOf(order, windows, exceptions, dayOf) && result == Subtracted(windows, order, dayOf)
  {
    if |exceptions| == 0 {
      order := d => [];
      NoExceptions(windows, order, dayOf);
      return windows, order;
    }
    var exceptionsByDate;
    exceptionsByDate, order := GroupAndSort(exceptions, dayOf);
    result := SubtractAll(windows, dayOf, exceptionsByDate, order);
  }

  lemma {:induction false} NoExceptions(windows: seq<Window>, order: int -> seq<CalendarException>, dayOf: int -> int)
    requires forall d :: order(d) == []
    ensures Subtracted(windows, order, dayOf) == windows
  {
    if windows != [] {
      NoExceptions(windows[..|windows| - 1], order, dayOf);
    }
  }

  /** The windows without the exceptions of their days, in the order that the sort happens to give. */
  method SubtractExceptions(windows: seq<Window>, exceptions: seq<CalendarException>)
    returns (result: seq<Window>, ghost order: int -> seq<CalendarException>)
    ensures OrdersOf(order, windows, exceptions, DayStartUTC) && result == Subtracted(windows, order, DayStartUTC)
    ensures Offers(windows, exceptions, DayStartUTC, result)
    ensures LeftOver(windows, exceptions, DayStartUTC, result) <==> NoneDoubled(windows, order, DayStartUTC)
    ensures AllHarmless(windows, exceptions, DayStartUTC) ==> LeftOver(windows, exceptions, DayStartUTC, result)
    ensures RowsFrom(windows, result)
  {
    result, order := SubtractOnDays(windows, exceptions, DayStartUTC);
    SubtractedOffers(windows, exceptions, order, DayStartUTC);
    SubtractedRows(windows, order, DayStartUTC);
    if AllHarmless(windows, exceptions, DayStartUTC) {
      HarmlessDoublesNothing(windows, exceptions, order, DayStartUTC);
    }
  }

  // ---------------------------------------------------------------- what expansion covers

  lemma {:induction false} DayCoverage(avail: seq<Availability>, weekday: int, day: int, d: int, m: int)
    ensures Coverage(DayWindows(OfDay(avail, weekday), day), d, m) == if d == day then Offered(avail, weekday, m) else 0
  {
    var today := DayWindows(OfDay(avail, weekday), day);
    if avail != [] {
      var init, a := avail[..|avail| - 1], avail[|avail| - 1];
      DayCoverage(init, weekday, day, d, m);
      if a.dayOfWeek == weekday {
        assert today == DayWindows(OfDay(init, weekday), day) + [DatedWindow(a, day)];
        CoverageConcat(DayWindows(OfDay(init, weekday), day), [DatedWindow(a, day)], d, m);
        assert [DatedWindow(a, day)][..0] == [];
      } else {
        assert today == DayWindows(OfDay(init, weekday), day);
      }
    }
  }

  lemma {:induction false} ExpandedCoverage(avail: seq<Availability>, weekdayOf: int -> int, first: int, last: int,
                                            d: int, m: int)
    ensures Coverage(Expanded(avail, weekdayOf, first, last), d, m)
            == if DayInRange(d, first, last) then Offered(avail, weekdayOf(d), m) else 0
    decreases last - first
  {
    if first <= last {
      ExpandedCoverage(avail, weekdayOf, first + DAY_MS, last, d, m);
      CoverageConcat(DayWindows(OfDay(avail, weekdayOf(first)), first),
                     Expanded(avail, weekdayOf, first + DAY_MS, last), d, m);
      DayCoverage(avail, weekdayOf(first), first, d, m);
      NextDays(d, first, last);
    }
  }

  lemma NextDays(d: int, first: int, last: int)
    requires first <= last
    ensures DayInRange(d, first, last) <==> d == first || DayInRange(d, first + DAY_MS, last)
  {
  }

  /** Days that the loop visits are the starts of their own days. */
  lemma RangeDaysAligned(d: int, fromMs: int, toMs: int)
    requires DayInRange(d, DayStartUTC(fromMs), DayStartUTC(toMs))
    ensures DayStartUTC(d) == d
  {
    assert d % DAY_MS == 0;
  }

  lemma {:induction false} ExpandedRows(avail: seq<Availability>, weekdayOf: int -> int, userId: int, first: int,
                                        last: int)
    requires forall i :: 0 <= i < |avail| ==> avail[i].userId == userId
    ensures AllOf(Expanded(avail, weekdayOf, first, last), userId, first, last)
    decreases last - first
  {
    if first <= last {
      ExpandedRows(avail, weekdayOf, userId, first + DAY_MS, last);
      OfDayMembers(avail, weekdayOf(first));
    }
  }

  lemma {:induction false} ExpandedDays(avail: seq<Availability>, weekdayOf: int -> int, first: int, last: int)
    ensures forall k :: 0 <= k < |Expanded(avail, weekdayOf, first, last)| ==>
              DayInRange(Expanded(avail, weekdayOf, first, last)[k].dateMs, first, last)
    decreases last - first
  {
    if first <= last {
      ExpandedDays(avail, weekdayOf, first + DAY_MS, last);
      forall d {
        NextDays(d, first, last);
      }
    }
  }

  lemma {:induction false} OfDayMembers(avail: seq<Availability>, weekday: int)
    ensures forall i :: 0 <= i < |OfDay(avail, weekday)| ==> OfDay(avail, weekday)[i] in avail
  {
    if avail != [] {
      OfDayMembers(avail[..|avail| - 1], weekday);
    }
  }

  /** What expansion yields, and the calendar's promise, are the same thing minute by minute. */
  lemma ExpandedIsPromised(avail: seq<Availability>, exs: seq<CalendarException>, fromMs: int, toMs: int, day: int,
                           m: int)
    ensures Wanted(Expanded(avail, GetDayOfWeek, DayStartUTC(fromMs), DayStartUTC(toMs)), exs, DayStartUTC, day, m)
            == Promised(avail, exs, fromMs, toMs, day, m)
  {
    ExpandedCoverage(avail, GetDayOfWeek, DayStartUTC(fromMs), DayStartUTC(toMs), day, m);
    if DayInRange(day, DayStartUTC(fromMs), DayStartUTC(toMs)) {
      RangeDaysAligned(day, fromMs, toMs);
    }
  }

  /** The windows of a calendar and a range before exceptions are cut out. */
  ghost function CalendarWindows(avail: seq<Availability>, fromMs: int, toMs: int): seq<Window> {
    Expanded(avail, GetDayOfWeek, DayStartUTC(fromMs), DayStartUTC(toMs))
  }

  /** The answer is the calendar, minute by minute. */
  ghost predicate IsCalendar(answer: seq<Window>, avail: seq<Availability>, exs: seq<CalendarException>, fromMs: int,
                             toMs: int) {
    forall day, m :: Coverage(answer, day, m) == Promised(avail, exs, fromMs, toMs, day, m)
  }

  /** The pipeline offers exactly the minutes the calendar promises, whatever the exceptions; it offers each exactly as
      often if and only if no window is doubled in part, and surely if the exceptions are harmless in any order. */
  method GenerateWindows(avail: seq<Availability>, exceptions: seq<CalendarException>, fromDateMs: int, toDateMs: int)
    returns (windows: seq<Window>, ghost order: int -> seq<CalendarException>)
    ensures OrdersOf(order, CalendarWindows(avail, fromDateMs, toDateMs), exceptions, DayStartUTC)
    ensures windows == Subtracted(CalendarWindows(avail, fromDateMs, toDateMs), order, DayStartUTC)
    ensures forall day, m ::
              Coverage(windows, day, m) > 0 <==> Promised(avail, exceptions, fromDateMs, toDateMs, day, m) > 0
    ensures IsCalendar(windows, avail, exceptions, fromDateMs, toDateMs)
            <==> NoneDoubled(CalendarWindows(avail, fromDateMs, toDateMs), order, DayStartUTC)
    ensures AllHarmless(CalendarWindows(avail, fromDateMs, toDateMs), exceptions, DayStartUTC) ==>
              IsCalendar(windows, avail, exceptions, fromDateMs, toDateMs)
    ensures forall userId :: (forall i :: 0 <= i < |avail| ==> avail[i].userId == userId) ==>
              AllOf(windows, userId, DayStartUTC(fromDateMs), DayStartUTC(toDateMs))
    ensures forall i :: 0 <= i < |windows| ==>
              DayInRange(windows[i].dateMs, DayStartUTC(fromDateMs), DayStartUTC(toDateMs))
  {
    var expanded := ExpandAvailabilityToWindows(avail, fromDateMs, toDateMs);
    windows, order := SubtractExceptions(expanded, exceptions);
    forall userId | forall i :: 0 <= i < |avail| ==> avail[i].userId == userId
      ensures AllOf(windows, userId, DayStartUTC(fromDateMs), DayStartUTC(toDateMs))
    {
      ExpandedRows(avail, GetDayOfWeek, userId, DayStartUTC(fromDateMs), DayStartUTC(toDateMs));
      RowsFromAllOf(expanded, windows, userId, DayStartUTC(fromDateMs), DayStartUTC(toDateMs));
    }
    ExpandedDays(avail, GetDayOfWeek, DayStartUTC(fromDateMs), DayStartUTC(toDateMs));
    forall i | 0 <= i < |windows|
      ensures DayInRange(windows[i].dateMs, DayStartUTC(fromDateMs), DayStartUTC(toDateMs))
    {
      assert IsRowOf(expanded, windows[i].userId, windows[i].dateMs);
    }
    PipelineAnswer(avail, exceptions, fromDateMs, toDateMs, windows);
  }

  /** In every order the sort may produce the pipeline's answer is the calendar, if and only if each exception that ends
      before it starts is harmless. */
  lemma EveryOrderCalendarIff(avail: seq<Availability>, exs: seq<CalendarException>, fromMs: int, toMs: int)
    ensures var expanded := CalendarWindows(avail, fromMs, toMs);
            (forall order :: OrdersOf(order, expanded, exs, DayStartUTC) ==>
               IsCalendar(Subtracted(expanded, order, DayStartUTC), avail, exs, fromMs, toMs))
            <==> AllHarmless(expanded, exs, DayStartUTC)
  {
    var expanded := CalendarWindows(avail, fromMs, toMs);
    EveryOrderExactIff(expanded, exs, DayStartUTC);
    forall order | OrdersOf(order, expanded, exs, DayStartUTC)
      ensures LeftOver(expanded, exs, DayStartUTC, Subtracted(expanded, order, DayStartUTC))
              <==> IsCalendar(Subtracted(expanded, order, DayStartUTC), avail, exs, fromMs, toMs)
    {
      SubtractedOffers(expanded, exs, order, DayStartUTC);
      PipelineAnswer(avail, exs, fromMs, toMs, Subtracted(expanded, order, DayStartUTC));
    }
  }

  lemma PipelineAnswer(avail: seq<Availability>, exs: seq<CalendarException>, fromMs: int, toMs: int,
                       windows: seq<Window>)
    requires Offers(CalendarWindows(avail, fromMs, toMs), exs, DayStartUTC, windows)
    ensures forall day, m :: Coverage(windows, day, m) > 0 <==> Promised(avail, exs, fromMs, toMs, day, m) > 0
    ensures LeftOver(CalendarWindows(avail, fromMs, toMs), exs, DayStartUTC, windows)
            <==> IsCalendar(windows, avail, exs, fromMs, toMs)
  {
    var expanded := CalendarWindows(avail, fromMs, toMs);
    forall day, m
      ensures Wanted(expanded, exs, DayStartUTC, day, m) == Promised(avail, exs, fromMs, toMs, day, m)
      ensures OffersAt(expanded, exs, DayStartUTC, windows, day, m)
    {
      ExpandedIsPromised(avail, exs, fromMs, toMs, day, m);
    }
    if IsCalendar(windows, avail, exs, fromMs, toMs) {
      forall day, m
        ensures Coverage(windows, day, m) == Wanted(expanded, exs, DayStartUTC, day, m)
      {
      }
    }
  }
}
