/** Calendar rows and windows, and what they say minute by minute: the specification side of window generation. */
module WindowCoverage {
  import opened TimeUnits

  /** Integer division as the source's language computes it: toward zero. */
  function TruncDiv(a: int, b: int): int
    requires b > 0
  {
    if a >= 0 then a / b else -(-a / b)
  }

  /** The matching remainder, which takes the sign of the dividend. */
  function TruncMod(a: int, b: int): int
    requires b > 0
  {
    if a >= 0 then a % b else -(-a % b)
  }

  function DayStartUTC(ms: int): int {
    TruncDiv(ms, DAY_MS) * DAY_MS
  }

  /** 0 is Sunday; the epoch day was a Thursday. */
  function GetDayOfWeek(dateMs: int): int {
    TruncMod(TruncDiv(dateMs, DAY_MS) + 4, 7)
  }

  datatype Availability = Availability(userId: int, dayOfWeek: int, startMin: int, endMin: int)

  datatype CalendarException = CalendarException(userId: int, dateMs: int, startMin: int, endMin: int) {
    predicate Covers(m: int) { startMin <= m < endMin }
  }

  datatype Window = Window(userId: int, dateMs: int, startMin: int, endMin: int) {
    predicate Covers(day: int, m: int) { dateMs == day && startMin <= m < endMin }
  }

  /** How many windows offer minute m of the given day. */
  ghost function Coverage(ws: seq<Window>, day: int, m: int): nat {
    if ws == [] then 0 else Coverage(ws[..|ws| - 1], day, m) + Bit(ws[|ws| - 1].Covers(day, m))
  }

  /** How many availability items offer minute m of a weekday. */
  ghost function Offered(avail: seq<Availability>, weekday: int, m: int): nat {
    if avail == [] then 0
    else
      var a := avail[|avail| - 1];
      Offered(avail[..|avail| - 1], weekday, m) + Bit(a.dayOfWeek == weekday && a.startMin <= m < a.endMin)
  }

  /** Some exception of the given day covers minute m; `dayOf` assigns a timestamp its day. */
  ghost predicate Excepted(exs: seq<CalendarException>, dayOf: int -> int, day: int, m: int) {
    exists i :: 0 <= i < |exs| && dayOf(exs[i].dateMs) == day && exs[i].Covers(m)
  }

  ghost predicate DayInRange(day: int, first: int, last: int) {
    first <= day <= last && (day - first) % DAY_MS == 0
  }

  /** The calendar, minute by minute: what the weekday offers on the days of the range, unless an exception covers
      it. */
  ghost function Promised(avail: seq<Availability>, exs: seq<CalendarException>, fromMs: int, toMs: int, day: int,
                          m: int): nat {
    if DayInRange(day, DayStartUTC(fromMs), DayStartUTC(toMs)) && !Excepted(exs, DayStartUTC, day, m)
    then Offered(avail, GetDayOfWeek(day), m) else 0
  }

  // ---------------------------------------------------------------- sums

  ghost function TotalMinutes(ws: seq<Window>): int {
    if ws == [] then 0 else TotalMinutes(ws[..|ws| - 1]) + ws[|ws| - 1].endMin - ws[|ws| - 1].startMin
  }

  lemma {:induction false} CoverageConcat(a: seq<Window>, b: seq<Window>, day: int, m: int)
    ensures Coverage(a + b, day, m) == Coverage(a, day, m) + Coverage(b, day, m)
  {
    if b == [] {
      assert a + b == a;
    } else {
      assert (a + b)[..|a + b| - 1] == a + b[..|b| - 1];
      CoverageConcat(a, b[..|b| - 1], day, m);
    }
  }

  lemma {:induction false} TotalConcat(a: seq<Window>, b: seq<Window>)
    ensures TotalMinutes(a + b) == TotalMinutes(a) + TotalMinutes(b)
  {
    if b == [] {
      assert a + b == a;
    } else {
      assert (a + b)[..|a + b| - 1] == a + b[..|b| - 1];
      TotalConcat(a, b[..|b| - 1]);
    }
  }

  /** The coverage of the minutes lo..hi-1 of a day, added up. */
  ghost function CoverageSum(ws: seq<Window>, day: int, lo: int, hi: int): nat
    decreases hi - lo
  {
    if hi <= lo then 0 else CoverageSum(ws, day, lo, hi - 1) + Coverage(ws, day, hi - 1)
  }

  lemma {:induction false} CoverageSumAppend(ws: seq<Window>, w: Window, day: int, lo: int, hi: int)
    requires lo <= hi
    ensures CoverageSum(ws + [w], day, lo, hi) == CoverageSum(ws, day, lo, hi) + CoverageSum([w], day, lo, hi)
    decreases hi - lo
  {
    if lo < hi {
      CoverageSumAppend(ws, w, day, lo, hi - 1);
      CoverageConcat(ws, [w], day, hi - 1);
    }
  }

  lemma {:induction false} SumOfOne(w: Window, lo: int, hi: int)
    requires lo <= hi && lo <= w.startMin
    ensures CoverageSum([w], w.dateMs, lo, hi) == Max(0, Min(hi, w.endMin) - w.startMin)
    decreases hi - lo
  {
    if lo < hi {
      SumOfOne(w, lo, hi - 1);
      assert [w][..|[w]| - 1] == [];
      assert Coverage([w], w.dateMs, hi - 1) == Bit(w.Covers(w.dateMs, hi - 1));
    }
  }

  ghost predicate WithinDay(ws: seq<Window>, day: int, lo: int, hi: int) {
    forall i :: 0 <= i < |ws| ==> ws[i].dateMs == day && lo <= ws[i].startMin <= ws[i].endMin <= hi
  }

  /** The lengths of one day's windows add up to the coverage of its minutes: equal coverage means equal time. */
  lemma {:induction false} TotalIsCoverageSum(ws: seq<Window>, day: int, lo: int, hi: int)
    requires lo <= hi && WithinDay(ws, day, lo, hi)
    ensures TotalMinutes(ws) == CoverageSum(ws, day, lo, hi)
  {
    if ws == [] {
      EmptySum(day, lo, hi);
    } else {
      var init, w := ws[..|ws| - 1], ws[|ws| - 1];
      assert ws == init + [w];
      assert forall i :: 0 <= i < |init| ==> init[i] == ws[i];
      TotalIsCoverageSum(init, day, lo, hi);
      CoverageSumAppend(init, w, day, lo, hi);
      SumOfOne(w, lo, hi);
    }
  }

  lemma {:induction false} EmptySum(day: int, lo: int, hi: int)
    ensures CoverageSum([], day, lo, hi) == 0
    decreases hi - lo
  {
    if lo < hi {
      EmptySum(day, lo, hi - 1);
    }
  }

  // ---------------------------------------------------------------- canonical form

  /** Non-empty pieces of one day, increasing, with at least a minute between neighbours. */
  ghost predicate Canonical(ws: seq<Window>) {
    && (forall i :: 0 <= i < |ws| ==> ws[i].startMin < ws[i].endMin)
    && (forall i, j :: 0 <= i < j < |ws| ==> ws[i].endMin < ws[j].startMin)
    && (forall i, j :: 0 <= i < j < |ws| ==> ws[i].dateMs == ws[j].dateMs && ws[i].userId == ws[j].userId)
  }

  ghost predicate InPieces(ws: seq<Window>, m: int) {
    exists i :: 0 <= i < |ws| && ws[i].startMin <= m < ws[i].endMin
  }

  lemma AppendPiece(ws: seq<Window>, w: Window, m: int)
    ensures InPieces(ws + [w], m) <==> InPieces(ws, m) || w.startMin <= m < w.endMin
  {
    var more := ws + [w];
    if InPieces(ws, m) {
      var i :| 0 <= i < |ws| && ws[i].startMin <= m < ws[i].endMin;
      assert more[i].startMin <= m < more[i].endMin;
    }
    if w.startMin <= m < w.endMin {
      assert more[|ws|].startMin <= m < more[|ws|].endMin;
    }
  }

  lemma {:induction false} CanonicalCoverage(ws: seq<Window>, day: int, m: int)
    requires Canonical(ws) && forall i :: 0 <= i < |ws| ==> ws[i].dateMs == day
    ensures Coverage(ws, day, m) == Bit(InPieces(ws, m))
  {
    if ws != [] {
      var init, w := ws[..|ws| - 1], ws[|ws| - 1];
      assert ws == init + [w];
      assert forall i :: 0 <= i < |init| ==> init[i] == ws[i];
      CanonicalCoverage(init, day, m);
      AppendPiece(init, w, m);
    }
  }

  lemma HeadInPieces(ws: seq<Window>)
    requires Canonical(ws) && ws != []
    ensures InPieces(ws, ws[0].startMin)
  {
  }

  lemma TailPieces(ws: seq<Window>, m: int)
    requires Canonical(ws) && ws != []
    ensures Canonical(ws[1..])
    ensures InPieces(ws[1..], m) <==> InPieces(ws, m) && m >= ws[0].endMin
  {
  }

  lemma NotBefore(ws: seq<Window>, m: int)
    requires Canonical(ws) && ws != [] && InPieces(ws, m)
    ensures ws[0].startMin <= m && m != ws[0].endMin
  {
  }

  lemma SameHead(a: seq<Window>, b: seq<Window>)
    requires Canonical(a) && Canonical(b) && a != [] && b != []
    requires forall m :: InPieces(a, m) <==> InPieces(b, m)
    ensures a[0].startMin == b[0].startMin && a[0].endMin <= b[0].endMin
  {
    assert InPieces(a, a[0].startMin) && InPieces(b, b[0].startMin);
    NotBefore(a, b[0].startMin);
    NotBefore(b, a[0].startMin);
    if b[0].endMin < a[0].endMin {
      assert InPieces(a, b[0].endMin);
      NotBefore(b, b[0].endMin);
      assert false;
    }
  }

  lemma SameTail(a: seq<Window>, b: seq<Window>)
    requires Canonical(a) && Canonical(b) && a != [] && b != [] && a[0].endMin == b[0].endMin
    requires forall m :: InPieces(a, m) <==> InPieces(b, m)
    ensures Canonical(a[1..]) && Canonical(b[1..]) && forall m :: InPieces(a[1..], m) <==> InPieces(b[1..], m)
  {
    TailPieces(a, 0);
    TailPieces(b, 0);
    forall m
      ensures InPieces(a[1..], m) <==> InPieces(b[1..], m)
    {
      TailPieces(a, m);
      TailPieces(b, m);
    }
  }

  ghost predicate OfDayAndUser(ws: seq<Window>, userId: int, day: int) {
    forall i :: 0 <= i < |ws| ==> ws[i].userId == userId && ws[i].dateMs == day
  }

  /** The canonical form is determined by the minutes it covers. */
  lemma {:induction false} CanonicalUnique(a: seq<Window>, b: seq<Window>, userId: int, day: int)
    requires Canonical(a) && Canonical(b)
    requires forall m :: InPieces(a, m) <==> InPieces(b, m)
    requires OfDayAndUser(a, userId, day) && OfDayAndUser(b, userId, day)
    ensures a == b
    decreases |a|
  {
    if a == [] {
      if b != [] {
        HeadInPieces(b);
        assert false;
      }
    } else if b == [] {
      HeadInPieces(a);
      assert false;
    } else {
      SameHead(a, b);
      SameHead(b, a);
      SameTail(a, b);
      CanonicalUnique(a[1..], b[1..], userId, day);
      assert a == [a[0]] + a[1..] && b == [b[0]] + b[1..];
    }
  }
}
