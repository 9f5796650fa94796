/** What an update of a stored exception does to the windows that are cut by it. */
module ExceptionUpdates {
  import opened TimeUnits
  import opened CalendarSlots
  import CalendarStores
  import Windows = WindowCoverage
  import Service = ScheduleWindowService

  /** A row of the exception table as the window service reads it. */
  function AsException(row: Slot): Windows.CalendarException {
    Windows.CalendarException(row.owner, row.day, row.startMin, row.endMin)
  }

  /** The window is offered minus the exception, each minute once. */
  ghost predicate CutExactly(win: Windows.Window, ex: Windows.CalendarException) {
    var pieces := Service.Cut(win, win.startMin, [ex]);
    forall m :: Windows.Coverage(pieces, win.dateMs, m)
                == Bit(win.startMin <= m < win.endMin && !ex.Covers(m))
  }

  lemma OneException(win: Windows.Window, ex: Windows.CalendarException)
    ensures CutExactly(win, ex) <==> ex.startMin <= ex.endMin || ex.endMin <= win.startMin || ex.startMin >= win.endMin
  {
    var exs := [ex];
    var pieces := Service.Cut(win, win.startMin, exs);
    Service.CutPieces(win, win.startMin, exs);
    Service.OnceIffHarmless(win, win.startMin, exs);
    assert !Service.ReachedBefore(exs, 0, ex.endMin);
    forall m
      ensures Windows.Coverage(pieces, win.dateMs, m) > 0 <==> win.startMin <= m < win.endMin && !ex.Covers(m)
    {
      Service.CutCovers(win, win.startMin, exs, m);
      Service.CountedIffInPieces(pieces, win.dateMs, m);
      assert Service.AnyCovers(exs, m) <==> exs[0].Covers(m);
    }
    if CutExactly(win, ex) {
      forall m
        ensures Windows.Coverage(pieces, win.dateMs, m) <= 1
      {
      }
      assert Service.Harmless(win, win.startMin, exs);
      assert exs[0] == ex;
    }
  }

  /** A valid row updated by a valid item cuts a window exactly if and only if the new start is written, or the old
      start is not after the new end, or the row has turned inside out away from the window. */
  lemma UpdatedExceptionCutsExactlyIff(row: Slot, item: Slot, win: Windows.Window)
    requires IsValid(Dated, row) && IsValid(Dated, item)
    ensures CutExactly(win, AsException(Merge(Dated, row, item))) <==>
            item.startMin != 0 || row.startMin <= item.endMin || item.endMin <= win.startMin
                || row.startMin >= win.endMin
  {
    OneException(win, AsException(Merge(Dated, row, item)));
  }

  /** A batch the save path accepts, and after it a minute of the working day that is offered twice. */
  lemma AcceptedUpdateOffersTwice(userId: int, day: int)
    requires userId != 0 && day > 0 && Midnight(day) == day
    ensures var rows := map[1 := Slot(userId, day, 600, 660, true)];
            var items := [Item(1, Slot(userId, day, 0, 590, true))];
            var win := Windows.Window(userId, day, 480, 1320);
            var after := Saved(Dated, rows, 2, items);
            && WellFormed(rows, 2) && OverlapFree(Dated, rows)
            && ItemsValid(Dated, userId, items) && ClearOfExisting(Dated, rows, userId, items)
            && 1 in after && after[1] == Slot(userId, day, 600, 590, true)
            && Windows.Coverage(Service.Cut(win, 480, [AsException(after[1])]), day, 595) == 2
  {
    var item := Item(1, Slot(userId, day, 0, 590, true));
    var rows := map[1 := Slot(userId, day, 600, 660, true)];
    CalendarStores.SavedSingle(Dated, rows, 2, item);
    var win, ex := Windows.Window(userId, day, 480, 1320), Windows.CalendarException(userId, day, 600, 590);
    var a, b := win.(endMin := 600), win.(startMin := 590);
    assert [ex][1..] == [];
    assert Service.Cut(win, 480, [ex]) == [a] + [b];
    Windows.CoverageConcat([a], [b], day, 595);
    Service.CoverageOfOne(a, day, 595);
    Service.CoverageOfOne(b, day, 595);
  }
}
