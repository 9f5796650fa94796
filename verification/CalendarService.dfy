/** The services over the slot tables: the validation loops, the batch writes and the use cases around them. */
module CalendarService {
  import opened TimeUnits
  import opened CalendarSlots
  import opened CalendarStores

  datatype MoveResult = EventNotFound | CannotBeModified | InvalidTimeRange | StoreFailed | Moved(conflicts: seq<int>)

  class CalendarStore {
    const kind: Kind
    var rows: map<int, Slot>
    var nextId: nat

    ghost predicate Valid()
      reads this
    {
      nextId > 0 && WellFormed(rows, nextId)
    }

    ghost function Contents(): Table
      reads this
    {
      Table(rows, nextId)
    }

    constructor (kind: Kind)
      ensures Valid() && this.kind == kind && rows == map[] && nextId == 1
    {
      this.kind := kind;
      rows, nextId := map[], 1;
    }

    /** An owner's rows, for dated tables those of the days in the range. */
    method List(owner: int, from: int, to: int) returns (existing: seq<Item>)
      requires Valid()
      ensures forall x :: x in existing <==>
                x.id in rows && x.slot == rows[x.id] && x.slot.owner == owner
                && (kind.Weekly? || Midnight(from) <= x.slot.day <= Midnight(to))
    {
      existing := [];
      for id := 0 to nextId
        invariant forall x :: x in existing <==>
                    x.id < id && x.id in rows && x.slot == rows[x.id] && x.slot.owner == owner
                    && (kind.Weekly? || Midnight(from) <= x.slot.day <= Midnight(to))
      {
        if id in rows && rows[id].owner == owner && (kind.Weekly? || Midnight(from) <= rows[id].day <= Midnight(to)) {
          existing := existing + [Item(id, rows[id])];
        }
      }
    }

    method ValidateItems(owner: int, items: seq<Item>) returns (ok: bool)
      ensures ok <==> ItemsValid(kind, owner, items)
      ensures ok <==> ProperItems(kind, owner, items)
    {
      ItemsValidIff(kind, owner, items);
      for i := 0 to |items|
        invariant forall k :: 0 <= k < i ==> items[k].slot.owner == owner && IsValid(kind, items[k].slot)
      {
        if items[i].slot.owner != owner || !IsValid(kind, items[i].slot) {
          return false;
        }
      }
      for i := 0 to |items|
        invariant forall k, l :: 0 <= k < i && k < l < |items| ==> !OverlapsWith(kind, items[k].slot, items[l].slot)
      {
        for j := i + 1 to |items|
          invariant forall l :: i < l < j ==> !OverlapsWith(kind, items[i].slot, items[l].slot)
        {
          if OverlapsWith(kind, items[i].slot, items[j].slot) {
            return false;
          }
        }
      }
      return true;
    }

    method DateRange(items: seq<Item>) returns (minDate: int, maxDate: int)
      requires items != []
      ensures minDate == MinDay(items) && maxDate == MaxDay(items)
    {
      minDate, maxDate := items[0].slot.day, items[0].slot.day;
      for k := 1 to |items|
        invariant minDate == MinDay(items[..k]) && maxDate == MaxDay(items[..k])
      {
        assert items[..k + 1][..k] == items[..k];
        if items[k].slot.day < minDate {
          minDate := items[k].slot.day;
        }
        if items[k].slot.day > maxDate {
          maxDate := items[k].slot.day;
        }
      }
      assert items[..|items|] == items;
    }

    method ValidateNoOverlapWithExisting(owner: int, items: seq<Item>) returns (ok: bool)
      requires Valid()
      ensures ok <==> ClearOfExisting(kind, rows, owner, items)
    {
      if |items| == 0 {
        return true;
      }
      var minDate, maxDate := DateRange(items);
      var existing := List(owner, minDate, maxDate);
      for i := 0 to |items|
        invariant forall k, l :: 0 <= k < i && 0 <= l < |existing| ==> ClearOf(items[k], existing[l])
      {
        for j := 0 to |existing|
          invariant forall l :: 0 <= l < j ==> ClearOf(items[i], existing[l])
        {
          if !ClearOf(items[i], existing[j]) {
            MetExistingRow(owner, items, existing[j], items[i]);
            return false;
          }
        }
      }
      forall x, id | x in items && id in rows && Compared(kind, rows[id], owner, items) && !(x.id > 0 && x.id == id)
        ensures !OverlapsWith(kind, x.slot, rows[id])
      {
        assert Item(id, rows[id]) in existing;
        assert ClearOf(x, Item(id, rows[id]));
      }
      return true;
    }

    /** A row is not compared with the item that will overwrite it. */
    predicate ClearOf(newItem: Item, existing: Item) {
      (newItem.id > 0 && newItem.id == existing.id) || !OverlapsWith(kind, newItem.slot, existing.slot)
    }

    lemma MetExistingRow(owner: int, items: seq<Item>, existing: Item, x: Item)
      requires x in items && existing.id in rows && existing.slot == rows[existing.id]
      requires Compared(kind, existing.slot, owner, items) && !ClearOf(x, existing)
      ensures !ClearOfExisting(kind, rows, owner, items)
    {
    }

    method CreateBatch(items: seq<Item>)
      modifies this`rows, this`nextId
      ensures rows == Created(kind, old(rows), items, old(nextId)) && nextId == old(nextId) + |items|
    {
      for k := 0 to |items|
        invariant rows == Created(kind, old(rows), items[..k], old(nextId)) && nextId == old(nextId) + k
      {
        assert items[..k + 1][..k] == items[..k];
        rows := rows[nextId := Stored(kind, items[k].slot)];
        nextId := nextId + 1;
      }
      assert items[..|items|] == items;
    }

    method UpdateBatch(items: seq<Item>)
      modifies this`rows
      ensures rows == Updated(kind, old(rows), items)
    {
      for k := 0 to |items|
        invariant rows == Updated(kind, old(rows), items[..k])
      {
        assert items[..k + 1][..k] == items[..k];
        if items[k].id in rows {
          rows := rows[items[k].id := Merge(kind, rows[items[k].id], items[k].slot)];
        }
      }
      assert items[..|items|] == items;
    }

    /** Sets apart the items that create rows and those that update them. */
    method Partition(items: seq<Item>) returns (createItems: seq<Item>, updateItems: seq<Item>)
      ensures createItems == Creates(items) && updateItems == Updates(items)
    {
      createItems, updateItems := [], [];
      for k := 0 to |items|
        invariant createItems == Creates(items[..k]) && updateItems == Updates(items[..k])
      {
        assert items[..k + 1][..k] == items[..k];
        if items[k].id > 0 {
          updateItems := updateItems + [items[k]];
        } else {
          createItems := createItems + [items[k]];
        }
      }
      assert items[..|items|] == items;
    }

    /** SetAvailabilityForUser, SaveExceptions and SaveEvents; `fails` stands for a failing store or one of the checks
        on other tables. */
    method SaveItems(owner: int, items: seq<Item>, fails: bool) returns (saved: bool)
      requires Valid()
      modifies this
      ensures Valid()
      ensures saved <==> !fails && ProperItems(kind, owner, items) && NothingInTheWay(kind, old(rows), owner, items)
      ensures if saved then BatchSaved(kind, old(rows), rows, old(nextId), items) else rows == old(rows)
      ensures Contents() == if saved then After(kind, old(Contents()), Save(owner, items)) else old(Contents())
    {
      SaveMeans(kind, Contents(), owner, items);
      AfterIsValid(kind, Contents(), Save(owner, items));
      saved := CheckAndSave(owner, items, fails);
    }

    method CheckAndSave(owner: int, items: seq<Item>, fails: bool) returns (saved: bool)
      requires Valid()
      modifies this
      ensures saved <==> !fails && Accepted(kind, old(Contents()), Save(owner, items))
      ensures Contents() == if saved then After(kind, old(Contents()), Save(owner, items)) else old(Contents())
    {
      var itemsOk := ValidateItems(owner, items);
      if !itemsOk {
        return false;
      }
      var clear := ValidateNoOverlapWithExisting(owner, items);
      if !clear || fails {
        return false;
      }
      var createItems, updateItems := Partition(items);
      if |createItems| > 0 {
        CreateBatch(createItems);
      }
      if |updateItems| > 0 {
        UpdateBatch(updateItems);
      }
      return true;
    }

    method ReplaceAvailabilityForUser(userId: int, items: seq<Item>, fails: bool) returns (saved: bool)
      requires Valid() && kind.Weekly?
      modifies this
      ensures Valid()
      ensures !saved ==> rows == old(rows)
      ensures saved ==> WeekReplaced(old(rows), rows, old(nextId), userId, items)
      ensures saved <==> !fails && ProperItems(kind, userId, items)
      ensures Contents() == if saved then After(kind, old(Contents()), ReplaceWeek(userId, items)) else old(Contents())
    {
      var itemsOk := ValidateItems(userId, items);
      if !itemsOk || fails {
        return false;
      }
      AfterIsValid(kind, Contents(), ReplaceWeek(userId, items));
      WeekIsReplaced(rows, nextId, userId, items);
      var daySet: set<int> := {};
      for k := 0 to |items|
        invariant daySet == DaysOf(items[..k])
      {
        assert items[..k + 1] == items[..k] + [items[k]];
        daySet := daySet + {items[k].slot.day};
      }
      assert items[..|items|] == items;
      if daySet != {} {
        rows := WithoutDays(rows, userId, daySet);
      }
      assert rows == WithoutDays(old(rows), userId, DaysOf(items));
      if |items| > 0 {
        CreateBatch(items);
      }
      return true;
    }

    method ReplaceExceptions(userId: int, from: int, to: int, items: seq<Item>, fails: bool) returns (saved: bool)
      requires Valid() && kind.Dated?
      modifies this
      ensures Valid()
      ensures !saved ==> rows == old(rows)
      ensures saved ==> RangeReplaced(old(rows), rows, old(nextId), userId, from, to, items)
      ensures saved <==> !fails && from <= to && ProperItems(kind, userId, items)
      ensures Contents() == if saved then After(kind, old(Contents()), ReplaceRange(userId, from, to, items))
                            else old(Contents())
    {
      if from > to {
        return false;
      }
      var itemsOk := ValidateItems(userId, items);
      if !itemsOk || fails {
        return false;
      }
      AfterIsValid(kind, Contents(), ReplaceRange(userId, from, to, items));
      RangeIsReplaced(rows, nextId, userId, from, to, items);
      rows := WithoutRange(rows, userId, from, to);
      if |items| > 0 {
        CreateBatch(items);
      }
      return true;
    }

    method DeleteExceptions(userId: int, from: int, to: int, fails: bool) returns (deleted: bool)
      requires Valid() && kind.Dated?
      modifies this
      ensures Valid()
      ensures deleted <==> !fails && from <= to
      ensures !deleted ==> rows == old(rows)
      ensures deleted ==>
                && (forall id :: id in rows <==> id in old(rows) && !OfUserOnDays(old(rows)[id], userId, from, to))
                && (forall id :: id in rows ==> rows[id] == old(rows)[id])
      ensures Contents() == if deleted then After(kind, old(Contents()), DeleteRange(userId, from, to))
                            else old(Contents())
    {
      if from > to || fails {
        return false;
      }
      AfterIsValid(kind, Contents(), DeleteRange(userId, from, to));
      rows := WithoutRange(rows, userId, from, to);
      return true;
    }

    method FindConflictingEvents(eventId: int, newDate: int, newStart: int, newEnd: int) returns (conflicts: seq<int>)
      requires Valid() && kind.Planned? && eventId in rows
      ensures forall id :: id in conflicts <==> id in rows && Conflicts(rows, eventId, newDate, newStart, newEnd, id)
    {
      var events := List(rows[eventId].owner, newDate, newDate);
      conflicts := [];
      for k := 0 to |events|
        invariant forall id :: id in conflicts <==>
                    exists l :: 0 <= l < k && events[l].id == id
                        && Conflicts(rows, eventId, newDate, newStart, newEnd, id)
      {
        var ev := events[k];
        assert ev in events;
        if ev.id != eventId && newStart < ev.slot.endMin && newEnd > ev.slot.startMin {
          conflicts := conflicts + [ev.id];
        }
      }
      forall id | id in rows && Conflicts(rows, eventId, newDate, newStart, newEnd, id)
        ensures id in conflicts
      {
        assert Item(id, rows[id]) in events;
      }
    }

    /** The move is written whether or not there are conflicts; they are only reported. The first failing check names
        the refusal. A requested start of 0 leaves the old start. */
    method MoveAndPinEvent(eventId: int, newDate: int, newStart: int, newEnd: int, listFails: bool, writeFails: bool)
      returns (result: MoveResult)
      requires Valid() && kind.Planned?
      modifies this
      ensures Valid()
      ensures if eventId !in old(rows) then result == EventNotFound
              else if !old(rows)[eventId].planned then result == CannotBeModified
              else if listFails then result == StoreFailed
              else if !(0 <= newStart < newEnd <= 1440) then result == InvalidTimeRange
              else if writeFails then result == StoreFailed
              else
                && result.Moved?
                && forall id :: id in result.conflicts <==>
                     && id in old(rows) && id != eventId && old(rows)[id].owner == old(rows)[eventId].owner
                     && old(rows)[id].day == newDate - newDate % 86_400_000
                     && newStart < old(rows)[id].endMin && newEnd > old(rows)[id].startMin
      ensures rows == if !result.Moved? then old(rows)
                      else
                        var row := old(rows)[eventId];
                        old(rows)[eventId := Slot(row.owner, newDate - newDate % 86_400_000,
                                                  if newStart == 0 then row.startMin else newStart, newEnd, true)]
      ensures Contents() == if result.Moved? then After(kind, old(Contents()), Move(eventId, newDate, newStart, newEnd))
                            else old(Contents())
      ensures result.Moved? && OverlapFree(kind, old(rows)) && result.conflicts == [] ==> OverlapFree(kind, rows)
    {
      if eventId !in rows {
        return EventNotFound;
      }
      if !rows[eventId].planned {
        return CannotBeModified;
      }
      if listFails {
        return StoreFailed;
      }
      var conflicts := FindConflictingEvents(eventId, newDate, newStart, newEnd);
      if newStart >= newEnd || newStart < 0 || newEnd > MINUTES_A_DAY {
        return InvalidTimeRange;
      }
      if writeFails {
        return StoreFailed;
      }
      AfterIsValid(kind, Contents(), Move(eventId, newDate, newStart, newEnd));
      if OverlapFree(kind, rows) && conflicts == [] {
        MoveKeepsOverlapFree(rows, nextId, eventId, newDate, newStart, newEnd);
      }
      rows := rows[eventId := MovedSlot(rows[eventId], newDate, newStart, newEnd)];
      return Moved(conflicts);
    }
  }
}
