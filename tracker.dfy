/**
 * The bot's in-memory table of shift records and the two event handlers that
 * read and update it: button presses (clock in / clock out) and prefixed text
 * commands (help, service, total, clear, info).
 */
module Tracker {
  import opened Shifts
  import opened Queries

  /** What a button press answers. */
  datatype ButtonReply =
    | ClockedIn(at: Timestamp)
    | ClockedOut(at: Timestamp, hours: real)
    | MustStartFirst
    | NoButtonReply

  /** What a text command answers. */
  datatype MessageReply =
    | Ignored
    | HelpText
    | ServicePanel
    | TotalsReport(ranking: seq<TotalLine>)
    | ResetDone
    | ActiveReport(onShift: seq<ActiveLine>)
    | NoMessageReply

  /** The record a user has once get-or-create has run. */
  function RecordOf(data: map<UserId, Record>, id: UserId): Record
  {
    if id in data then data[id] else Default
  }

  /** The table after get-or-create for `id`. */
  function WithRecord(data: map<UserId, Record>, id: UserId): map<UserId, Record>
  {
    data[id := RecordOf(data, id)]
  }

  /** The entry order after get-or-create for `id`: a new user goes last. */
  function WithId(ids: seq<UserId>, data: map<UserId, Record>, id: UserId): seq<UserId>
  {
    if id in data then ids else ids + [id]
  }

  /**
   * The table of records keyed by user id. `ids` is the order in which the
   * table's entries are enumerated (the order users were first seen); `data`
   * holds the records.
   */
  class ShiftTable {
    var ids: seq<UserId>
    var data: map<UserId, Record>

    /** Entry order and contents agree, and every total equals the hours of its sessions. */
    ghost predicate Valid()
      reads this
    {
      && Indexed(ids, data)
      && forall id :: id in data ==> Consistent(data[id])
    }

    /** An empty table (no persisted file). */
    constructor ()
      ensures Valid()
      ensures ids == [] && data == map[]
    {
      ids := [];
      data := map[];
    }

    /**
     * Get-or-create: a user not in the table gets the default record, with no
     * clock-in; a user already present keeps their record unchanged.
     */
    method GetOrCreate(id: UserId) returns (r: Record)
      requires Valid()
      modifies this
      ensures Valid()
      ensures id in old(data) ==> data == old(data) && ids == old(ids)
      ensures id !in old(data) ==> data == old(data)[id := Default] && ids == old(ids) + [id]
      ensures r == data[id]
    {
      if id !in data {
        data := data[id := Default];
        ids := ids + [id];
      }
      r := data[id];
    }

    /** Clock in: only this user's record changes, and it is now on shift since `now`. */
    method ClockIn(id: UserId, now: Timestamp) returns (at: Timestamp)
      requires Valid() && id in data
      modifies this
      ensures Valid()
      ensures ids == old(ids)
      ensures data == old(data)[id := StartShift(old(data)[id], now)]
      ensures at == now
    {
      data := data[id := StartShift(data[id], now)];
      at := now;
    }

    /**
     * Clock out: rejected, with nothing changed, when the user is off shift;
     * otherwise only this user's record changes, closing the shift at `now`,
     * and the hours worked are returned.
     */
    method ClockOut(id: UserId, now: Timestamp) returns (reply: ButtonReply)
      requires Valid() && id in data
      modifies this
      ensures Valid()
      ensures ids == old(ids)
      ensures reply == MustStartFirst <==> !OnShift(old(data)[id])
      ensures reply == MustStartFirst ==> data == old(data)
      ensures reply != MustStartFirst ==>
        && EndShift(old(data)[id], now).Closed?
        && reply == ClockedOut(now, EndShift(old(data)[id], now).hours)
        && data == old(data)[id := EndShift(old(data)[id], now).after]
      ensures forall other :: other != id && other in old(data) ==> other in data && data[other] == old(data)[other]
    {
      EndPreservesConsistent(data[id], now);
      match EndShift(data[id], now)
      case NoActiveShift =>
        reply := MustStartFirst;
      case Closed(after, hours) =>
        data := data[id := after];
        reply := ClockedOut(now, hours);
    }

    /** Reset: the same users remain, each with the default record; nobody is on shift. */
    method Clear()
      requires Valid()
      modifies this
      ensures Valid()
      ensures ids == old(ids)
      ensures data.Keys == old(data).Keys
      ensures forall id :: id in data ==> data[id] == Default
      ensures forall id :: id in data ==> !OnShift(data[id])
    {
      var i := 0;
      while i < |ids|
        invariant 0 <= i <= |ids|
        invariant ids == old(ids)
        invariant data.Keys == old(data).Keys
        invariant forall j :: 0 <= j < i ==> data[ids[j]] == Default
        invariant forall id :: id in data ==> data[id] == Default || data[id] == old(data)[id]
      {
        data := data[ids[i] := Default];
        i := i + 1;
      }
      forall id | id in data ensures data[id] == Default {
        var j :| 0 <= j < |ids| && ids[j] == id;
      }
    }

    /**
     * A button press: anything but a button is ignored; otherwise the
     * presser's record is created if missing, then `start` clocks in, `end`
     * clocks out, and any other button changes nothing more.
     */
    method HandleInteraction(isButton: bool, id: UserId, customId: string, now: Timestamp) returns (reply: ButtonReply)
      requires Valid()
      modifies this
      ensures Valid()
      ensures !isButton ==> reply == NoButtonReply && data == old(data) && ids == old(ids)
      ensures isButton ==> ids == WithId(old(ids), old(data), id)
      ensures isButton && customId == "start" ==>
        && reply == ClockedIn(now)
        && data == old(data)[id := StartShift(RecordOf(old(data), id), now)]
      ensures isButton && customId == "end" ==>
        match EndShift(RecordOf(old(data), id), now)
        case NoActiveShift => reply == MustStartFirst && data == WithRecord(old(data), id)
        case Closed(after, hours) => reply == ClockedOut(now, hours) && data == old(data)[id := after]
      ensures isButton && customId != "start" && customId != "end" ==>
        reply == NoButtonReply && data == WithRecord(old(data), id)
    {
      reply := NoButtonReply;
      if !isButton {
        return;
      }
      var _ := GetOrCreate(id);
      if customId == "start" {
        var at := ClockIn(id, now);
        reply := ClockedIn(at);
      }
      if customId == "end" {
        reply := ClockOut(id, now);
      }
    }

    /**
     * A text message: messages from bots or without the prefix are ignored;
     * otherwise the author's record is created if missing and the decoded
     * command runs. Only `clear` changes records; `total` and `info` report
     * on the table as it is after get-or-create.
     */
    method HandleMessage(isBot: bool, hasPrefix: bool, id: UserId, command: string) returns (reply: MessageReply)
      requires Valid()
      modifies this
      ensures Valid()
      ensures isBot || !hasPrefix ==> reply == Ignored && data == old(data) && ids == old(ids)
      ensures !isBot && hasPrefix ==> ids == WithId(old(ids), old(data), id)
      ensures !isBot && hasPrefix && command == "clear" ==>
        && reply == ResetDone
        && data.Keys == old(data).Keys + {id}
        && forall u :: u in data ==> data[u] == Default
      ensures !isBot && hasPrefix && command != "clear" ==> data == WithRecord(old(data), id)
      ensures !isBot && hasPrefix && command == "help" ==> reply == HelpText
      ensures !isBot && hasPrefix && command == "service" ==> reply == ServicePanel
      ensures !isBot && hasPrefix && command == "total" ==> reply == TotalsReport(Totals(ids, data))
      ensures !isBot && hasPrefix && command == "info" ==> reply == ActiveReport(Active(ids, data))
      ensures !isBot && hasPrefix && command !in {"help", "service", "total", "clear", "info"} ==> reply == NoMessageReply
    {
      reply := Ignored;
      if isBot || !hasPrefix {
        return;
      }
      var _ := GetOrCreate(id);
      reply := NoMessageReply;
      if command == "help" {
        reply := HelpText;
      }
      if command == "service" {
        reply := ServicePanel;
      }
      if command == "total" {
        reply := TotalsReport(Totals(ids, data));
      }
      if command == "clear" {
        Clear();
        reply := ResetDone;
      }
      if command == "info" {
        reply := ActiveReport(Active(ids, data));
      }
    }
  }

  /**
   * A client of the table: user A works 10:00-10:30 and clocks in again at
   * 11:00; user B clocks out without having clocked in. The reports follow
   * from the handlers' contracts alone.
   */
  method Scenario()
  {
    var hour := MillisPerHour;
    var table := new ShiftTable();
    var b := table.HandleInteraction(true, "A", "start", 10 * hour);
    b := table.HandleInteraction(true, "A", "end", 10 * hour + hour / 2);
    assert b == ClockedOut(10 * hour + hour / 2, 0.5);
    b := table.HandleInteraction(true, "A", "start", 11 * hour);
    var m := table.HandleMessage(false, true, "A", "info");
    assert m.onShift == [ActiveLine("A", 11 * hour)];
    m := table.HandleMessage(false, true, "A", "total");
    assert m.ranking == [TotalLine("A", 0.5)];

    b := table.HandleInteraction(true, "B", "end", 9 * hour);
    assert b == MustStartFirst;
    m := table.HandleMessage(false, true, "B", "total");
    assert "B" !in TotalIds(m.ranking);
    assert "A" in TotalIds(m.ranking);
  }
}
