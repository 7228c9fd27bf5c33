/**
 * AvailabilityService: the two operations behind the Availability and Search
 * commands, over the hotels and bookings the repositories hold.
 */
module AvailabilityService {
  import opened Wrappers
  import opened Calendar
  import opened Models
  import opened FreeWindows
  import opened Aggregation
  import HotelRepository
  import BookingsRepository

  // ----- Availability -----

  /** Rooms.Where(r => r.RoomType == roomType), in stored order. */
  function OfType(rooms: seq<Room>, roomType: string): (r: seq<Room>)
    ensures forall x :: x in r <==> x in rooms && x.roomType == roomType
    ensures |r| <= |rooms|
  {
    if |rooms| == 0 then []
    else (if rooms[0].roomType == roomType then [rooms[0]] else []) + OfType(rooms[1..], roomType)
  }

  /** Each room of the type is kept as often as the hotel lists it, and no other room is. */
  lemma {:induction false} OfTypeCounts(rooms: seq<Room>, roomType: string)
    ensures forall x :: multiset(OfType(rooms, roomType))[x]
                        == if x.roomType == roomType then multiset(rooms)[x] else 0
  {
    if |rooms| > 0 {
      assert rooms == [rooms[0]] + rooms[1..];
      OfTypeCounts(rooms[1..], roomType);
    }
  }

  /** The rooms of the type; none when the hotel has no room list. */
  function RoomsOf(hotel: Hotel, roomType: string): seq<Room>
  {
    if hotel.rooms.None? then [] else OfType(hotel.rooms.value, roomType)
  }

  /** roomsCount: null when the hotel has no room list. */
  function RoomsCount(hotel: Hotel, roomType: string): Option<int>
  {
    if hotel.rooms.None? then None else Some(|OfType(hotel.rooms.value, roomType)|)
  }

  /** Some room type with the command's code allows overbooking, and the command asks for it. */
  predicate OverbookingGranted(hotel: Hotel, cmd: RoomAvailabilityCommand)
  {
    && cmd.allowOverbooking
    && hotel.roomTypes.Some?
    && exists rt :: rt in hotel.roomTypes.value && rt.code == cmd.roomType && rt.overbooking
  }

  /** How many bookings of the hotel and type touch the command's range. */
  function Booked(bookings: seq<Booking>, cmd: RoomAvailabilityCommand): nat
  {
    |BookingsRepository.Get(bookings, cmd.hotelId, cmd.roomType, cmd.startDate, cmd.endDate)|
  }

  /** What one command contributes to the result. */
  datatype Outcome = HotelNotFound | Skipped | Emitted(entry: RoomsAvailability)

  /**
   * roomsAvailabilityCount: the rooms of the type less the booked ones when
   * that is positive, else -1 when overbooking is granted, else null.
   */
  function AvailableCount(hotel: Hotel, cmd: RoomAvailabilityCommand, booked: nat): (r: Option<int>)
    ensures r.Some? ==> r.value != 0
  {
    var rooms := RoomsCount(hotel, cmd.roomType);
    if rooms.Some? && rooms.value - booked > 0 then Some(rooms.value - booked)
    else if OverbookingGranted(hotel, cmd) then Some(-1)
    else None
  }

  /**
   * The rule for one command: the available count of the hotel found for it,
   * with the bookings the repository returns for its range; an unknown hotel
   * is its own outcome. An entry carries the command's dates and never a
   * zero count.
   */
  function Decide(hotels: seq<Hotel>, bookings: seq<Booking>, cmd: RoomAvailabilityCommand): (o: Outcome)
    ensures o.HotelNotFound? <==> HotelRepository.Get(hotels, cmd.hotelId).None?
    ensures o.Emitted? ==> o.entry.startDate == cmd.startDate && o.entry.endDate == cmd.endDate && o.entry.count != 0
  {
    match HotelRepository.Get(hotels, cmd.hotelId)
    case None => HotelNotFound
    case Some(hotel) =>
      match AvailableCount(hotel, cmd, Booked(bookings, cmd))
      case Some(count) => Emitted(RoomsAvailability(cmd.startDate, cmd.endDate, count))
      case None => Skipped
  }

  /**
   * The count rule: with a known hotel, a positive difference between the
   * rooms of the type and the bookings touching the range is reported as
   * is; otherwise -1 is reported exactly when overbooking is granted.
   */
  lemma DecideCount(hotels: seq<Hotel>, bookings: seq<Booking>, cmd: RoomAvailabilityCommand, hotel: Hotel)
    requires HotelRepository.Get(hotels, cmd.hotelId) == Some(hotel)
    ensures hotel.rooms.Some? && |OfType(hotel.rooms.value, cmd.roomType)| > Booked(bookings, cmd) ==>
              Decide(hotels, bookings, cmd).Emitted?
              && Decide(hotels, bookings, cmd).entry.count == |OfType(hotel.rooms.value, cmd.roomType)| - Booked(bookings, cmd)
    ensures !(hotel.rooms.Some? && |OfType(hotel.rooms.value, cmd.roomType)| > Booked(bookings, cmd)) ==>
              (Decide(hotels, bookings, cmd).Emitted? <==> OverbookingGranted(hotel, cmd))
              && (Decide(hotels, bookings, cmd).Emitted? ==> Decide(hotels, bookings, cmd).entry.count == -1)
  {
  }

  predicate AllHotelsKnown(hotels: seq<Hotel>, cmds: seq<RoomAvailabilityCommand>)
  {
    forall i :: 0 <= i < |cmds| ==> HotelRepository.Get(hotels, cmds[i].hotelId).Some?
  }

  /** The entries the commands emit, in command order. */
  function Entries(hotels: seq<Hotel>, bookings: seq<Booking>, cmds: seq<RoomAvailabilityCommand>)
    : seq<RoomsAvailability>
    decreases |cmds|
  {
    if |cmds| == 0 then []
    else
      Entries(hotels, bookings, cmds[..|cmds| - 1])
      + match Decide(hotels, bookings, cmds[|cmds| - 1])
        case Emitted(e) => [e]
        case _ => []
  }

  /** The entries of two batches of commands are the entries of each, in order. */
  lemma {:induction false} EntriesAppend(hotels: seq<Hotel>, bookings: seq<Booking>,
                                         xs: seq<RoomAvailabilityCommand>, ys: seq<RoomAvailabilityCommand>)
    ensures Entries(hotels, bookings, xs + ys) == Entries(hotels, bookings, xs) + Entries(hotels, bookings, ys)
    decreases |ys|
  {
    if |ys| > 0 {
      var zs, init := xs + ys, ys[..|ys| - 1];
      var last := match Decide(hotels, bookings, ys[|ys| - 1]) case Emitted(e) => [e] case _ => [];
      assert zs[..|zs| - 1] == xs + init;
      assert zs[|zs| - 1] == ys[|ys| - 1];
      EntriesAppend(hotels, bookings, xs, init);
      var a, b := Entries(hotels, bookings, xs), Entries(hotels, bookings, init);
      assert Entries(hotels, bookings, zs) == a + b + last;
      assert Entries(hotels, bookings, ys) == b + last;
      assert a + b + last == a + (b + last);
    } else {
      assert xs + ys == xs;
    }
  }

  /** Every entry comes from one of the commands, carries its dates, and has a count other than 0. */
  lemma {:induction false} EntriesFromCommands(hotels: seq<Hotel>, bookings: seq<Booking>,
                                               cmds: seq<RoomAvailabilityCommand>)
    ensures |Entries(hotels, bookings, cmds)| <= |cmds|
    ensures forall e :: e in Entries(hotels, bookings, cmds) ==>
              e.count != 0 && exists c :: c in cmds && e.startDate == c.startDate && e.endDate == c.endDate
    decreases |cmds|
  {
    if |cmds| > 0 {
      var init := cmds[..|cmds| - 1];
      EntriesFromCommands(hotels, bookings, init);
      forall e | e in Entries(hotels, bookings, cmds)
        ensures e.count != 0 && exists c :: c in cmds && e.startDate == c.startDate && e.endDate == c.endDate
      {
        if e in Entries(hotels, bookings, init) {
          var c :| c in init && e.startDate == c.startDate && e.endDate == c.endDate;
          assert c in cmds;
        } else {
          assert cmds[|cmds| - 1] in cmds;
        }
      }
    }
  }

  /**
   * Availability: the commands are handled in order; an unknown hotel in
   * any of them empties the whole result, otherwise each command adds its
   * entry or nothing.
   */
  method Availability(hotels: seq<Hotel>, bookings: seq<Booking>, commands: seq<RoomAvailabilityCommand>)
    returns (result: seq<RoomsAvailability>)
    ensures !AllHotelsKnown(hotels, commands) ==> result == []
    ensures AllHotelsKnown(hotels, commands) ==> result == Entries(hotels, bookings, commands)
  {
    result := [];
    for i := 0 to |commands|
      invariant forall j :: 0 <= j < i ==> HotelRepository.Get(hotels, commands[j].hotelId).Some?
      invariant result == Entries(hotels, bookings, commands[..i])
    {
      assert commands[..i + 1][..i] == commands[..i];
      var command := commands[i];
      var hotel := HotelRepository.Get(hotels, command.hotelId);
      if hotel.None? {
        return [];
      }
      var roomsCount := RoomsCount(hotel.value, command.roomType);
      var bookedRoomsCount := |BookingsRepository.Get(bookings, command.hotelId, command.roomType,
                                                      command.startDate, command.endDate)|;
      var count: Option<int>;
      if roomsCount.Some? && roomsCount.value - bookedRoomsCount > 0 {
        count := Some(roomsCount.value - bookedRoomsCount);
      } else if OverbookingGranted(hotel.value, command) {
        count := Some(-1);
      } else {
        count := None;
      }
      assert count == AvailableCount(hotel.value, command, bookedRoomsCount);
      if count.None? {
        assert Decide(hotels, bookings, command) == Skipped;
        continue;
      }
      var endDate := if command.startDate == command.endDate then command.startDate else command.endDate;
      assert Decide(hotels, bookings, command) == Emitted(RoomsAvailability(command.startDate, endDate, count.value));
      result := result + [RoomsAvailability(command.startDate, endDate, count.value)];
    }
    assert commands[..|commands|] == commands;
  }

  /** One more booking never raises the count a command reports. */
  lemma ExtraBookingNeverRaises(hotels: seq<Hotel>, bookings: seq<Booking>, b: Booking, cmd: RoomAvailabilityCommand)
    requires Decide(hotels, bookings + [b], cmd).Emitted? && Decide(hotels, bookings + [b], cmd).entry.count > 0
    ensures Decide(hotels, bookings, cmd).Emitted?
    ensures Decide(hotels, bookings, cmd).entry.count >= Decide(hotels, bookings + [b], cmd).entry.count
  {
    BookingsRepository.GetAppend(bookings, b, cmd.hotelId, cmd.roomType, cmd.startDate, cmd.endDate);
  }

  // ----- Search -----

  /** The stays of the bookings, in the same order. */
  function StaysOf(bs: seq<Booking>): (r: seq<Stay>)
    ensures |r| == |bs| && forall i :: 0 <= i < |bs| ==> r[i] == Stay(bs[i].arrival, bs[i].departure)
  {
    seq(|bs|, i requires 0 <= i < |bs| => Stay(bs[i].arrival, bs[i].departure))
  }

  /** The free windows of the hotel's rooms of the type once its bookings are subtracted. */
  function RoomsAfter(hotel: Hotel, bookings: seq<Booking>, roomType: string, hotelId: string,
                      today: int, daysAhead: int): seq<seq<Window>>
  {
    ApplyAll(Fresh(|RoomsOf(hotel, roomType)|, Window(today, today + daysAhead)),
             StaysOf(BookingsRepository.Get(bookings, hotelId, roomType, today, today + daysAhead)))
  }

  lemma RoomsAfterUnfolds(hotel: Hotel, bookings: seq<Booking>, roomType: string, hotelId: string,
                           today: int, daysAhead: int)
    ensures RoomsAfter(hotel, bookings, roomType, hotelId, today, daysAhead)
         == ApplyAll(Fresh(|RoomsOf(hotel, roomType)|, Window(today, today + daysAhead)),
                     StaysOf(BookingsRepository.Get(bookings, hotelId, roomType, today, today + daysAhead)))
  {
  }

  /** The grouped, ordered result of Search before dates are attached. */
  function SearchGroups(hotel: Hotel, bookings: seq<Booking>, roomType: string, hotelId: string,
                        today: int, daysAhead: int): seq<Group>
  {
    Tally(Flatten(RoomsAfter(hotel, bookings, roomType, hotelId, today, daysAhead)))
  }

  /** The entries read back as groups. */
  function GroupsOf(entries: seq<RoomsAvailability>): (gs: seq<Group>)
    ensures |gs| == |entries|
    ensures forall i :: 0 <= i < |entries| ==>
              gs[i] == Group(Window(entries[i].startDate, entries[i].endDate), entries[i].count)
  {
    seq(|entries|, i requires 0 <= i < |entries| =>
      Group(Window(entries[i].startDate, entries[i].endDate), entries[i].count))
  }

  function ToEntries(gs: seq<Group>): (r: seq<RoomsAvailability>)
    requires forall i :: 0 <= i < |gs| ==> InRange(gs[i].window.from) && InRange(gs[i].window.to)
    ensures GroupsOf(r) == gs
  {
    var r := seq(|gs|, i requires 0 <= i < |gs| =>
                 var g := gs[i];
                 assert InRange(g.window.from) && InRange(g.window.to);
                 RoomsAvailability(g.window.from, g.window.to, g.count));
    assert forall i :: 0 <= i < |gs| ==> GroupsOf(r)[i] == gs[i];
    r
  }

  /**
   * The bookings filter of Search is called with DateTime.Now and
   * DateTime.Now plus daysAhead days, time of day included; since bookings
   * are whole days it selects exactly what the same filter selects with
   * today's date and the date daysAhead days later.
   */
  lemma SameBookingsAtTicks(arrival: int, departure: int, now: int, daysAhead: int)
    requires 0 <= now
    ensures arrival * TicksPerDay <= now + daysAhead * TicksPerDay <==> arrival <= now / TicksPerDay + daysAhead
    ensures departure * TicksPerDay > now <==> departure > now / TicksPerDay
  {
    var q := now / TicksPerDay;
    assert now == q * TicksPerDay + now % TicksPerDay;
    var x := arrival - q - daysAhead;
    assert arrival * TicksPerDay - (now + daysAhead * TicksPerDay) == x * TicksPerDay - now % TicksPerDay;
    var y := departure - q;
    assert departure * TicksPerDay - now == y * TicksPerDay - now % TicksPerDay;
  }

  /** When now plus daysAhead days is a valid DateTime, so is today's date plus daysAhead days. */
  lemma DayInRange(now: int, daysAhead: int)
    requires 0 <= now <= MaxTicks && 0 <= now + daysAhead * TicksPerDay <= MaxTicks
    ensures InRange(now / TicksPerDay + daysAhead)
  {
    var q := now / TicksPerDay;
    assert now == q * TicksPerDay + now % TicksPerDay;
    assert (q + daysAhead) * TicksPerDay == q * TicksPerDay + daysAhead * TicksPerDay;
  }

  lemma GroupsInCalendar(rooms: seq<seq<Window>>)
    requires forall k :: 0 <= k < |rooms| ==> EndsWithin(rooms[k], 0, MaxDay)
    ensures forall i :: 0 <= i < |Tally(Flatten(rooms))| ==>
              InRange(Tally(Flatten(rooms))[i].window.from) && InRange(Tally(Flatten(rooms))[i].window.to)
  {
    TallyWithin(rooms, 0, MaxDay);
  }

  /** The entries Search reports for a known hotel, as dates. */
  function SearchEntries(hotel: Hotel, bookings: seq<Booking>, roomType: string, hotelId: string,
                         today: int, daysAhead: int): (r: seq<RoomsAvailability>)
    requires InRange(today) && InRange(today + daysAhead)
    ensures GroupsOf(r) == SearchGroups(hotel, bookings, roomType, hotelId, today, daysAhead)
  {
    var horizon := Window(today, today + daysAhead);
    var n := |RoomsOf(hotel, roomType)|;
    var stays := StaysOf(BookingsRepository.Get(bookings, hotelId, roomType, today, today + daysAhead));
    ApplyAllEndsWithin(Fresh(n, horizon), stays, 0, MaxDay);
    GroupsInCalendar(RoomsAfter(hotel, bookings, roomType, hotelId, today, daysAhead));
    ToEntries(SearchGroups(hotel, bookings, roomType, hotelId, today, daysAhead))
  }

  lemma EntriesOfGroups(a: seq<RoomsAvailability>, b: seq<RoomsAvailability>)
    requires GroupsOf(a) == GroupsOf(b)
    ensures a == b
  {
    assert |a| == |b|;
    forall i | 0 <= i < |a| ensures a[i] == b[i] {
      assert GroupsOf(a)[i] == GroupsOf(b)[i];
    }
  }

  /** The part of Search after the hotel is found. */
  method SearchHotel(hotel: Hotel, bookings: seq<Booking>, roomType: string, hotelId: string,
                     daysAhead: int, now: int) returns (r: Option<seq<RoomsAvailability>>)
    requires 0 <= now <= MaxTicks
    ensures r.None? <==> !(0 <= now + daysAhead * TicksPerDay <= MaxTicks)
    ensures r.Some? ==> && InRange(now / TicksPerDay) && InRange(now / TicksPerDay + daysAhead)
                        && r.value == SearchEntries(hotel, bookings, roomType, hotelId, now / TicksPerDay, daysAhead)
  {
    var today := now / TicksPerDay;
    var rooms := RoomsOf(hotel, roomType);
    if |rooms| > 0 && !InRange(today + daysAhead) {
      // today.Date.AddDays(daysAhead) throws
      if 0 <= now + daysAhead * TicksPerDay <= MaxTicks {
        DayInRange(now, daysAhead);
      }
      return None;
    }
    if !(0 <= now + daysAhead * TicksPerDay <= MaxTicks) {
      // today.AddDays(daysAhead) throws
      return None;
    }
    DayInRange(now, daysAhead);
    var horizon := Window(today, today + daysAhead);
    var availableRooms := Fresh(|rooms|, horizon);
    var booked := BookingsRepository.Get(bookings, hotelId, roomType, today, today + daysAhead);
    var stays := StaysOf(booked);
    availableRooms := SubtractBookings(availableRooms, stays);
    ApplyAllEndsWithin(Fresh(|rooms|, horizon), stays, 0, MaxDay);
    RoomsAfterUnfolds(hotel, bookings, roomType, hotelId, today, daysAhead);
    assert availableRooms == RoomsAfter(hotel, bookings, roomType, hotelId, today, daysAhead);
    var groups := Tally(Flatten(availableRooms));
    GroupsInCalendar(availableRooms);
    r := Some(ToEntries(groups));
    assert GroupsOf(r.value) == SearchGroups(hotel, bookings, roomType, hotelId, today, daysAhead);
    EntriesOfGroups(r.value, SearchEntries(hotel, bookings, roomType, hotelId, today, daysAhead));
  }

  /**
   * Search: an unknown hotel gives no entries; otherwise every room of the
   * type starts free from today's date to daysAhead days later, the
   * bookings touching that horizon are subtracted room by room, and the
   * remaining windows are grouped and ordered by start then end. None stands
   * for the exception AddDays raises when the horizon leaves DateTime's range.
   */
  method Search(hotels: seq<Hotel>, bookings: seq<Booking>, roomType: string, hotelId: string,
                daysAhead: int, now: int) returns (r: Option<seq<RoomsAvailability>>)
    requires 0 <= now <= MaxTicks
    ensures HotelRepository.Get(hotels, hotelId).None? ==> r == Some([])
    ensures HotelRepository.Get(hotels, hotelId).Some? ==>
              (r.None? <==> !(0 <= now + daysAhead * TicksPerDay <= MaxTicks))
    ensures r.Some? ==> Sorted(GroupsOf(r.value)) && Positive(GroupsOf(r.value))
    ensures r.Some? && HotelRepository.Get(hotels, hotelId).Some? ==>
              && InRange(now / TicksPerDay) && InRange(now / TicksPerDay + daysAhead)
              && r.value == SearchEntries(HotelRepository.Get(hotels, hotelId).value, bookings, roomType, hotelId,
                                          now / TicksPerDay, daysAhead)
  {
    var hotel := HotelRepository.Get(hotels, hotelId);
    if hotel.None? {
      return Some([]);
    }
    r := SearchHotel(hotel.value, bookings, roomType, hotelId, daysAhead, now);
  }

  predicate ProperBookings(bookings: seq<Booking>)
  {
    forall i :: 0 <= i < |bookings| ==> bookings[i].arrival < bookings[i].departure
  }

  lemma ProperStays(bookings: seq<Booking>, hotelId: string, roomType: string, lo: int, hi: int)
    requires ProperBookings(bookings)
    ensures Proper(StaysOf(BookingsRepository.Get(bookings, hotelId, roomType, lo, hi)))
  {
    var got := BookingsRepository.Get(bookings, hotelId, roomType, lo, hi);
    BookingsRepository.GetSelects(bookings, hotelId, roomType, lo, hi);
    forall i | 0 <= i < |got| ensures got[i].arrival < got[i].departure {
      assert got[i] in bookings;
    }
  }

  /**
   * With a positive day count and bookings that leave after they arrive,
   * every room's remaining windows are non-empty, pairwise apart and within
   * the horizon, and each entry of the result counts the rooms that have
   * that window free.
   */
  lemma SearchCountsRooms(hotel: Hotel, bookings: seq<Booking>, roomType: string, hotelId: string,
                          today: int, daysAhead: int, w: Window)
    requires daysAhead > 0 && ProperBookings(bookings)
    ensures AllValid(RoomsAfter(hotel, bookings, roomType, hotelId, today, daysAhead), today, today + daysAhead)
    ensures CountOf(SearchGroups(hotel, bookings, roomType, hotelId, today, daysAhead), w)
         == RoomsWith(RoomsAfter(hotel, bookings, roomType, hotelId, today, daysAhead), w)
  {
    var n := |RoomsOf(hotel, roomType)|;
    FreshValid(n, today, today + daysAhead);
    ProperStays(bookings, hotelId, roomType, today, today + daysAhead);
    var stays := StaysOf(BookingsRepository.Get(bookings, hotelId, roomType, today, today + daysAhead));
    ApplyAllValid(Fresh(n, Window(today, today + daysAhead)), stays, today, today + daysAhead);
    CountIsRooms(RoomsAfter(hotel, bookings, roomType, hotelId, today, daysAhead), w, today, today + daysAhead);
  }

  lemma CopiesStays(bs: seq<Booking>, b: Booking)
    requires forall i :: 0 <= i < |bs| ==> bs[i] == b
    ensures StaysOf(bs) == seq(|bs|, _ => Stay(b.arrival, b.departure))
  {
  }

  /**
   * As many bookings as the hotel has rooms of the type, each covering the
   * whole horizon from today's date, leave nothing free: Search reports no
   * entries.
   */
  lemma FullHorizonBookingsLeaveNothing(hotel: Hotel, roomType: string, hotelId: string,
                                        today: Date, daysAhead: int, bookings: seq<Booking>)
    requires daysAhead > 0 && InRange(today + daysAhead)
    requires |bookings| == |RoomsOf(hotel, roomType)|
    requires forall i :: 0 <= i < |bookings| ==>
               bookings[i] == Booking(hotelId, today, today + daysAhead, roomType)
    ensures SearchGroups(hotel, bookings, roomType, hotelId, today, daysAhead) == []
  {
    var horizon := Window(today, today + daysAhead);
    var stays := StaysOf(BookingsRepository.Get(bookings, hotelId, roomType, today, today + daysAhead));
    BookingsRepository.GetAllSelected(bookings, hotelId, roomType, today, today + daysAhead);
    CopiesStays(bookings, Booking(hotelId, today, today + daysAhead, roomType));
    FullStaysLeaveNothing(|bookings|, horizon, stays);
    RoomsAfterUnfolds(hotel, bookings, roomType, hotelId, today, daysAhead);
  }
}
