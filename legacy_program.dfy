/**
 * The first version of the program (Program.cs): the same two commands
 * handled by one static class over the loaded lists, with its own overlap
 * test for Availability and, for Search, a horizon that starts at the
 * current instant. Its Search therefore works in DateTime ticks; bookings
 * are whole days, so their stays are midnights.
 */
module LegacyProgram {
  import opened Wrappers
  import opened Calendar
  import opened Text
  import opened Models
  import opened FreeWindows
  import opened Aggregation
  import opened DayTicks
  import HotelRepository
  import BookingsRepository
  import AvailabilityService
  import Application

  const HotelNotFoundMessage: string := "Hotel not found."

  /** What a handler does: print some lines, or end the program with an exception nothing catches. */
  datatype Reply = Printed(lines: seq<string>) | Thrown

  // ----- Availability -----

  /** The Where predicate of the legacy count: the booking arrives strictly before the end date. */
  predicate Overlaps(b: Booking, cmd: RoomAvailabilityCommand)
  {
    b.hotelId == cmd.hotelId && b.roomType == cmd.roomType && b.arrival < cmd.endDate && b.departure > cmd.startDate
  }

  /** How many bookings the legacy count sees for the command. */
  function LegacyBooked(bookings: seq<Booking>, cmd: RoomAvailabilityCommand): nat
  {
    if |bookings| == 0 then 0 else (if Overlaps(bookings[0], cmd) then 1 else 0) + LegacyBooked(bookings[1..], cmd)
  }

  /** The bookings of the hotel and type that leave after the start date and arrive on the end date itself. */
  function ArrivingOnEnd(bookings: seq<Booking>, cmd: RoomAvailabilityCommand): nat
  {
    if |bookings| == 0 then 0
    else
      var b := bookings[0];
      (if b.hotelId == cmd.hotelId && b.roomType == cmd.roomType && b.arrival == cmd.endDate
          && b.departure > cmd.startDate then 1 else 0)
      + ArrivingOnEnd(bookings[1..], cmd)
  }

  /**
   * The service counts every booking the legacy count sees, and also those
   * that arrive on the end date: the two tests differ by `<=` against `<`.
   */
  lemma {:induction false} StrictOverlapCount(bookings: seq<Booking>, cmd: RoomAvailabilityCommand)
    ensures AvailabilityService.Booked(bookings, cmd) == LegacyBooked(bookings, cmd) + ArrivingOnEnd(bookings, cmd)
    decreases |bookings|
  {
    if |bookings| > 0 {
      StrictOverlapCount(bookings[1..], cmd);
    }
  }

  /** The legacy rule for one command: the service's rule with the legacy count. */
  function LegacyDecide(hotels: seq<Hotel>, bookings: seq<Booking>, cmd: RoomAvailabilityCommand)
    : (o: AvailabilityService.Outcome)
    ensures o.HotelNotFound? <==> HotelRepository.Get(hotels, cmd.hotelId).None?
    ensures o.Emitted? ==> o.entry.startDate == cmd.startDate && o.entry.endDate == cmd.endDate && o.entry.count != 0
  {
    match HotelRepository.Get(hotels, cmd.hotelId)
    case None => AvailabilityService.HotelNotFound
    case Some(hotel) =>
      match AvailabilityService.AvailableCount(hotel, cmd, LegacyBooked(bookings, cmd))
      case Some(count) => AvailabilityService.Emitted(RoomsAvailability(cmd.startDate, cmd.endDate, count))
      case None => AvailabilityService.Skipped
  }

  /**
   * Where no booking arrives on a command's end date, the legacy program
   * and the service decide the same; otherwise the legacy program reports at
   * least as many free rooms as the service whenever the service reports some.
   */
  lemma LegacyDecideAgrees(hotels: seq<Hotel>, bookings: seq<Booking>, cmd: RoomAvailabilityCommand)
    ensures ArrivingOnEnd(bookings, cmd) == 0 ==>
              LegacyDecide(hotels, bookings, cmd) == AvailabilityService.Decide(hotels, bookings, cmd)
    ensures AvailabilityService.Decide(hotels, bookings, cmd).Emitted?
            && AvailabilityService.Decide(hotels, bookings, cmd).entry.count > 0 ==>
              && LegacyDecide(hotels, bookings, cmd).Emitted?
              && LegacyDecide(hotels, bookings, cmd).entry.count
                 >= AvailabilityService.Decide(hotels, bookings, cmd).entry.count
  {
    StrictOverlapCount(bookings, cmd);
  }

  /** The entries of the legacy program, in command order. */
  function LegacyEntries(hotels: seq<Hotel>, bookings: seq<Booking>, cmds: seq<RoomAvailabilityCommand>)
    : seq<RoomsAvailability>
    decreases |cmds|
  {
    if |cmds| == 0 then []
    else
      LegacyEntries(hotels, bookings, cmds[..|cmds| - 1])
      + match LegacyDecide(hotels, bookings, cmds[|cmds| - 1])
        case Emitted(e) => [e]
        case _ => []
  }

  /** With no booking arriving on any command's end date, the legacy entries are the service's. */
  lemma {:induction false} LegacyEntriesAgree(hotels: seq<Hotel>, bookings: seq<Booking>,
                                              cmds: seq<RoomAvailabilityCommand>)
    requires forall i :: 0 <= i < |cmds| ==> ArrivingOnEnd(bookings, cmds[i]) == 0
    ensures LegacyEntries(hotels, bookings, cmds) == AvailabilityService.Entries(hotels, bookings, cmds)
    decreases |cmds|
  {
    if |cmds| > 0 {
      LegacyEntriesAgree(hotels, bookings, cmds[..|cmds| - 1]);
      LegacyDecideAgrees(hotels, bookings, cmds[|cmds| - 1]);
    }
  }

  /**
   * A booking from day d to day d + 1 and a single-day command for day d:
   * the service counts the booking and reports nothing, the legacy program
   * misses it and reports the room free.
   */
  lemma SingleDayMissed(d: Date, hotelId: string, roomType: string)
    requires d < MaxDay
    ensures var hotels := [Hotel(hotelId, Some([]), Some([Room("1", roomType)]))];
            var bookings := [Booking(hotelId, d, d + 1, roomType)];
            var cmd := RoomAvailabilityCommand(hotelId, d, d, roomType, false);
            && LegacyDecide(hotels, bookings, cmd) == AvailabilityService.Emitted(RoomsAvailability(d, d, 1))
            && AvailabilityService.Decide(hotels, bookings, cmd) == AvailabilityService.Skipped
  {
    var hotels := [Hotel(hotelId, Some([]), Some([Room("1", roomType)]))];
    var bookings := [Booking(hotelId, d, d + 1, roomType)];
    var cmd := RoomAvailabilityCommand(hotelId, d, d, roomType, false);
    assert HotelRepository.Get(hotels, hotelId) == Some(hotels[0]);
    assert AvailabilityService.OfType([Room("1", roomType)], roomType) == [Room("1", roomType)];
    assert LegacyBooked(bookings, cmd) == 0;
    assert BookingsRepository.Get(bookings[1..], hotelId, roomType, d, d) == [];
    assert AvailabilityService.Booked(bookings, cmd) == 1;
  }

  /**
   * The second loop of HandleAvailability: the commands are handled in
   * order, an unknown hotel printing "Hotel not found." instead of any
   * result; otherwise the entries are printed as one line.
   */
  method HandleCommands(hotels: seq<Hotel>, bookings: seq<Booking>, commands: seq<RoomAvailabilityCommand>)
    returns (printed: seq<string>)
    ensures !AvailabilityService.AllHotelsKnown(hotels, commands) ==> printed == [HotelNotFoundMessage]
    ensures AvailabilityService.AllHotelsKnown(hotels, commands) ==>
              printed == [Application.AvailabilityLine(LegacyEntries(hotels, bookings, commands))]
  {
    var result: seq<string> := [];
    for i := 0 to |commands|
      invariant AvailabilityService.AllHotelsKnown(hotels, commands[..i])
      invariant result == Application.AvailabilityTexts(LegacyEntries(hotels, bookings, commands[..i]))
    {
      var command := commands[i];
      var hotel := HotelRepository.Get(hotels, command.hotelId);
      if hotel.None? {
        assert !AvailabilityService.AllHotelsKnown(hotels, commands);
        return [HotelNotFoundMessage];
      }
      assert commands[..i + 1] == commands[..i] + [command];
      EntriesStep(hotels, bookings, commands, i);
      var text := CommandResult(hotels, bookings, command, hotel.value);
      result := result + text;
    }
    assert commands[..|commands|] == commands;
    printed := [Join(result, ", ")];
  }

  /** What one command adds to the printed texts: the text of its entry, if it emits one. */
  lemma EntriesStep(hotels: seq<Hotel>, bookings: seq<Booking>, commands: seq<RoomAvailabilityCommand>, i: nat)
    requires i < |commands|
    ensures Application.AvailabilityTexts(LegacyEntries(hotels, bookings, commands[..i + 1]))
            == Application.AvailabilityTexts(LegacyEntries(hotels, bookings, commands[..i]))
               + match LegacyDecide(hotels, bookings, commands[i])
                 case Emitted(e) => [Application.AvailabilityText(e)]
                 case _ => []
  {
    assert commands[..i + 1][..i] == commands[..i];
    var entries := LegacyEntries(hotels, bookings, commands[..i]);
    match LegacyDecide(hotels, bookings, commands[i])
    case Emitted(entry) =>
      assert LegacyEntries(hotels, bookings, commands[..i + 1]) == entries + [entry];
      Application.AvailabilityTextsAppend(entries, entry);
    case _ =>
  }

  /** One command's turn in the second loop, once its hotel is found: the text it adds, if any. */
  lemma LegacyDecideFound(hotels: seq<Hotel>, bookings: seq<Booking>, command: RoomAvailabilityCommand, hotel: Hotel)
    requires HotelRepository.Get(hotels, command.hotelId) == Some(hotel)
    ensures LegacyDecide(hotels, bookings, command)
         == match AvailabilityService.AvailableCount(hotel, command, LegacyBooked(bookings, command))
            case Some(count) => AvailabilityService.Emitted(RoomsAvailability(command.startDate, command.endDate, count))
            case None => AvailabilityService.Skipped
  {
  }

  method CommandResult(hotels: seq<Hotel>, bookings: seq<Booking>, command: RoomAvailabilityCommand, hotel: Hotel)
    returns (added: seq<string>)
    requires HotelRepository.Get(hotels, command.hotelId) == Some(hotel)
    ensures added == match LegacyDecide(hotels, bookings, command)
                     case Emitted(e) => [Application.AvailabilityText(e)]
                     case _ => []
  {
    var roomCount := AvailabilityService.RoomsCount(hotel, command.roomType);
    var bookedRooms := LegacyBooked(bookings, command);
    var resultDateRange := Application.DateRangeText(command.startDate, command.endDate);
    LegacyDecideFound(hotels, bookings, command, hotel);
    if roomCount.Some? && roomCount.value - bookedRooms > 0 {
      added := ["(" + resultDateRange + "," + IntToString(roomCount.value - bookedRooms) + ")"];
      EmittedText(command, roomCount.value - bookedRooms, added);
    } else if AvailabilityService.OverbookingGranted(hotel, command) {
      added := ["(" + resultDateRange + "," + IntToString(-1) + ")"];
      EmittedText(command, -1, added);
    } else {
      added := [];
    }
  }

  lemma EmittedText(command: RoomAvailabilityCommand, count: int, added: seq<string>)
    requires added == ["(" + Application.DateRangeText(command.startDate, command.endDate) + "," + IntToString(count) + ")"]
    ensures added == [Application.AvailabilityText(RoomsAvailability(command.startDate, command.endDate, count))]
  {
  }

  /** Among the pieces, only one that does not parse is preceded by pieces that all parse. */
  lemma FirstFailure(pieces: seq<string>, e: Application.ParseError)
    requires exists k :: 0 <= k < |pieces| && Application.ParsePiece(pieces[k]) == Failure(e)
                         && forall j :: 0 <= j < k ==> Application.ParsePiece(pieces[j]).Success?
    ensures forall i :: 0 <= i < |pieces| && Application.ParsePiece(pieces[i]).Failure?
                        && (forall j :: 0 <= j < i ==> Application.ParsePiece(pieces[j]).Success?) ==>
              Application.ParsePiece(pieces[i]) == Failure(e)
  {
    var k :| 0 <= k < |pieces| && Application.ParsePiece(pieces[k]) == Failure(e)
             && forall j :: 0 <= j < k ==> Application.ParsePiece(pieces[j]).Success?;
    forall i | 0 <= i < |pieces| && Application.ParsePiece(pieces[i]).Failure?
                && (forall j :: 0 <= j < i ==> Application.ParsePiece(pieces[j]).Success?)
      ensures Application.ParsePiece(pieces[i]) == Failure(e)
    {
      assert !(i < k);
      assert !(k < i);
    }
  }

  /**
   * HandleAvailability: every piece is parsed first and the first bad one
   * prints its message and nothing else; then the commands are handled.
   */
  method HandleAvailability(hotels: seq<Hotel>, bookings: seq<Booking>, input: string) returns (printed: seq<string>)
    ensures forall i :: 0 <= i < |Application.Pieces(input)|
                        && Application.ParsePiece(Application.Pieces(input)[i]).Failure?
                        && (forall j :: 0 <= j < i ==> Application.ParsePiece(Application.Pieces(input)[j]).Success?) ==>
              printed == [Application.Message(Application.ParsePiece(Application.Pieces(input)[i]).error)]
    ensures (forall i :: 0 <= i < |Application.Pieces(input)| ==>
               Application.ParsePiece(Application.Pieces(input)[i]).Success?) ==>
              var commands := Application.ParsedCommands(Application.Pieces(input));
              && (!AvailabilityService.AllHotelsKnown(hotels, commands) ==> printed == [HotelNotFoundMessage])
              && (AvailabilityService.AllHotelsKnown(hotels, commands) ==>
                    printed == [Application.AvailabilityLine(LegacyEntries(hotels, bookings, commands))])
  {
    var parsed := Application.ParseAvailabilityCommands(input);
    if parsed.Failure? {
      FirstFailure(Application.Pieces(input), parsed.error);
      return [Application.Message(parsed.error)];
    }
    assert parsed.value == Application.ParsedCommands(Application.Pieces(input));
    printed := HandleCommands(hotels, bookings, parsed.value);
  }

  // ----- Search -----

  /** The legacy Search command: fewer than four parts is rejected, parts after the fourth are ignored. */
  function ParseSearch(input: string): (r: Result<Application.SearchRequest, Application.ParseError>)
    ensures r == Failure(Application.InvalidCommandFormat) <==> |Application.Parts(input)| < 4
    ensures |Application.Parts(input)| >= 4 ==> r == Application.SearchFields(Application.Parts(input))
    ensures |Application.Parts(input)| == 4 ==> r == Application.ParseSearchCommand(input)
    ensures |Application.Parts(input)| > 4 ==> Application.ParseSearchCommand(input).Failure?
  {
    var parts := Application.Parts(input);
    if |parts| < 4 then Failure(Application.InvalidCommandFormat) else Application.SearchFields(parts)
  }

  /** The bookings filter of the legacy Search: hotel, type and a departure after the current instant. */
  predicate DepartsAfter(b: Booking, hotelId: string, roomType: string, now: int)
  {
    b.hotelId == hotelId && b.roomType == roomType && Midnight(b.departure) > now
  }

  function Departing(bookings: seq<Booking>, hotelId: string, roomType: string, now: int): (r: seq<Booking>)
    ensures forall b :: b in r <==> b in bookings && DepartsAfter(b, hotelId, roomType, now)
    decreases |bookings|
  {
    if |bookings| == 0 then []
    else
      var last := bookings[|bookings| - 1];
      Departing(bookings[..|bookings| - 1], hotelId, roomType, now)
      + (if DepartsAfter(last, hotelId, roomType, now) then [last] else [])
  }

  /** The legacy filter keeps every booking it selects as often as it is stored, and no other. */
  lemma {:induction false} DepartingCounts(bookings: seq<Booking>, hotelId: string, roomType: string, now: int)
    ensures forall b :: multiset(Departing(bookings, hotelId, roomType, now))[b]
                        == if DepartsAfter(b, hotelId, roomType, now) then multiset(bookings)[b] else 0
    decreases |bookings|
  {
    if |bookings| > 0 {
      var init, last := bookings[..|bookings| - 1], bookings[|bookings| - 1];
      assert bookings == init + [last];
      DepartingCounts(init, hotelId, roomType, now);
    }
  }

  /** The window every room of the type starts with: now up to daysAhead days later, time of day kept. */
  function Horizon(now: int, daysAhead: int): Window
  {
    Window(now, now + daysAhead * TicksPerDay)
  }

  /** A positive day count gives a horizon that is not empty. */
  lemma HorizonNonEmpty(now: int, daysAhead: int)
    requires daysAhead > 0
    ensures Horizon(now, daysAhead).from < Horizon(now, daysAhead).to
  {
  }

  /** The legacy Search throws (AddDays out of range) exactly when it builds a horizon that leaves DateTime. */
  predicate Throws(hotel: Hotel, request: Application.SearchRequest, now: int)
  {
    |AvailabilityService.RoomsOf(hotel, request.roomType)| > 0
    && !(0 <= now + request.daysAhead * TicksPerDay <= MaxTicks)
  }

  /** The rooms' free windows, in ticks, once the departing bookings are subtracted. */
  function LegacyRooms(hotel: Hotel, bookings: seq<Booking>, request: Application.SearchRequest, now: int)
    : seq<seq<Window>>
  {
    ApplyAll(Fresh(|AvailabilityService.RoomsOf(hotel, request.roomType)|, Horizon(now, request.daysAhead)),
             StaysAt(AvailabilityService.StaysOf(Departing(bookings, request.hotelId, request.roomType, now))))
  }

  function LegacyGroups(hotel: Hotel, bookings: seq<Booking>, request: Application.SearchRequest, now: int)
    : seq<Group>
  {
    Tally(Flatten(LegacyRooms(hotel, bookings, request, now)))
  }

  predicate InTicks(gs: seq<Group>)
  {
    forall i :: 0 <= i < |gs| ==> 0 <= gs[i].window.from <= MaxTicks && 0 <= gs[i].window.to <= MaxTicks
  }

  /** The date of an instant. */
  function DateOf(t: int): Date
    requires 0 <= t <= MaxTicks
  {
    t / TicksPerDay
  }

  function GroupText(g: Group): string
    requires 0 <= g.window.from <= MaxTicks && 0 <= g.window.to <= MaxTicks
  {
    "(" + Format(DateOf(g.window.from)) + "-" + Format(DateOf(g.window.to)) + "," + IntToString(g.count) + ")"
  }

  function GroupTexts(gs: seq<Group>): (r: seq<string>)
    requires InTicks(gs)
    ensures |r| == |gs| && forall i :: 0 <= i < |gs| ==> r[i] == GroupText(gs[i])
  {
    seq(|gs|, i requires 0 <= i < |gs| => GroupText(gs[i]))
  }

  lemma StaysInTicks(bs: seq<Booking>)
    ensures StaysWithin(StaysAt(AvailabilityService.StaysOf(bs)), 0, MaxTicks)
  {
  }

  /** Unless it throws, the legacy Search only builds windows inside DateTime's range. */
  lemma LegacyGroupsInTicks(hotel: Hotel, bookings: seq<Booking>, request: Application.SearchRequest, now: int)
    requires 0 <= now <= MaxTicks && !Throws(hotel, request, now)
    ensures InTicks(LegacyGroups(hotel, bookings, request, now))
  {
    var n := |AvailabilityService.RoomsOf(hotel, request.roomType)|;
    var stays := StaysAt(AvailabilityService.StaysOf(Departing(bookings, request.hotelId, request.roomType, now)));
    StaysInTicks(Departing(bookings, request.hotelId, request.roomType, now));
    ApplyAllEndsWithin(Fresh(n, Horizon(now, request.daysAhead)), stays, 0, MaxTicks);
    TallyWithin(LegacyRooms(hotel, bookings, request, now), 0, MaxTicks);
  }

  /** The line the legacy Search prints for a known hotel. */
  function LegacySearchLine(hotel: Hotel, bookings: seq<Booking>, request: Application.SearchRequest, now: int)
    : string
    requires 0 <= now <= MaxTicks && !Throws(hotel, request, now)
  {
    LegacyGroupsInTicks(hotel, bookings, request, now);
    Join(GroupTexts(LegacyGroups(hotel, bookings, request, now)), ", ")
  }

  /**
   * HandleSearch: a bad command or an unknown hotel prints its message;
   * otherwise every room of the type starts free from now to daysAhead days
   * later, the bookings leaving after now are cut out room by room, and the
   * grouped windows are printed as one line. Building a horizon beyond
   * DateTime's range throws.
   */
  method HandleSearch(hotels: seq<Hotel>, bookings: seq<Booking>, input: string, now: int) returns (reply: Reply)
    requires 0 <= now <= MaxTicks
    ensures ParseSearch(input).Failure? ==> reply == Printed([Application.Message(ParseSearch(input).error)])
    ensures ParseSearch(input).Success? && HotelRepository.Get(hotels, ParseSearch(input).value.hotelId).None? ==>
              reply == Printed([HotelNotFoundMessage])
    ensures ParseSearch(input).Success? && HotelRepository.Get(hotels, ParseSearch(input).value.hotelId).Some? ==>
              var hotel := HotelRepository.Get(hotels, ParseSearch(input).value.hotelId).value;
              && (reply.Thrown? <==> Throws(hotel, ParseSearch(input).value, now))
              && (!Throws(hotel, ParseSearch(input).value, now) ==>
                    reply == Printed([LegacySearchLine(hotel, bookings, ParseSearch(input).value, now)]))
  {
    var parsed := ParseSearch(input);
    if parsed.Failure? {
      return Printed([Application.Message(parsed.error)]);
    }
    var request := parsed.value;
    var hotel := HotelRepository.Get(hotels, request.hotelId);
    if hotel.None? {
      return Printed([HotelNotFoundMessage]);
    }
    var today := now;
    var rooms := AvailabilityService.RoomsOf(hotel.value, request.roomType);
    if |rooms| > 0 && !(0 <= today + request.daysAhead * TicksPerDay <= MaxTicks) {
      // today.AddDays(daysAhead) throws while the rooms are built, and nothing catches it
      return Thrown;
    }
    var availableRooms := Fresh(|rooms|, Horizon(today, request.daysAhead));
    var bookedRooms := Departing(bookings, request.hotelId, request.roomType, today);
    availableRooms := SubtractBookings(availableRooms, StaysAt(AvailabilityService.StaysOf(bookedRooms)));
    var totalAvailability := Tally(Flatten(availableRooms));
    LegacyGroupsInTicks(hotel.value, bookings, request, now);
    reply := Printed([Join(GroupTexts(totalAvailability), ", ")]);
  }

  // ----- Search against the service -----

  /**
   * The legacy filter has no arrival bound, but with a positive day count
   * and proper bookings adding the one the service uses changes nothing.
   */
  lemma LegacyArrivalBoundIrrelevant(hotel: Hotel, bookings: seq<Booking>, request: Application.SearchRequest,
                                     now: int)
    requires request.daysAhead > 0 && AvailabilityService.ProperBookings(bookings)
    ensures var h := Horizon(now, request.daysAhead);
            LegacyRooms(hotel, bookings, request, now)
            == ApplyAll(Fresh(|AvailabilityService.RoomsOf(hotel, request.roomType)|, h),
                        KeepTouching(StaysAt(AvailabilityService.StaysOf(
                                       Departing(bookings, request.hotelId, request.roomType, now))),
                                     h.from, h.to))
  {
    var h := Horizon(now, request.daysAhead);
    var stays := StaysAt(AvailabilityService.StaysOf(Departing(bookings, request.hotelId, request.roomType, now)));
    HorizonNonEmpty(now, request.daysAhead);
    DepartingProper(bookings, request.hotelId, request.roomType, now);
    FilteredStaysAgree(|AvailabilityService.RoomsOf(hotel, request.roomType)|, h.from, h.to,
                       stays, KeepTouching(stays, h.from, h.to));
  }

  /** Midnights are ordered as their days are. */
  lemma MidnightOrder(a: int, b: int)
    ensures Midnight(a) > Midnight(b) <==> a > b
  {
    assert Midnight(a) - Midnight(b) == (a - b) * TicksPerDay;
  }

  /** One more stored booking adds its stay to both sides exactly when the repository would select it. */
  lemma DepartingTouchingStep(init: seq<Booking>, last: Booking, hotelId: string, roomType: string,
                              q: int, daysAhead: int)
    ensures KeepTouching(AvailabilityService.StaysOf(Departing(init + [last], hotelId, roomType, Midnight(q))),
                         q, q + daysAhead)
         == KeepTouching(AvailabilityService.StaysOf(Departing(init, hotelId, roomType, Midnight(q))),
                         q, q + daysAhead)
            + (if BookingsRepository.Selected(last, hotelId, roomType, q, q + daysAhead)
               then [Stay(last.arrival, last.departure)] else [])
  {
    var dInit := Departing(init, hotelId, roomType, Midnight(q));
    var st := Stay(last.arrival, last.departure);
    DepartingAppend(init, last, hotelId, roomType, Midnight(q));
    MidnightOrder(last.departure, q);
    if DepartsAfter(last, hotelId, roomType, Midnight(q)) {
      StaysOfAppend(dInit, last);
      KeepTouchingAppend(AvailabilityService.StaysOf(dInit), st, q, q + daysAhead);
    } else {
      assert dInit + [] == dInit;
    }
  }

  lemma DepartingAppend(init: seq<Booking>, last: Booking, hotelId: string, roomType: string, now: int)
    ensures Departing(init + [last], hotelId, roomType, now)
         == Departing(init, hotelId, roomType, now) + (if DepartsAfter(last, hotelId, roomType, now) then [last] else [])
  {
    var all := init + [last];
    assert all[..|all| - 1] == init;
  }

  /** At midnight of day q, the legacy filter followed by the horizon test keeps what the repository returns. */
  lemma {:induction false} DepartingThenTouching(bookings: seq<Booking>, hotelId: string, roomType: string,
                                                 q: int, daysAhead: int)
    ensures KeepTouching(AvailabilityService.StaysOf(Departing(bookings, hotelId, roomType, Midnight(q))),
                         q, q + daysAhead)
         == AvailabilityService.StaysOf(BookingsRepository.Get(bookings, hotelId, roomType, q, q + daysAhead))
    decreases |bookings|
  {
    if |bookings| > 0 {
      var init := bookings[..|bookings| - 1];
      var last := bookings[|bookings| - 1];
      assert bookings == init + [last];
      DepartingThenTouching(init, hotelId, roomType, q, daysAhead);
      DepartingTouchingStep(init, last, hotelId, roomType, q, daysAhead);
      BookingsRepository.GetAppend(init, last, hotelId, roomType, q, q + daysAhead);
      StaysOfAppend(BookingsRepository.Get(init, hotelId, roomType, q, q + daysAhead), last);
    }
  }

  lemma StaysOfAppend(bs: seq<Booking>, b: Booking)
    ensures AvailabilityService.StaysOf(bs + [b]) == AvailabilityService.StaysOf(bs) + [Stay(b.arrival, b.departure)]
  {
  }

  lemma DepartingProper(bookings: seq<Booking>, hotelId: string, roomType: string, now: int)
    requires AvailabilityService.ProperBookings(bookings)
    ensures Proper(AvailabilityService.StaysOf(Departing(bookings, hotelId, roomType, now)))
    ensures Proper(StaysAt(AvailabilityService.StaysOf(Departing(bookings, hotelId, roomType, now))))
  {
    var d := Departing(bookings, hotelId, roomType, now);
    forall i | 0 <= i < |d| ensures d[i].arrival < d[i].departure {
      assert d[i] in d;
    }
  }

  /** For a horizon of days, the bookings leaving after its first midnight subtract as the repository's do. */
  lemma DepartingSubtractsAsSelected(count: nat, bookings: seq<Booking>, hotelId: string, roomType: string,
                                     q: int, daysAhead: int)
    requires daysAhead > 0 && AvailabilityService.ProperBookings(bookings)
    ensures ApplyAll(Fresh(count, Window(q, q + daysAhead)),
                     AvailabilityService.StaysOf(Departing(bookings, hotelId, roomType, Midnight(q))))
         == ApplyAll(Fresh(count, Window(q, q + daysAhead)),
                     AvailabilityService.StaysOf(BookingsRepository.Get(bookings, hotelId, roomType, q, q + daysAhead)))
  {
    DepartingProper(bookings, hotelId, roomType, Midnight(q));
    DepartingThenTouching(bookings, hotelId, roomType, q, daysAhead);
    FilteredStaysAgree(count, q, q + daysAhead,
                       AvailabilityService.StaysOf(Departing(bookings, hotelId, roomType, Midnight(q))),
                       AvailabilityService.StaysOf(BookingsRepository.Get(bookings, hotelId, roomType, q, q + daysAhead)));
  }

  /** At midnight of day q, the legacy rooms are the midnights of the service's rooms for day q. */
  lemma MidnightRooms(hotel: Hotel, bookings: seq<Booking>, request: Application.SearchRequest, q: int)
    requires request.daysAhead > 0 && AvailabilityService.ProperBookings(bookings)
    ensures LegacyRooms(hotel, bookings, request, Midnight(q))
         == RoomsAt(AvailabilityService.RoomsAfter(hotel, bookings, request.roomType, request.hotelId,
                                                   q, request.daysAhead))
  {
    var n := |AvailabilityService.RoomsOf(hotel, request.roomType)|;
    var d := request.daysAhead;
    var days := StaysAt(AvailabilityService.StaysOf(Departing(bookings, request.hotelId, request.roomType, Midnight(q))));
    var selected := AvailabilityService.StaysOf(BookingsRepository.Get(bookings, request.hotelId, request.roomType, q, q + d));
    calc {
      LegacyRooms(hotel, bookings, request, Midnight(q));
      ApplyAll(Fresh(n, Horizon(Midnight(q), d)), days);
      { HorizonAtMidnight(q, d); }
      ApplyAll(Fresh(n, WindowAt(Window(q, q + d))), days);
      { DepartingRoomsAt(n, bookings, request.hotelId, request.roomType, q, d); }
      RoomsAt(ApplyAll(Fresh(n, Window(q, q + d)), selected));
      { AvailabilityService.RoomsAfterUnfolds(hotel, bookings, request.roomType, request.hotelId, q, d); }
      RoomsAt(AvailabilityService.RoomsAfter(hotel, bookings, request.roomType, request.hotelId, q, d));
    }
  }

  lemma HorizonAtMidnight(q: int, daysAhead: int)
    ensures Horizon(Midnight(q), daysAhead) == WindowAt(Window(q, q + daysAhead))
  {
    MidnightShift(q, daysAhead);
  }

  /** The same in midnights: the legacy stays take from rooms in ticks what the selected ones take in days. */
  lemma DepartingRoomsAt(count: nat, bookings: seq<Booking>, hotelId: string, roomType: string, q: int, daysAhead: int)
    requires daysAhead > 0 && AvailabilityService.ProperBookings(bookings)
    ensures ApplyAll(Fresh(count, WindowAt(Window(q, q + daysAhead))),
                     StaysAt(AvailabilityService.StaysOf(Departing(bookings, hotelId, roomType, Midnight(q)))))
         == RoomsAt(ApplyAll(Fresh(count, Window(q, q + daysAhead)),
                             AvailabilityService.StaysOf(BookingsRepository.Get(bookings, hotelId, roomType, q, q + daysAhead))))
  {
    DepartingSubtractsAsSelected(count, bookings, hotelId, roomType, q, daysAhead);
    ScaledRooms(count, Window(q, q + daysAhead),
                AvailabilityService.StaysOf(Departing(bookings, hotelId, roomType, Midnight(q))),
                AvailabilityService.StaysOf(BookingsRepository.Get(bookings, hotelId, roomType, q, q + daysAhead)));
  }

  /** Rooms that two lists of stays leave alike are left alike, in midnights, by the first list in midnights. */
  lemma ScaledRooms(n: nat, h: Window, days: seq<Stay>, selected: seq<Stay>)
    requires ApplyAll(Fresh(n, h), days) == ApplyAll(Fresh(n, h), selected)
    ensures ApplyAll(Fresh(n, WindowAt(h)), StaysAt(days)) == RoomsAt(ApplyAll(Fresh(n, h), selected))
  {
    FreshAt(n, h);
    ApplyAllAt(Fresh(n, h), days);
  }

  /**
   * When the current instant is exactly midnight of day q, the legacy
   * Search computes the midnights of what the service computes for day q.
   */
  lemma MidnightMatchesService(hotel: Hotel, bookings: seq<Booking>, request: Application.SearchRequest, q: int)
    requires request.daysAhead > 0 && AvailabilityService.ProperBookings(bookings)
    ensures LegacyGroups(hotel, bookings, request, Midnight(q))
         == GroupsAt(AvailabilityService.SearchGroups(hotel, bookings, request.roomType, request.hotelId,
                                                      q, request.daysAhead))
  {
    MidnightRooms(hotel, bookings, request, q);
    var rooms := AvailabilityService.RoomsAfter(hotel, bookings, request.roomType, request.hotelId, q, request.daysAhead);
    FlattenAt(rooms);
    TallyAt(Flatten(rooms));
  }

  lemma GroupTextAt(e: RoomsAvailability)
    ensures GroupText(GroupAt(Group(Window(e.startDate, e.endDate), e.count))) == Application.SearchText(e)
  {
    assert DateOf(Midnight(e.startDate)) == e.startDate;
    assert DateOf(Midnight(e.endDate)) == e.endDate;
  }

  /**
   * At midnight the legacy Search prints exactly the line the service's
   * front end prints for the same request.
   */
  lemma MidnightSameLine(hotel: Hotel, bookings: seq<Booking>, request: Application.SearchRequest, q: Date)
    requires request.daysAhead > 0 && InRange(q + request.daysAhead) && AvailabilityService.ProperBookings(bookings)
    ensures 0 <= Midnight(q) <= MaxTicks && !Throws(hotel, request, Midnight(q))
    ensures LegacySearchLine(hotel, bookings, request, Midnight(q))
         == Application.SearchLine(AvailabilityService.SearchEntries(hotel, bookings, request.roomType, request.hotelId,
                                                                     q, request.daysAhead))
  {
    MidnightShift(q, request.daysAhead);
    MidnightMatchesService(hotel, bookings, request, q);
    LegacyGroupsInTicks(hotel, bookings, request, Midnight(q));
    var es := AvailabilityService.SearchEntries(hotel, bookings, request.roomType, request.hotelId, q, request.daysAhead);
    MidnightTexts(es, LegacyGroups(hotel, bookings, request, Midnight(q)));
  }

  /** Entries printed by the service's front end read the same as their midnights printed by the legacy program. */
  lemma MidnightTexts(es: seq<RoomsAvailability>, gs: seq<Group>)
    requires InTicks(gs) && gs == GroupsAt(AvailabilityService.GroupsOf(es))
    ensures GroupTexts(gs) == Application.SearchTexts(es)
  {
    forall i | 0 <= i < |es| ensures GroupTexts(gs)[i] == Application.SearchTexts(es)[i] {
      GroupTextAt(es[i]);
    }
  }

  // ----- A horizon that starts during the day -----

  lemma {:induction false} RoomsWithFresh(count: nat, horizon: Window, w: Window)
    ensures RoomsWith(Fresh(count, horizon), w) == if w == horizon then count else 0
    decreases count
  {
    if count > 0 {
      assert Fresh(count, horizon)[..count - 1] == Fresh(count - 1, horizon);
      RoomsWithFresh(count - 1, horizon, w);
    }
  }

  /** Stays that arrive before the horizon starts take nothing from fresh rooms. */
  lemma {:induction false} UntakenStaysInert(count: nat, horizon: Window, stays: seq<Stay>)
    requires forall i :: 0 <= i < |stays| ==> stays[i].arrival < horizon.from
    ensures ApplyAll(Fresh(count, horizon), stays) == Fresh(count, horizon)
    decreases |stays|
  {
    if |stays| > 0 {
      UntakenStaysInert(count, horizon, stays[..|stays| - 1]);
      StartsBeforeUntaken(horizon, stays[|stays| - 1]);
    }
  }

  lemma StartsBeforeUntaken(horizon: Window, s: Stay)
    requires s.arrival < horizon.from
    ensures StepRoom([horizon], s).None?
  {
  }

  /** Fresh rooms, grouped, are one group of the whole horizon counting every room. */
  lemma FreshGroups(n: nat, h: Window)
    requires n > 0 && h.from < h.to
    ensures Tally(Flatten(Fresh(n, h))) == [Group(h, n)]
  {
    var rooms := Fresh(n, h);
    FreshValid(n, h.from, h.to);
    var expected := [Group(h, n)];
    forall v ensures CountOf(Tally(Flatten(rooms)), v) == CountOf(expected, v) {
      CountIsRooms(rooms, v, h.from, h.to);
      RoomsWithFresh(n, h, v);
      assert CountOf(expected, v) == (if v == h then n else 0) + CountOf(expected[1..], v);
    }
    GroupingUnique(Tally(Flatten(rooms)), expected);
  }

  /**
   * With a current instant that is not midnight, bookings that cover the
   * whole horizon from today's date, one per room, take nothing: their
   * arrival (midnight) falls before the horizon's start and their departure
   * before its end, which none of the three window shapes accepts, so every
   * room is reported free over the whole horizon.
   */
  lemma MidDayBookingsIgnored(hotel: Hotel, bookings: seq<Booking>, request: Application.SearchRequest, now: int)
    requires 0 <= now && now % TicksPerDay != 0 && request.daysAhead > 0
    requires |AvailabilityService.RoomsOf(hotel, request.roomType)| > 0
    requires forall i :: 0 <= i < |bookings| ==>
               && bookings[i].hotelId == request.hotelId && bookings[i].roomType == request.roomType
               && bookings[i].arrival == now / TicksPerDay && bookings[i].departure == now / TicksPerDay + request.daysAhead
    ensures LegacyGroups(hotel, bookings, request, now)
         == [Group(Horizon(now, request.daysAhead), |AvailabilityService.RoomsOf(hotel, request.roomType)|)]
  {
    var n := |AvailabilityService.RoomsOf(hotel, request.roomType)|;
    var h := Horizon(now, request.daysAhead);
    var q := now / TicksPerDay;
    assert now == q * TicksPerDay + now % TicksPerDay;
    var d := Departing(bookings, request.hotelId, request.roomType, now);
    var stays := StaysAt(AvailabilityService.StaysOf(d));
    forall i | 0 <= i < |stays| ensures stays[i].arrival < h.from {
      assert d[i] in bookings;
    }
    UntakenStaysInert(n, h, stays);
    HorizonNonEmpty(now, request.daysAhead);
    FreshGroups(n, h);
  }
}
