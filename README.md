# Hotel room availability, modelled in Dafny

This project models the core of a command-line hotel room availability tool.
The tool reads hotels and bookings, then answers two commands typed on standard input:

- `Availability(H1, 20240901-20240903, DBL)`, several per line separated by two spaces,
  with an optional `ovb` flag that asks for overbooking. For each command it prints the
  free room count, or -1 when overbooking is allowed, or nothing.
- `Search(H1, 365, SGL)`. This prints the date ranges over the next days during which
  rooms of the type are free, with how many rooms share each range.

The model covers five pieces of the source:

- **Service and repositories.** `AvailabilityService` (availability_service.dfy) answers both
  commands over the two lookups, `HotelRepository.Get` (hotel_repository.dfy) and
  `BookingsRepository.Get` (bookings_repository.dfy).
- **Free-window engine** (free_windows.dfy). This is the room-by-room window subtraction
  inside `Search`, shared by both program versions. Its loops are methods proved equal to a
  fold over the bookings. The fold is shown to keep every room's windows non-empty, apart
  and inside the horizon, and to remove exactly the nights of each booking it takes.
- **Aggregation** (aggregation.dfy). This is the GroupBy/OrderBy stage. It is proved to
  give one sorted entry per distinct window, whose count is the number of rooms holding that
  window, and to be the only such grouping.
- **Command layer** (application.dfy). It parses and prints commands, using the .NET string
  and number conversions in text.dfy and the `yyyyMMdd` date format in calendar.dfy. Round
  trips are proved: printed commands, requests, dates and numbers all parse back.
- **The first version of the program** (legacy_program.dfy). `Program.cs` handles the same
  two commands inline. Its boundary choices differ from the service's:
  - a strict overlap test in Availability;
  - no arrival bound in Search;
  - a Search horizon that starts at the current instant, including the time of day;
  - a looser arity check in Search.

  Each difference is stated as a lemma that compares the two versions.

Dates are day numbers counted from 0001-01-01, bounded by DateTime's range. Because the
legacy Search keeps the time of day, it runs on DateTime ticks. day_ticks.dfy proves that
the engine and the grouping commute with scaling days to midnights. This lets the two
versions be compared exactly.

## Model

| member | source | states |
|---|---|---|
| HotelRepository.Get | src/HotelRoomAvailability/Repositories/HotelRepository.cs:12-13 | A returned hotel has the requested id. |
| HotelRepository.GetFinds | src/HotelRoomAvailability/Repositories/HotelRepository.cs:12-13 | The lookup finds a hotel exactly when some stored hotel has the id, and it returns one of the stored hotels. |
| HotelRepository.GetIsFirst | src/HotelRoomAvailability/Repositories/HotelRepository.cs:13 | The hotel returned is the first one with the id, in stored order. |
| HotelRepository.LaterDuplicateHidden | src/HotelRoomAvailability/Repositories/HotelRepository.cs:13 | A later hotel with the same id is never returned unless it equals the first one. |
| BookingsRepository.GetSelects | src/HotelRoomAvailability/Repositories/BookingsRepository.cs:12-15 | A booking is returned exactly when it is stored and matches on hotel, type, `Arrival <= endDate` and `Departure > startDate`. The result is a subsequence of the stored list. |
| BookingsRepository.GetCounts | src/HotelRoomAvailability/Repositories/BookingsRepository.cs:13-15 | A selected booking is returned as many times as it is stored; any other booking is not returned. |
| BookingsRepository.SingleDay | src/HotelRoomAvailability/Repositories/BookingsRepository.cs:15 | For a single day D the filter keeps exactly the bookings with `Arrival <= D < Departure`. A booking arriving on D is kept; one departing on D is not. |
| BookingsRepository.WideningKeeps | src/HotelRoomAvailability/Repositories/BookingsRepository.cs:15 | Widening the range never removes a booking, and the order is kept. |
| BookingsRepository.GetAppend | src/HotelRoomAvailability/Repositories/BookingsRepository.cs:13-15 | A booking stored last is returned last, exactly when the filter selects it. |
| BookingsRepository.GetAllSelected | src/HotelRoomAvailability/Repositories/BookingsRepository.cs:13-15 | When every stored booking is selected, all of them are returned, in order. |
| AvailabilityService.OfType | src/HotelRoomAvailability/Services/AvailabilityService.cs:25 | The rooms counted are exactly the hotel's rooms of the requested type. |
| AvailabilityService.OfTypeCounts | src/HotelRoomAvailability/Services/AvailabilityService.cs:25 | Each room of the requested type is kept as many times as the hotel lists it; a room of another type is never kept. |
| AvailabilityService.AvailableCount | src/HotelRoomAvailability/Services/AvailabilityService.cs:29-32 | The count the service computes is never 0. |
| AvailabilityService.Decide | src/HotelRoomAvailability/Services/AvailabilityService.cs:18-51 | A command has the hotel-not-found outcome exactly when its hotel is unknown. An entry carries the command's start and end dates and a count other than 0. |
| AvailabilityService.DecideCount | src/HotelRoomAvailability/Services/AvailabilityService.cs:25-32 | A positive difference between rooms of the type and bookings over the range is reported as that difference. Otherwise the command emits -1 exactly when a room type with that code allows overbooking and the command asks for it, and emits nothing else. A null room list counts as no difference. |
| AvailabilityService.EntriesAppend | src/HotelRoomAvailability/Services/AvailabilityService.cs:16-54 | Entries keep command order: the entries of two batches are the entries of the first, then those of the second. |
| AvailabilityService.EntriesFromCommands | src/HotelRoomAvailability/Services/AvailabilityService.cs:34-53 | Every entry comes from some command, carries its dates and has a count other than 0. There are never more entries than commands. |
| AvailabilityService.Availability | src/HotelRoomAvailability/Services/AvailabilityService.cs:12-57 | An unknown hotel in any command empties the whole result, including entries of earlier commands. Otherwise the result is each command's entry, in order. |
| AvailabilityService.ExtraBookingNeverRaises | src/HotelRoomAvailability/Services/AvailabilityService.cs:25-30 | One more stored booking never raises a positive count. |
| AvailabilityService.ToEntries | src/HotelRoomAvailability/Services/AvailabilityService.cs:122-127 | Converting groups to entries loses nothing: reading the entries back gives the same groups. |
| AvailabilityService.SameBookingsAtTicks | src/HotelRoomAvailability/Services/AvailabilityService.cs:68-75 | The bookings filter applied with DateTime.Now and Now plus daysAhead days selects what it selects with today's date and that date daysAhead days later. |
| AvailabilityService.DayInRange | src/HotelRoomAvailability/Services/AvailabilityService.cs:72 | When Now plus daysAhead days is a valid DateTime, so is today's date plus daysAhead days. |
| AvailabilityService.SearchEntries | src/HotelRoomAvailability/Services/AvailabilityService.cs:111-128 | The entries of Search, read back as groups, are the grouped remaining windows. |
| AvailabilityService.SearchHotel | src/HotelRoomAvailability/Services/AvailabilityService.cs:68-128 | For a known hotel, the call throws exactly when the horizon leaves DateTime's range. Otherwise it returns the grouped windows left after subtracting, from today's date, the bookings the repository selects. |
| AvailabilityService.Search | src/HotelRoomAvailability/Services/AvailabilityService.cs:59-129 | An unknown hotel gives no entries. The call throws exactly when the horizon leaves DateTime's range. Otherwise the entries are sorted by start then end, their counts are positive, and they equal the grouped remaining windows. |
| AvailabilityService.SearchCountsRooms | src/HotelRoomAvailability/Services/AvailabilityService.cs:77-128 | With a positive day count and proper bookings, every room's windows end non-empty, apart and inside the horizon. Each entry's count is the number of rooms that have that window. |
| AvailabilityService.FullHorizonBookingsLeaveNothing | src/HotelRoomAvailability/Services/AvailabilityService.cs:77-128 | One full-horizon booking per room from today's date leaves no entry. |
| FreeWindows.FirstFitting | src/HotelRoomAvailability/Services/AvailabilityService.cs:81-98 | FirstOrDefault returns the first window of the given shape, or None exactly when no window has the shape. |
| FreeWindows.RemoveAppended | src/HotelRoomAvailability/Services/AvailabilityService.cs:92-94 | Adding windows and then removing an old one is the same as removing it first and then adding. |
| FreeWindows.StepRoomNone | src/HotelRoomAvailability/Services/AvailabilityService.cs:81-107 | A room takes a booking exactly when one of its windows has one of the three shapes. |
| FreeWindows.StepRoomSubtracts | src/HotelRoomAvailability/Services/AvailabilityService.cs:81-107 | When a room takes a booking, exactly one of its windows is replaced, by the plain interval difference of that window and the stay. |
| FreeWindows.ExactFirst | src/HotelRoomAvailability/Services/AvailabilityService.cs:81-86 | An exactly equal window takes precedence and is removed, with nothing added. |
| FreeWindows.LeftTrimSecond | src/HotelRoomAvailability/Services/AvailabilityService.cs:89-96 | Without an exact window, the first window starting on the arrival and ending after the departure becomes `[departure, to]`. |
| FreeWindows.InteriorThird | src/HotelRoomAvailability/Services/AvailabilityService.cs:98-107 | With neither of the first two shapes, the first window strictly containing the stay becomes `[from, arrival]` and `[departure, to]`. |
| FreeWindows.FirstTakingRoom | src/HotelRoomAvailability/Services/AvailabilityService.cs:79-108 | The chosen room is the first, in room order, that takes the stay. None means no room takes it. |
| FreeWindows.ApplyBookingTakesFirst | src/HotelRoomAvailability/Services/AvailabilityService.cs:79-108 | A booking changes at most one room: the first that can take it. That room then holds what the step leaves, and no other room changes. |
| FreeWindows.Fresh | src/HotelRoomAvailability/Services/AvailabilityService.cs:70-73 | Every room of the type starts with the single window of the horizon. |
| FreeWindows.TryRoom | src/HotelRoomAvailability/Services/AvailabilityService.cs:81-107 | One room's three probes: the room is taken exactly when a shape fits, and its new window list is the step's. |
| FreeWindows.Book | src/HotelRoomAvailability/Services/AvailabilityService.cs:79-108 | The inner loop with its break applies one booking as the specification fold does. |
| FreeWindows.SubtractBookings | src/HotelRoomAvailability/Services/AvailabilityService.cs:77-109 | The nested loops give the rooms that the fold over the bookings, in order, gives. |
| FreeWindows.FreshValid | src/HotelRoomAvailability/Services/AvailabilityService.cs:70-73 | Fresh rooms satisfy the room invariant over a non-empty horizon. |
| FreeWindows.StepRoomValid | src/HotelRoomAvailability/Services/AvailabilityService.cs:81-107 | With arrival before departure, a step keeps a room's windows non-empty, inside the horizon and pairwise apart. |
| FreeWindows.ApplyBookingValid | src/HotelRoomAvailability/Services/AvailabilityService.cs:79-108 | Applying one proper booking keeps the invariant in every room. |
| FreeWindows.ApplyAllValid | src/HotelRoomAvailability/Services/AvailabilityService.cs:77-109 | The invariant holds after any sequence of proper bookings. |
| FreeWindows.StepRoomTakesNights | src/HotelRoomAvailability/Services/AvailabilityService.cs:81-107 | A room that takes a stay loses exactly its nights. A night is free afterwards if and only if it was free before and the stay does not cover it. |
| FreeWindows.RightAlignedIgnored | src/HotelRoomAvailability/Services/AvailabilityService.cs:81-107 | A stay ending at a window's end but starting inside it matches no shape. The room keeps it, so its nights are still shown free. |
| FreeWindows.UntouchingInert | src/HotelRoomAvailability/Services/AvailabilityService.cs:75-108 | A proper booking that does not touch the horizon changes no room. |
| FreeWindows.OnlyTouchingMatter | src/HotelRoomAvailability/Program.cs:270-305 | Filtering out bookings that do not touch the horizon, before subtracting, gives the same rooms. |
| FreeWindows.FilteredStaysAgree | src/HotelRoomAvailability/Program.cs:270-305 | The same, for fresh rooms and the filtered list given explicitly. |
| FreeWindows.StepRoomEndsWithin | src/HotelRoomAvailability/Services/AvailabilityService.cs:81-107 | A step only builds windows from the old window's ends and the stay's ends, so they never leave a range that holds both. |
| FreeWindows.ApplyAllEndsWithin | src/HotelRoomAvailability/Services/AvailabilityService.cs:77-109 | The same, across all rooms and all bookings. |
| FreeWindows.FullStaysFillRooms | src/HotelRoomAvailability/Services/AvailabilityService.cs:77-109 | j identical full-horizon stays empty the first j rooms and leave the others fresh. |
| FreeWindows.FullStaysLeaveNothing | src/HotelRoomAvailability/Services/AvailabilityService.cs:77-112 | One full-horizon stay per room leaves no window at all. |
| Aggregation.Insert | src/HotelRoomAvailability/Services/AvailabilityService.cs:113-121 | Adding one window to a sorted grouping with positive counts keeps it sorted, with positive counts. |
| Aggregation.InsertCounts | src/HotelRoomAvailability/Services/AvailabilityService.cs:113-118 | Inserting counts exactly one more occurrence of the window and changes no other count. |
| Aggregation.Tally | src/HotelRoomAvailability/Services/AvailabilityService.cs:111-121 | There is one entry per distinct window, sorted by start then end, with a positive count equal to how often the window occurs. The counts add up to the number of windows. |
| Aggregation.GroupingUnique | src/HotelRoomAvailability/Services/AvailabilityService.cs:113-121 | Two sorted groupings with positive counts that agree on every count are equal, so any way of grouping and ordering gives the result of Tally. |
| Aggregation.CountIsRooms | src/HotelRoomAvailability/Services/AvailabilityService.cs:111-118 | Under the room invariant, the count of a window is the number of rooms that hold it. |
| DayTicks.MidnightShift | src/HotelRoomAvailability/Program.cs:267 | Midnight of d days later is d days' worth of ticks later, as AddDays computes it. |
| DayTicks.FitsAt | src/HotelRoomAvailability/Program.cs:277-294 | Each window shape fits a stay in ticks exactly when it fits in days. |
| DayTicks.BeforeAt | src/HotelRoomAvailability/Program.cs:314-315 | The start-then-end order of windows is the same in ticks as in days. |
| DayTicks.FirstFittingAt | src/HotelRoomAvailability/Program.cs:277-294 | The three FirstOrDefault probes find the midnights of what they find in days. |
| DayTicks.StepRoomAt | src/HotelRoomAvailability/Program.cs:277-303 | One room's step in ticks is the midnights of its step in days. |
| DayTicks.FirstTakingRoomAt | src/HotelRoomAvailability/Program.cs:275-304 | The same room takes a stay in ticks as in days. |
| DayTicks.ApplyBookingAt | src/HotelRoomAvailability/Program.cs:275-304 | One booking applied in ticks gives the midnights of the rooms it gives in days. |
| DayTicks.ApplyAllAt | src/HotelRoomAvailability/Program.cs:273-305 | All bookings applied in ticks give the midnights of the rooms they give in days. |
| DayTicks.FreshAt | src/HotelRoomAvailability/Program.cs:265-268 | Fresh rooms over a horizon of midnights are the midnights of the fresh rooms. |
| DayTicks.FlattenAt | src/HotelRoomAvailability/Program.cs:307-308 | SelectMany commutes with scaling to midnights. |
| DayTicks.InsertAt | src/HotelRoomAvailability/Program.cs:309-315 | Inserting a window's midnight into a grouping of midnights gives the midnights of the grouping after insertion. |
| DayTicks.TallyAt | src/HotelRoomAvailability/Program.cs:307-315 | Grouping midnights gives the midnights of the grouping, with the same counts in the same order. |
| Text.Trim | src/HotelRoomAvailability/Application.cs:123-124 | String.Trim's result neither starts nor ends with white space. |
| Text.TrimByIsSlice | src/HotelRoomAvailability/Application.cs:123-124 | A trim removes only white space, and only from the two ends: the result is a slice of the input. |
| Text.TrimUntouched | src/HotelRoomAvailability/Application.cs:123-124 | A text that does not start or end with white space is its own trim. |
| Text.SplitOnAnyPiecesPlain | src/HotelRoomAvailability/Application.cs:116 | No piece of a split on separator characters holds a separator. |
| Text.SplitOnAnyTerminated | src/HotelRoomAvailability/Application.cs:116 | Splitting plain fields, each followed by a separator, gives the fields back, then an empty piece. |
| Text.RemoveEmpty | src/HotelRoomAvailability/Application.cs:116 | RemoveEmptyEntries keeps only non-empty pieces; each non-empty piece is kept as many times as it occurs, and the empty piece never. |
| Text.RemoveEmptyAppend | src/HotelRoomAvailability/Application.cs:116 | RemoveEmptyEntries works piece by piece over a concatenation, so the kept pieces stay in the input's order. |
| Text.RemoveEmptyKeeps | src/HotelRoomAvailability/Application.cs:116 | Removing empty entries drops only a trailing empty piece after non-empty pieces. |
| Text.JoinSplitOnString | src/HotelRoomAvailability/Application.cs:110 | Splitting on the two-space separator loses nothing: joining the pieces with it gives the input back. |
| Text.JoinSplitOnChar | src/HotelRoomAvailability/Application.cs:128 | Splitting on '-' loses nothing: joining the pieces with '-' gives the input back. |
| Text.DigitsValueNatToString | src/HotelRoomAvailability/Application.cs:156-157 | A printed non-negative count is a string of digits whose value is the count. |
| Text.ParseInt32 | src/HotelRoomAvailability/Application.cs:175 | int.TryParse only ever yields a 32-bit value. |
| Text.ParseInt32IntToString | src/HotelRoomAvailability/Application.cs:175 | Every 32-bit value prints as text that int.TryParse reads back to the value. |
| Text.ParseInt32TrailingNul | src/HotelRoomAvailability/Application.cs:175 | int.TryParse reads a number followed by a NUL character as the number alone, since String.Trim leaves NUL in place and the parser accepts trailing NULs. |
| Calendar.CivilOfSpec | src/HotelRoomAvailability/Application.cs:156-157 | The calendar date of a day number lies in the year and month that hold the day, and numbers back to it. |
| Calendar.CivilOfDayNumber | src/HotelRoomAvailability/Application.cs:130-131 | Day numbers name valid calendar dates one to one. |
| Calendar.DaysBeforeYearClosed | src/HotelRoomAvailability/Application.cs:130-131 | The days before a year follow the Gregorian leap rule: 365 a year, plus one for each year divisible by 4, except centuries not divisible by 400. |
| Calendar.Format | src/HotelRoomAvailability/Application.cs:156-157 | `ToString("yyyyMMdd")` prints eight digits. |
| Calendar.Parse | src/HotelRoomAvailability/Application.cs:130-131 | `TryParseExact(.., "yyyyMMdd", ..)` accepts only eight digits. |
| Calendar.ParseFormat | src/HotelRoomAvailability/Application.cs:130-131 | Every printed date reads back as the same date. |
| Calendar.FormatParse | src/HotelRoomAvailability/Application.cs:130-131 | Every accepted date text is the printed form of the date it denotes. |
| Application.DateTexts | src/HotelRoomAvailability/Application.cs:128 | A date part without '-' gives the same text for both dates. |
| Application.DateTextsCut | src/HotelRoomAvailability/Application.cs:128 | In a date part with a '-', the start date's text is what precedes the first '-', and the end date's text is what follows it up to the next '-' or the end. |
| Application.ReadDates | src/HotelRoomAvailability/Application.cs:128-135 | The dates read exactly when both trimmed texts parse as yyyyMMdd, and then they are those parsed dates. A date part without '-' gives StartDate == EndDate. |
| Application.ParseParts | src/HotelRoomAvailability/Application.cs:116-144 | The format is invalid exactly when there are not four or five parts. Otherwise the date format is invalid exactly when the date part does not read. On success, HotelId is part 1 trimmed and RoomType is part 3 trimmed. The dates are those the date part reads. Overbooking is allowed exactly when there is a fifth part equal to "ovb" ignoring case after trimming. |
| Application.ParseEach | src/HotelRoomAvailability/Application.cs:114-146 | One command per piece, in piece order, when every piece parses. Otherwise the result is the error of the first piece that does not parse. |
| Application.ParseAvailabilityCommands | src/HotelRoomAvailability/Application.cs:108-149 | The same, over the line split on two spaces with empty pieces dropped. |
| Application.SearchFields | src/HotelRoomAvailability/Application.cs:174-183 | Hotel and room type are parts 1 and 3 trimmed. The day count is part 2 read by int.TryParse; if it does not read, the error is the invalid number of days. |
| Application.ParseSearchCommand | src/HotelRoomAvailability/Application.cs:165-184 | The format is invalid exactly when there are not four parts. A parsed day count fits 32 bits. |
| Application.HandleAvailabilityCommands | src/HotelRoomAvailability/Application.cs:151-163 | The printed line is the service's entries joined by ", ". It is empty when a hotel is unknown. |
| Application.RunAvailability | src/HotelRoomAvailability/Application.cs:27-30 | A line with a bad piece prints an empty line. Otherwise the line printed is that of its commands. |
| Application.HandleSearchCommand | src/HotelRoomAvailability/Application.cs:186-196 | An unknown hotel prints an empty line. Otherwise the call throws exactly when the horizon leaves DateTime's range, and prints the entries of Search. |
| Application.DateRangeReadsBack | src/HotelRoomAvailability/Application.cs:155-157 | The date text printed for an entry, one date or `start-end`, is read back by the command parser as the entry's dates. |
| Application.PieceRoundTrip | src/HotelRoomAvailability/Application.cs:116-144 | Every command whose hotel id and room type are plain reads back unchanged from its text, with or without `ovb`. |
| Application.RequestRoundTrip | src/HotelRoomAvailability/Application.cs:165-184 | Every Search request with plain names and a 32-bit day count reads back unchanged from its text. |
| LegacyProgram.StrictOverlapCount | src/HotelRoomAvailability/Program.cs:212-216 | The legacy count sees every booking the service counts, except those arriving on the end date. |
| LegacyProgram.LegacyDecide | src/HotelRoomAvailability/Program.cs:201-229 | An unknown hotel is its own outcome. An entry carries the command's dates and a count other than 0. |
| LegacyProgram.LegacyDecideAgrees | src/HotelRoomAvailability/Program.cs:212-229 | With no booking arriving on the end date, the legacy program decides as the service does. Otherwise it reports at least as many free rooms whenever the service reports some. |
| LegacyProgram.LegacyEntriesAgree | src/HotelRoomAvailability/Program.cs:201-230 | Without such bookings, the legacy entries are the service's. |
| LegacyProgram.SingleDayMissed | src/HotelRoomAvailability/Program.cs:215 | A booking from day d to d + 1 and a single-day command for d: the legacy program reports the room free, while the service reports nothing. |
| LegacyProgram.CommandResult | src/HotelRoomAvailability/Program.cs:210-229 | One command's turn in the second loop adds the text of its entry, or nothing. |
| LegacyProgram.HandleCommands | src/HotelRoomAvailability/Program.cs:199-235 | An unknown hotel prints "Hotel not found." and no result line. Otherwise the entries are printed as one line, in command order. |
| LegacyProgram.HandleAvailability | src/HotelRoomAvailability/Program.cs:166-236 | The first piece that does not parse prints its message and nothing else. Otherwise the commands are handled as above. |
| LegacyProgram.ParseSearch | src/HotelRoomAvailability/Program.cs:240-252 | Fewer than four parts is rejected. From four parts on, the first four are read as the service's front end reads its fields and the rest are ignored. Four parts parse as the service's front end parses them. More than four are accepted where the service's front end rejects them. |
| LegacyProgram.Departing | src/HotelRoomAvailability/Program.cs:270-271 | A booking is kept exactly when it is stored and is of the hotel and type and departs after the current instant. |
| LegacyProgram.DepartingCounts | src/HotelRoomAvailability/Program.cs:270-271 | Each selected booking is kept as many times as it is stored; no other booking is kept. |
| LegacyProgram.LegacyGroupsInTicks | src/HotelRoomAvailability/Program.cs:263-317 | Unless it throws, the legacy Search only builds windows inside DateTime's range. |
| LegacyProgram.HandleSearch | src/HotelRoomAvailability/Program.cs:238-323 | A bad command or an unknown hotel prints its message. Building a horizon beyond DateTime's range throws. Otherwise the grouped windows are printed as one line. |
| LegacyProgram.LegacyArrivalBoundIrrelevant | src/HotelRoomAvailability/Program.cs:270-271 | With a positive day count and proper bookings, adding the service's arrival bound to the legacy filter changes nothing. |
| LegacyProgram.DepartingThenTouching | src/HotelRoomAvailability/Program.cs:270-271 | At a midnight, the legacy filter followed by the horizon test keeps what the repository returns, in order. |
| LegacyProgram.DepartingSubtractsAsSelected | src/HotelRoomAvailability/Program.cs:270-305 | For a horizon of whole days, the bookings leaving after its first midnight take from the rooms what the repository's bookings take. |
| LegacyProgram.MidnightRooms | src/HotelRoomAvailability/Program.cs:263-305 | At midnight of day q, the legacy rooms are the midnights of the service's rooms for day q. |
| LegacyProgram.MidnightMatchesService | src/HotelRoomAvailability/Program.cs:263-317 | At midnight, the legacy grouping is the midnights of the service's grouping. |
| LegacyProgram.MidnightSameLine | src/HotelRoomAvailability/Program.cs:263-322 | At midnight, the legacy Search prints exactly the line the service's front end prints for the same request. |
| LegacyProgram.MidnightTexts | src/HotelRoomAvailability/Program.cs:316 | Entries printed by the service's front end read the same as their midnights printed by the legacy program. |
| LegacyProgram.MidDayBookingsIgnored | src/HotelRoomAvailability/Program.cs:263-305 | When the current instant is not midnight, full-horizon bookings from today's date take nothing, and every room is reported free over the whole horizon. |

## Left out

- Console input and output. The read loop, the argument and file checks (`ParseArgs`, the start of `Main`) and JSON loading are not modelled. Hotels and bookings are given as sequences; printed lines are returned as strings.
- The messages the service prints (hotel not found, invalid format, invalid date, invalid number of days) are not modelled, except in the legacy program. The service's front end is modelled by the lines it prints as results.
- Dependency injection, logging, the memory cache, async enumeration and the JSON date converter are not modelled: they are plumbing with no logic to verify. `CustomDateFormatConverter.cs` is not part of this model; its `yyyyMMdd` format is modelled in calendar.dfy.
- `DateTime.Now` is not modelled; it is a parameter, `now`, in ticks. The service uses its date; the legacy Search uses the instant itself.
- Text.EqualsIgnoreCase: compares with ASCII case folding. Other culture-specific case rules of `CurrentCultureIgnoreCase` are not modelled.
- Calendar.Parse: assumes the invariant Gregorian calendar. Culture-specific calendars of `TryParseExact` with a null provider are not modelled.
- Calendar.Format: assumes the invariant Gregorian calendar. `ToString("yyyyMMdd")` in Application.cs:156-157 and Program.cs:219-228 and 316 uses the current culture's calendar, which is not modelled.
- Text.IntToString: assumes the invariant culture's "-" sign. The current culture's negative sign used by `{-1}` and `ToString()` (Application.cs:156-157, Program.cs:219-228) is not modelled.
- Text.ParseInt32: assumes the invariant culture's "-" and "+" signs. The current culture's sign strings accepted by `int.TryParse` are not modelled.
- Strings are sequences of Unicode scalar values, while .NET strings hold UTF-16 code units. Surrogate pairs are not modelled; no separator, digit or white-space character is one.
- Null hotel ids, room types and dates in the data are not modelled; strings are never null. The nullable room and room-type lists are modelled as `Option`.
- The overlap test of the service's Availability follows the code (`Arrival <= EndDate` through `BookingsRepository.Get`). The legacy program uses a strict test instead (Program.cs:215).
- Integer overflow of `roomsCount - bookedRoomsCount` is not modelled. Counts are unbounded integers; both operands are collection sizes well below 2^31.
- Room ids are carried in the data but never affect a result.

## Findings

| source | as written | input that shows it | evidently intended | confidence | as-written member | corrected member |
|---|---|---|---|---|---|---|
| src/HotelRoomAvailability/Program.cs:215 | The legacy booked count requires `Arrival < EndDate`. | One room, one booking from day d to d + 1, and the command `Availability(H1, d, SGL)`. The booking is missed and the room is reported free. | A booking arriving on the single requested day occupies it (`Arrival <= EndDate`), as in BookingsRepository.cs:15. | medium, not executed | LegacyProgram.SingleDayMissed | BookingsRepository.SingleDay |
| src/HotelRoomAvailability/Program.cs:263-267 | The Search horizon starts at `DateTime.Now`, with the time of day. | Two DBL rooms, two bookings from today to today + 15, `Search(H1, 15, DBL)`, run at any time other than midnight. No shape matches, so the whole horizon is reported free for both rooms. The test at Program.Tests.cs:177-213 expects an empty line. | The horizon starts at today's date, as in AvailabilityService.cs:72. Full-horizon bookings then leave nothing. | high, not executed | LegacyProgram.MidDayBookingsIgnored | AvailabilityService.FullHorizonBookingsLeaveNothing |
