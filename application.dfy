/**
 * Application: the command-line front end of the service. It reads an
 * Availability line into commands and a Search line into a request, calls
 * the service, and prints the entries as one line.
 */
module Application {
  import opened Wrappers
  import opened Calendar
  import opened Text
  import opened Models
  import HotelRepository
  import AvailabilityService

  const AvailabilityName: string := "Availability"
  const SearchName: string := "Search"
  const OverbookingFlag: string := "ovb"

  /** The characters a command is split on. */
  const Separators: set<char> := {'(', ',', ')'}

  /** The separator between the commands of one Availability line. */
  const PieceSeparator: string := "  "

  /** Why a line was rejected; each reason is printed as its message. */
  datatype ParseError = InvalidCommandFormat | InvalidDateFormat | InvalidNumberOfDays

  function Message(e: ParseError): string
  {
    match e
    case InvalidCommandFormat => "Invalid command format."
    case InvalidDateFormat => "Invalid date format."
    case InvalidNumberOfDays => "Invalid number of days."
  }

  /** The parts of a command, empty ones removed. */
  function Parts(text: string): seq<string>
  {
    SplitOnAnyRemovingEmpty(text, Separators)
  }

  /** The texts of the two dates of a date part: "start-end" split on '-', or the one date twice. */
  function DateTexts(part: string): (r: seq<string>)
    ensures |r| >= 2
    ensures '-' !in part ==> r[0] == r[1]
  {
    if '-' in part then
      var k :| 0 <= k < |part| && part[k] == '-';
      SplitOnAnyBreaks(part, {'-'}, k);
      SplitOnAny(part, {'-'})
    else [part, part]
  }

  /** The two dates of a date part, each trimmed and read as yyyyMMdd; None if either does not read. */
  function ReadDates(part: string): (r: Option<(Date, Date)>)
    ensures r.None? <==> Parse(Trim(DateTexts(part)[0])).None? || Parse(Trim(DateTexts(part)[1])).None?
    ensures r.Some? ==>
              && Parse(Trim(DateTexts(part)[0])) == Some(r.value.0)
              && Parse(Trim(DateTexts(part)[1])) == Some(r.value.1)
    ensures '-' !in part && r.Some? ==> r.value.0 == r.value.1
  {
    var dates := DateTexts(part);
    match (Parse(Trim(dates[0])), Parse(Trim(dates[1])))
    case (Some(startDate), Some(endDate)) => Some((startDate, endDate))
    case _ => None
  }

  /**
   * The parts of one command of an Availability line: four or five parts
   * (name, hotel, dates, room type and an optional overbooking flag),
   * otherwise the format is invalid; both dates must read as yyyyMMdd.
   */
  function ParseParts(parts: seq<string>): (r: Result<RoomAvailabilityCommand, ParseError>)
    ensures r == Failure(InvalidCommandFormat) <==> !(4 <= |parts| <= 5)
    ensures r.Success? ==>
              && r.value.hotelId == Trim(parts[1])
              && r.value.roomType == Trim(parts[3])
              && (r.value.allowOverbooking <==> |parts| == 5 && EqualsIgnoreCase(Trim(parts[4]), OverbookingFlag))
              && ReadDates(parts[2]) == Some((r.value.startDate, r.value.endDate))
              && ('-' !in parts[2] ==> r.value.startDate == r.value.endDate)
    ensures 4 <= |parts| <= 5 ==> (r == Failure(InvalidDateFormat) <==> ReadDates(parts[2]).None?)
  {
    if |parts| < 4 || |parts| > 5 then Failure(InvalidCommandFormat)
    else
      var hotelId := Trim(parts[1]);
      var roomType := Trim(parts[3]);
      var overbooking := |parts| == 5 && EqualsIgnoreCase(Trim(parts[4]), OverbookingFlag);
      match ReadDates(parts[2])
      case Some((startDate, endDate)) =>
        Success(RoomAvailabilityCommand(hotelId, startDate, endDate, roomType, overbooking))
      case None => Failure(InvalidDateFormat)
  }

  /** One command of an Availability line. */
  function ParsePiece(piece: string): Result<RoomAvailabilityCommand, ParseError>
  {
    ParseParts(Parts(piece))
  }

  /** The commands of an Availability line: split on the double space, empty pieces dropped. */
  function Pieces(input: string): seq<string>
  {
    RemoveEmpty(SplitOnString(input, PieceSeparator))
  }

  /**
   * The loop of ParseAvailabilityCommands, with the reading of one piece as
   * a parameter: one command per piece, in piece order; the first piece
   * that does not parse rejects the whole line with its error.
   */
  method ParseEach(availabilities: seq<string>, parse: string -> Result<RoomAvailabilityCommand, ParseError>)
    returns (r: Result<seq<RoomAvailabilityCommand>, ParseError>)
    ensures r.Success? <==> forall i :: 0 <= i < |availabilities| ==> parse(availabilities[i]).Success?
    ensures r.Success? ==> |r.value| == |availabilities|
                           && forall i :: 0 <= i < |availabilities| ==> r.value[i] == parse(availabilities[i]).value
    ensures r.Failure? ==> exists i :: 0 <= i < |availabilities| && parse(availabilities[i]) == Failure(r.error)
                                       && forall j :: 0 <= j < i ==> parse(availabilities[j]).Success?
  {
    var commands: seq<RoomAvailabilityCommand> := [];
    for i := 0 to |availabilities|
      invariant |commands| == i
      invariant forall j :: 0 <= j < i ==> parse(availabilities[j]).Success?
                                           && commands[j] == parse(availabilities[j]).value
    {
      var parsed := parse(availabilities[i]);
      if parsed.Failure? {
        return Failure(parsed.error);
      }
      commands := commands + [parsed.value];
    }
    return Success(commands);
  }

  /** ParseAvailabilityCommands: the line split into pieces, each read as a command. */
  method ParseAvailabilityCommands(input: string) returns (r: Result<seq<RoomAvailabilityCommand>, ParseError>)
    ensures r.Success? <==> forall i :: 0 <= i < |Pieces(input)| ==> ParsePiece(Pieces(input)[i]).Success?
    ensures r.Success? ==> |r.value| == |Pieces(input)|
                           && forall i :: 0 <= i < |Pieces(input)| ==> r.value[i] == ParsePiece(Pieces(input)[i]).value
    ensures r.Failure? ==> exists i :: 0 <= i < |Pieces(input)| && ParsePiece(Pieces(input)[i]) == Failure(r.error)
                                       && forall j :: 0 <= j < i ==> ParsePiece(Pieces(input)[j]).Success?
  {
    r := ParseEach(Pieces(input), ParsePiece);
  }

  /** What a Search line asks for. */
  datatype SearchRequest = SearchRequest(roomType: string, hotelId: string, daysAhead: int)

  /** The fields of a Search command once its arity is accepted: hotel, day count, room type. */
  function SearchFields(parts: seq<string>): (r: Result<SearchRequest, ParseError>)
    requires |parts| >= 4
    ensures r.Success? <==> ParseInt32(Trim(parts[2])).Some?
    ensures r.Success? ==> r.value == SearchRequest(Trim(parts[3]), Trim(parts[1]), ParseInt32(Trim(parts[2])).value)
    ensures r.Failure? ==> r.error == InvalidNumberOfDays
  {
    var hotelId := Trim(parts[1]);
    match ParseInt32(Trim(parts[2]))
    case None => Failure(InvalidNumberOfDays)
    case Some(daysAhead) => Success(SearchRequest(Trim(parts[3]), hotelId, daysAhead))
  }

  /** ParseSearchCommand: exactly four parts and a 32-bit day count; any failure means no request. */
  function ParseSearchCommand(input: string): (r: Result<SearchRequest, ParseError>)
    ensures r == Failure(InvalidCommandFormat) <==> |Parts(input)| != 4
    ensures r.Success? ==> MinInt32 <= r.value.daysAhead <= MaxInt32
  {
    var parts := Parts(input);
    if |parts| != 4 then Failure(InvalidCommandFormat) else SearchFields(parts)
  }

  // ----- Output -----

  /** The dates of an entry: one date when both are the same, else "start-end". */
  function DateRangeText(startDate: Date, endDate: Date): string
  {
    if startDate == endDate then Format(startDate) else Format(startDate) + "-" + Format(endDate)
  }

  function AvailabilityText(r: RoomsAvailability): string
  {
    "(" + DateRangeText(r.startDate, r.endDate) + "," + IntToString(r.count) + ")"
  }

  function SearchText(r: RoomsAvailability): string
  {
    "(" + Format(r.startDate) + "-" + Format(r.endDate) + "," + IntToString(r.count) + ")"
  }

  function AvailabilityTexts(rs: seq<RoomsAvailability>): (r: seq<string>)
    ensures |r| == |rs| && forall i :: 0 <= i < |rs| ==> r[i] == AvailabilityText(rs[i])
  {
    seq(|rs|, i requires 0 <= i < |rs| => AvailabilityText(rs[i]))
  }

  lemma AvailabilityTextsAppend(rs: seq<RoomsAvailability>, r: RoomsAvailability)
    ensures AvailabilityTexts(rs + [r]) == AvailabilityTexts(rs) + [AvailabilityText(r)]
  {
  }

  function SearchTexts(rs: seq<RoomsAvailability>): (r: seq<string>)
    ensures |r| == |rs| && forall i :: 0 <= i < |rs| ==> r[i] == SearchText(rs[i])
  {
    seq(|rs|, i requires 0 <= i < |rs| => SearchText(rs[i]))
  }

  /** The entries printed side by side, separated by ", ". */
  function AvailabilityLine(rs: seq<RoomsAvailability>): string
  {
    Join(AvailabilityTexts(rs), ", ")
  }

  function SearchLine(rs: seq<RoomsAvailability>): string
  {
    Join(SearchTexts(rs), ", ")
  }

  /**
   * HandleAvailabilityCommands: the service's entries for the commands,
   * printed as one line (empty when a hotel is unknown).
   */
  method HandleAvailabilityCommands(hotels: seq<Hotel>, bookings: seq<Booking>,
                                    commands: seq<RoomAvailabilityCommand>) returns (line: string)
    ensures !AvailabilityService.AllHotelsKnown(hotels, commands) ==> line == ""
    ensures AvailabilityService.AllHotelsKnown(hotels, commands) ==>
              line == AvailabilityLine(AvailabilityService.Entries(hotels, bookings, commands))
  {
    var roomsAvailabilities := AvailabilityService.Availability(hotels, bookings, commands);
    line := AvailabilityLine(roomsAvailabilities);
  }

  /** The line printed for commands that all parsed. */
  function AvailabilityOutput(hotels: seq<Hotel>, bookings: seq<Booking>, commands: seq<RoomAvailabilityCommand>)
    : string
  {
    if AvailabilityService.AllHotelsKnown(hotels, commands)
    then AvailabilityLine(AvailabilityService.Entries(hotels, bookings, commands))
    else ""
  }

  /** The commands of pieces that all parse. */
  function ParsedCommands(pieces: seq<string>): (r: seq<RoomAvailabilityCommand>)
    requires forall i :: 0 <= i < |pieces| ==> ParsePiece(pieces[i]).Success?
    ensures |r| == |pieces| && forall i :: 0 <= i < |pieces| ==> r[i] == ParsePiece(pieces[i]).value
  {
    seq(|pieces|, i requires 0 <= i < |pieces| => ParsePiece(pieces[i]).value)
  }

  /** An Availability line as the front end handles it: a rejected line leaves no commands and prints "". */
  method RunAvailability(hotels: seq<Hotel>, bookings: seq<Booking>, input: string) returns (line: string)
    ensures (exists i :: 0 <= i < |Pieces(input)| && ParsePiece(Pieces(input)[i]).Failure?) ==> line == ""
    ensures (forall i :: 0 <= i < |Pieces(input)| ==> ParsePiece(Pieces(input)[i]).Success?) ==>
              line == AvailabilityOutput(hotels, bookings, ParsedCommands(Pieces(input)))
  {
    var parsed := ParseAvailabilityCommands(input);
    var commands: seq<RoomAvailabilityCommand> := [];
    if parsed.Success? {
      commands := parsed.value;
      assert commands == ParsedCommands(Pieces(input));
    }
    line := HandleAvailabilityCommands(hotels, bookings, commands);
    assert AvailabilityService.AllHotelsKnown(hotels, []);
  }

  /**
   * HandleSearchCommand: the service's entries printed as one line; None
   * when the service throws because the horizon leaves DateTime's range.
   */
  method HandleSearchCommand(hotels: seq<Hotel>, bookings: seq<Booking>, request: SearchRequest, now: int)
    returns (line: Option<string>)
    requires 0 <= now <= MaxTicks
    ensures HotelRepository.Get(hotels, request.hotelId).None? ==> line == Some("")
    ensures HotelRepository.Get(hotels, request.hotelId).Some? ==>
              (line.None? <==> !(0 <= now + request.daysAhead * TicksPerDay <= MaxTicks))
    ensures line.Some? && HotelRepository.Get(hotels, request.hotelId).Some? ==>
              && InRange(now / TicksPerDay) && InRange(now / TicksPerDay + request.daysAhead)
              && line.value == SearchLine(AvailabilityService.SearchEntries(
                                 HotelRepository.Get(hotels, request.hotelId).value, bookings,
                                 request.roomType, request.hotelId, now / TicksPerDay, request.daysAhead))
  {
    var roomsAvailabilities := AvailabilityService.Search(hotels, bookings, request.roomType, request.hotelId,
                                                          request.daysAhead, now);
    line := if roomsAvailabilities.Some? then Some(SearchLine(roomsAvailabilities.value)) else None;
  }

  // ----- Round trips -----

  /** A hotel id or room type that survives the command syntax: non-empty, trimmed, no separator. */
  predicate Plain(s: string)
  {
    s != [] && NoneOf(s, Separators) && !IsWhiteSpace(s[0]) && !IsWhiteSpace(s[|s| - 1])
  }

  lemma FormatPlain(d: Date)
    ensures Plain(Format(d)) && NoneOf(Format(d), {'-'})
  {
    DigitsPlain(Format(d));
  }

  lemma DigitsPlain(s: string)
    requires s != [] && AllDigits(s)
    ensures Plain(s) && NoneOf(s, {'-'})
  {
  }

  lemma DateTextsSingle(part: string)
    requires NoneOf(part, {'-'})
    ensures DateTexts(part) == [part, part]
  {
    assert '-' !in part;
  }

  lemma DateTextsPair(a: string, b: string)
    requires NoneOf(a, {'-'}) && NoneOf(b, {'-'})
    ensures DateTexts(a + "-" + b) == [a, b]
  {
    var part := a + "-" + b;
    assert part == a + ['-'] + b;
    assert part[|a|] == '-';
    SplitOnAnyAt(a, '-', b, {'-'});
    SplitOnAnyPlain(b, {'-'});
  }

  /**
   * A date part with a dash: the start date's text is what comes before the
   * first dash, the end date's text what follows it up to the next dash or
   * the end of the part.
   */
  lemma DateTextsCut(a: string, b: string, rest: string)
    requires NoneOf(a, {'-'}) && NoneOf(b, {'-'})
    requires rest == [] || rest[0] == '-'
    ensures DateTexts(a + "-" + b + rest)[0] == a
    ensures DateTexts(a + "-" + b + rest)[1] == b
  {
    var part := a + "-" + b + rest;
    assert part == a + ['-'] + (b + rest);
    assert part[|a|] == '-';
    SplitOnAnyAt(a, '-', b + rest, {'-'});
    if rest == [] {
      assert b + rest == b;
      SplitOnAnyPlain(b, {'-'});
    } else {
      assert b + rest == b + ['-'] + rest[1..];
      SplitOnAnyAt(b, '-', rest[1..], {'-'});
    }
  }

  lemma PaddedNoneOfDash(t: string)
    requires NoneOf(t, {'-'})
    ensures NoneOf(" " + t, {'-'})
  {
    assert forall k :: 1 <= k < |t| + 1 ==> (" " + t)[k] == t[k - 1];
  }

  /** Two date texts that read as dates are read back, the first alone when the dates agree, else joined by a dash. */
  lemma TextsReadBack(fs: string, fe: string, startDate: Date, endDate: Date)
    requires Plain(fs) && NoneOf(fs, {'-'}) && Plain(fe) && NoneOf(fe, {'-'})
    requires Parse(fs) == Some(startDate) && Parse(fe) == Some(endDate)
    ensures ReadDates(" " + (if startDate == endDate then fs else fs + "-" + fe)) == Some((startDate, endDate))
  {
    TrimPadded(fs);
    PaddedNoneOfDash(fs);
    if startDate == endDate {
      DateTextsSingle(" " + fs);
    } else {
      assert " " + (fs + "-" + fe) == " " + fs + "-" + fe;
      DateTextsPair(" " + fs, fe);
      TrimUntouched(fe);
    }
  }

  /** The date text an entry prints is read back by the date reader of the command parser. */
  lemma DateRangeReadsBack(startDate: Date, endDate: Date)
    ensures ReadDates(" " + DateRangeText(startDate, endDate)) == Some((startDate, endDate))
  {
    FormatPlain(startDate);
    FormatPlain(endDate);
    ParseFormat(startDate);
    ParseFormat(endDate);
    TextsReadBack(Format(startDate), Format(endDate), startDate, endDate);
  }

  lemma PaddedNoneOf(t: string)
    requires NoneOf(t, Separators)
    ensures NoneOf(" " + t, Separators)
  {
    assert forall k :: 1 <= k < |t| + 1 ==> (" " + t)[k] == t[k - 1];
  }

  /** The fields of a command's text: name, hotel id, padded dates, padded room type, padded flag. */
  function CommandFields(c: RoomAvailabilityCommand): seq<string>
  {
    [AvailabilityName, c.hotelId, " " + DateRangeText(c.startDate, c.endDate), " " + c.roomType]
    + (if c.allowOverbooking then [" " + OverbookingFlag] else [])
  }

  /**
   * The text of a command in the syntax of the examples, such as
   * "Availability(H1, 20240901-20240903, DBL)" or, with overbooking,
   * "Availability(H1, 20240901, DBL, ovb)".
   */
  function CommandText(c: RoomAvailabilityCommand): string
  {
    Terminated(CommandFields(c), if c.allowOverbooking then "(,,,)" else "(,,)")
  }

  lemma CommandFieldsPlain(c: RoomAvailabilityCommand)
    requires Plain(c.hotelId) && Plain(c.roomType)
    ensures forall i :: 0 <= i < |CommandFields(c)| ==> CommandFields(c)[i] != [] && NoneOf(CommandFields(c)[i], Separators)
  {
    DateRangePlain(c.startDate, c.endDate);
    NamePlain();
    FlagPlain();
    PaddedFields(AvailabilityName, c.hotelId, DateRangeText(c.startDate, c.endDate), c.roomType,
                 if c.allowOverbooking then [" " + OverbookingFlag] else []);
  }

  lemma NamePlain()
    ensures AvailabilityName != [] && NoneOf(AvailabilityName, Separators)
  {
  }

  lemma FlagPlain()
    ensures " " + OverbookingFlag != [] && NoneOf(" " + OverbookingFlag, Separators)
  {
  }

  /** Plain fields, some padded with a space, hold no separator and are never empty. */
  lemma PaddedFields(name: string, hotelId: string, dates: string, roomType: string, flag: seq<string>)
    requires name != [] && NoneOf(name, Separators) && Plain(hotelId)
    requires NoneOf(dates, Separators) && NoneOf(roomType, Separators)
    requires forall i :: 0 <= i < |flag| ==> flag[i] != [] && NoneOf(flag[i], Separators)
    ensures var fields := [name, hotelId, " " + dates, " " + roomType] + flag;
            forall i :: 0 <= i < |fields| ==> fields[i] != [] && NoneOf(fields[i], Separators)
  {
    PaddedNoneOf(dates);
    PaddedNoneOf(roomType);
  }

  /** The date text of an entry holds no separator. */
  lemma DateRangePlain(startDate: Date, endDate: Date)
    ensures NoneOf(DateRangeText(startDate, endDate), Separators)
  {
    var a, b := Format(startDate), Format(endDate);
    DigitsPlain(a);
    DigitsPlain(b);
    if startDate != endDate {
      JoinedNoneOf(a, '-', b, Separators);
    }
  }

  lemma JoinedNoneOf(a: string, c: char, b: string, separators: set<char>)
    requires NoneOf(a, separators) && c !in separators && NoneOf(b, separators)
    ensures NoneOf(a + [c] + b, separators)
  {
    var t := a + [c] + b;
    assert forall k :: 0 <= k < |t| ==> t[k] == (if k < |a| then a[k] else if k == |a| then c else b[k - |a| - 1]);
  }

  lemma CommandTextParts(c: RoomAvailabilityCommand)
    requires Plain(c.hotelId) && Plain(c.roomType)
    ensures Parts(CommandText(c)) == CommandFields(c)
  {
    var fields := CommandFields(c);
    CommandFieldsPlain(c);
    SplitOnAnyTerminated(fields, if c.allowOverbooking then "(,,,)" else "(,,)", Separators);
    RemoveEmptyKeeps(fields);
  }

  /** A plain text is its own trim, and so is the text with one space before it. */
  lemma PlainTrims(t: string)
    requires Plain(t)
    ensures Trim(t) == t && Trim(" " + t) == t
  {
    TrimUntouched(t);
    TrimPadded(t);
  }

  lemma FlagReads()
    ensures EqualsIgnoreCase(Trim(" " + OverbookingFlag), OverbookingFlag)
  {
    TrimPadded(OverbookingFlag);
  }

  /** Four parts whose fields read as a command's fields parse to that command, without overbooking. */
  lemma ParseFourParts(name: string, hotel: string, datePart: string, roomType: string, c: RoomAvailabilityCommand)
    requires !c.allowOverbooking
    requires Trim(hotel) == c.hotelId && Trim(roomType) == c.roomType
    requires ReadDates(datePart) == Some((c.startDate, c.endDate))
    ensures ParseParts([name, hotel, datePart, roomType]) == Success(c)
  {
  }

  /** Five parts whose last reads as the flag parse to the command with overbooking. */
  lemma ParseFiveParts(name: string, hotel: string, datePart: string, roomType: string, flag: string,
                       c: RoomAvailabilityCommand)
    requires c.allowOverbooking
    requires Trim(hotel) == c.hotelId && Trim(roomType) == c.roomType
    requires ReadDates(datePart) == Some((c.startDate, c.endDate))
    requires EqualsIgnoreCase(Trim(flag), OverbookingFlag)
    ensures ParseParts([name, hotel, datePart, roomType, flag]) == Success(c)
  {
  }

  /** The fields of a command, its date part given as a text that reads back to its dates. */
  function FieldsWith(c: RoomAvailabilityCommand, datePart: string): seq<string>
  {
    [AvailabilityName, c.hotelId, datePart, " " + c.roomType]
    + (if c.allowOverbooking then [" " + OverbookingFlag] else [])
  }

  lemma FieldsWithRoundTrip(c: RoomAvailabilityCommand, datePart: string)
    requires Plain(c.hotelId) && Plain(c.roomType)
    requires ReadDates(datePart) == Some((c.startDate, c.endDate))
    ensures ParseParts(FieldsWith(c, datePart)) == Success(c)
  {
    PlainTrims(c.hotelId);
    PlainTrims(c.roomType);
    var fields := [AvailabilityName, c.hotelId, datePart, " " + c.roomType];
    if c.allowOverbooking {
      FlagReads();
      calc {
        ParseParts(FieldsWith(c, datePart));
        { assert FieldsWith(c, datePart) == fields + [" " + OverbookingFlag]; }
        ParseParts(fields + [" " + OverbookingFlag]);
        { assert fields + [" " + OverbookingFlag]
              == [AvailabilityName, c.hotelId, datePart, " " + c.roomType, " " + OverbookingFlag]; }
        ParseParts([AvailabilityName, c.hotelId, datePart, " " + c.roomType, " " + OverbookingFlag]);
        { ParseFiveParts(AvailabilityName, c.hotelId, datePart, " " + c.roomType, " " + OverbookingFlag, c); }
        Success(c);
      }
    } else {
      calc {
        ParseParts(FieldsWith(c, datePart));
        { assert FieldsWith(c, datePart) == fields; }
        ParseParts(fields);
        { ParseFourParts(AvailabilityName, c.hotelId, datePart, " " + c.roomType, c); }
        Success(c);
      }
    }
  }

  /** The fields of every command whose hotel id and room type are plain parse back to the command. */
  lemma FieldsRoundTrip(c: RoomAvailabilityCommand)
    requires Plain(c.hotelId) && Plain(c.roomType)
    ensures ParseParts(CommandFields(c)) == Success(c)
  {
    var datePart := " " + DateRangeText(c.startDate, c.endDate);
    DateRangeReadsBack(c.startDate, c.endDate);
    FieldsWithRoundTrip(c, datePart);
    assert CommandFields(c) == FieldsWith(c, datePart);
  }

  /** Every command whose hotel id and room type are plain reads back from its text unchanged. */
  lemma PieceRoundTrip(c: RoomAvailabilityCommand)
    requires Plain(c.hotelId) && Plain(c.roomType)
    ensures ParsePiece(CommandText(c)) == Success(c)
  {
    CommandTextParts(c);
    FieldsRoundTrip(c);
  }

  /** The text of a Search request in the syntax of the examples, such as "Search(H1, 365, SGL)". */
  function RequestText(request: SearchRequest): string
  {
    Terminated([SearchName, request.hotelId, " " + IntToString(request.daysAhead), " " + request.roomType], "(,,)")
  }

  lemma IntToStringPlain(n: int)
    ensures Plain(IntToString(n))
  {
    var s := IntToString(n);
    var digits := NatToString(if n < 0 then -n else n);
    assert forall k :: 0 <= k < |digits| ==> '0' <= digits[k] <= '9';
    assert forall k :: 0 <= k < |s| ==> s[k] == '-' || '0' <= s[k] <= '9';
  }

  lemma RequestTextParts(request: SearchRequest)
    requires Plain(request.hotelId) && Plain(request.roomType)
    ensures Parts(RequestText(request)) == [SearchName, request.hotelId, " " + IntToString(request.daysAhead),
                                            " " + request.roomType]
  {
    var fields := [SearchName, request.hotelId, " " + IntToString(request.daysAhead), " " + request.roomType];
    IntToStringPlain(request.daysAhead);
    PaddedNoneOf(IntToString(request.daysAhead));
    PaddedNoneOf(request.roomType);
    SplitOnAnyTerminated(fields, "(,,)", Separators);
    RemoveEmptyKeeps(fields);
  }

  /** Every request with plain names and a 32-bit day count reads back from its text unchanged. */
  lemma RequestRoundTrip(request: SearchRequest)
    requires Plain(request.hotelId) && Plain(request.roomType)
    requires MinInt32 <= request.daysAhead <= MaxInt32
    ensures ParseSearchCommand(RequestText(request)) == Success(request)
  {
    RequestTextParts(request);
    PlainTrims(request.hotelId);
    PlainTrims(request.roomType);
    IntToStringPlain(request.daysAhead);
    PlainTrims(IntToString(request.daysAhead));
    ParseInt32IntToString(request.daysAhead);
  }
}
