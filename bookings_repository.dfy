/** BookingsRepository: the bookings of a hotel and room type that touch a date range. */
module BookingsRepository {
  import opened Models

  /** r appears in s with its elements in the same order (greedy matching decides it). */
  predicate IsSubsequence<T(==)>(r: seq<T>, s: seq<T>)
    decreases |s|
  {
    if r == [] then true
    else if s == [] then false
    else if r[0] == s[0] then IsSubsequence(r[1..], s[1..])
    else IsSubsequence(r, s[1..])
  }

  /** The Where predicate of Get: same hotel and type, arriving by endDate, leaving after startDate. */
  predicate Selected(b: Booking, hotelId: string, roomType: string, startDate: int, endDate: int)
  {
    b.hotelId == hotelId && b.roomType == roomType && b.arrival <= endDate && b.departure > startDate
  }

  /** Get(hotelId, roomType, startDate, endDate): Data filtered, in stored order. */
  function Get(bookings: seq<Booking>, hotelId: string, roomType: string, startDate: int, endDate: int)
    : (r: seq<Booking>)
    ensures |r| <= |bookings|
  {
    if |bookings| == 0 then []
    else
      var rest := Get(bookings[1..], hotelId, roomType, startDate, endDate);
      if Selected(bookings[0], hotelId, roomType, startDate, endDate) then [bookings[0]] + rest
      else rest
  }

  /** Get returns exactly the stored bookings the filter selects, in their stored order. */
  lemma {:induction false} GetSelects(bookings: seq<Booking>, hotelId: string, roomType: string,
                                      startDate: int, endDate: int)
    ensures forall b :: (b in Get(bookings, hotelId, roomType, startDate, endDate)
                         <==> b in bookings && Selected(b, hotelId, roomType, startDate, endDate))
    ensures IsSubsequence(Get(bookings, hotelId, roomType, startDate, endDate), bookings)
    decreases |bookings|
  {
    if |bookings| > 0 {
      var rest := Get(bookings[1..], hotelId, roomType, startDate, endDate);
      GetSelects(bookings[1..], hotelId, roomType, startDate, endDate);
      assert bookings == [bookings[0]] + bookings[1..];
      if Selected(bookings[0], hotelId, roomType, startDate, endDate) {
        assert ([bookings[0]] + rest)[1..] == rest;
      } else {
        SubsequenceSkip(rest, bookings);
      }
    }
  }

  /** Each selected booking is returned as many times as it is stored; the others not at all. */
  lemma {:induction false} GetCounts(bookings: seq<Booking>, hotelId: string, roomType: string,
                                     startDate: int, endDate: int, b: Booking)
    ensures multiset(Get(bookings, hotelId, roomType, startDate, endDate))[b]
         == if Selected(b, hotelId, roomType, startDate, endDate) then multiset(bookings)[b] else 0
    decreases |bookings|
  {
    if |bookings| > 0 {
      assert bookings == [bookings[0]] + bookings[1..];
      GetCounts(bookings[1..], hotelId, roomType, startDate, endDate, b);
    }
  }

  lemma SubsequenceSkip<T>(r: seq<T>, s: seq<T>)
    requires |s| > 0 && IsSubsequence(r, s[1..])
    ensures IsSubsequence(r, s)
    decreases |s|, 0
  {
    if r != [] && r[0] == s[0] {
      SubsequenceDropHead(r, s[1..]);
    }
  }

  lemma SubsequenceDropHead<T>(r: seq<T>, s: seq<T>)
    requires r != [] && IsSubsequence(r, s)
    ensures IsSubsequence(r[1..], s)
    decreases |s|, 1
  {
    if r[0] == s[0] {
      SubsequenceSkip(r[1..], s);
    } else {
      SubsequenceDropHead(r, s[1..]);
      SubsequenceSkip(r[1..], s);
    }
  }

  lemma SubsequenceTransitive<T>(a: seq<T>, b: seq<T>, c: seq<T>)
    requires IsSubsequence(a, b) && IsSubsequence(b, c)
    ensures IsSubsequence(a, c)
    decreases |c|
  {
    if a != [] && b != [] && c != [] {
      if b[0] == c[0] {
        if a[0] == b[0] {
          SubsequenceTransitive(a[1..], b[1..], c[1..]);
        } else {
          SubsequenceTransitive(a, b[1..], c[1..]);
        }
      } else {
        SubsequenceTransitive(a, b, c[1..]);
        SubsequenceSkip(a, c);
      }
    }
  }

  /** For a single day D the filter keeps exactly the stays with Arrival <= D < Departure. */
  lemma SingleDay(bookings: seq<Booking>, hotelId: string, roomType: string, day: int, b: Booking)
    ensures multiset(Get(bookings, hotelId, roomType, day, day))[b]
         == if b.hotelId == hotelId && b.roomType == roomType && b.arrival <= day < b.departure
            then multiset(bookings)[b] else 0
  {
    GetCounts(bookings, hotelId, roomType, day, day, b);
  }

  /** Widening the range (earlier start, later end) keeps every booking, in order. */
  lemma {:induction false} WideningKeeps(bookings: seq<Booking>, hotelId: string, roomType: string,
                                         startDate: int, endDate: int, wideStart: int, wideEnd: int)
    requires wideStart <= startDate && endDate <= wideEnd
    ensures IsSubsequence(Get(bookings, hotelId, roomType, startDate, endDate),
                          Get(bookings, hotelId, roomType, wideStart, wideEnd))
  {
    if |bookings| > 0 {
      var tail := bookings[1..];
      WideningKeeps(tail, hotelId, roomType, startDate, endDate, wideStart, wideEnd);
      var narrow := Get(tail, hotelId, roomType, startDate, endDate);
      var wide := Get(tail, hotelId, roomType, wideStart, wideEnd);
      if Selected(bookings[0], hotelId, roomType, startDate, endDate) {
        assert ([bookings[0]] + narrow)[1..] == narrow;
        assert ([bookings[0]] + wide)[1..] == wide;
      } else if Selected(bookings[0], hotelId, roomType, wideStart, wideEnd) {
        assert ([bookings[0]] + wide)[1..] == wide;
        SubsequenceSkip(narrow, [bookings[0]] + wide);
      }
    }
  }

  /** A booking stored after the others is returned after them, when it is selected. */
  lemma {:induction false} GetAppend(bookings: seq<Booking>, b: Booking, hotelId: string, roomType: string,
                                     startDate: int, endDate: int)
    ensures Get(bookings + [b], hotelId, roomType, startDate, endDate)
         == Get(bookings, hotelId, roomType, startDate, endDate)
            + (if Selected(b, hotelId, roomType, startDate, endDate) then [b] else [])
    decreases |bookings|
  {
    var xs := bookings + [b];
    if |bookings| > 0 {
      assert xs[0] == bookings[0];
      assert xs[1..] == bookings[1..] + [b];
      GetAppend(bookings[1..], b, hotelId, roomType, startDate, endDate);
    } else {
      assert xs[1..] == [];
    }
  }

  /** When every stored booking is selected, Get returns them all, in order. */
  lemma {:induction false} GetAllSelected(bookings: seq<Booking>, hotelId: string, roomType: string,
                                          startDate: int, endDate: int)
    requires forall i :: 0 <= i < |bookings| ==> Selected(bookings[i], hotelId, roomType, startDate, endDate)
    ensures Get(bookings, hotelId, roomType, startDate, endDate) == bookings
    decreases |bookings|
  {
    if |bookings| > 0 {
      GetAllSelected(bookings[1..], hotelId, roomType, startDate, endDate);
      assert bookings == [bookings[0]] + bookings[1..];
    }
  }
}
