/**
 * The free-window engine of Search: every room of the type starts with one
 * free window, and each booking is cut out of the first room, in room order,
 * that has a window of one of three shapes. Instants are plain integers so
 * that the same engine serves the service (day numbers) and the legacy
 * program (ticks, because its windows start at the current time of day).
 */
module FreeWindows {
  import opened Wrappers

  /** A span [from, to] during which one room is free. */
  datatype Window = Window(from: int, to: int)

  /** The nights of one booking: from its arrival up to its departure. */
  datatype Stay = Stay(arrival: int, departure: int)

  /** The three window shapes a stay is matched against, in precedence order. */
  datatype Shape = Exact | LeftAligned | Interior

  predicate Fits(shape: Shape, s: Stay, w: Window)
  {
    match shape
    case Exact => s.arrival == w.from && s.departure == w.to
    case LeftAligned => s.arrival == w.from && s.departure < w.to
    case Interior => s.arrival > w.from && s.departure < w.to
  }

  predicate FitsSome(s: Stay, w: Window)
  {
    Fits(Exact, s, w) || Fits(LeftAligned, s, w) || Fits(Interior, s, w)
  }

  /** FirstOrDefault over a room's windows: the first window of the given shape. */
  function FirstFitting(ws: seq<Window>, shape: Shape, s: Stay): (r: Option<Window>)
    ensures r.None? <==> forall i :: 0 <= i < |ws| ==> !Fits(shape, s, ws[i])
    ensures r.Some? ==> exists i :: 0 <= i < |ws| && ws[i] == r.value && Fits(shape, s, ws[i])
                                    && forall j :: 0 <= j < i ==> !Fits(shape, s, ws[j])
  {
    if |ws| == 0 then None
    else if Fits(shape, s, ws[0]) then Some(ws[0])
    else
      var r := FirstFitting(ws[1..], shape, s);
      if r.Some? then
        var i :| 0 <= i < |ws| - 1 && ws[1..][i] == r.value && Fits(shape, s, ws[1..][i])
                 && forall j :: 0 <= j < i ==> !Fits(shape, s, ws[1..][j]);
        assert ws[i + 1] == r.value && forall j :: 0 <= j < i + 1 ==> !Fits(shape, s, ws[j]);
        r
      else r
  }

  /** The index of the first element equal to w. */
  function IndexOf(ws: seq<Window>, w: Window): (i: nat)
    requires w in ws
    ensures i < |ws| && ws[i] == w && w !in ws[..i]
  {
    if ws[0] == w then 0
    else
      var j := IndexOf(ws[1..], w);
      assert ws[..j + 1] == [ws[0]] + ws[1..][..j];
      j + 1
  }

  /** The list without its i-th element (List.RemoveAt). */
  function DeleteAt(ws: seq<Window>, i: nat): (r: seq<Window>)
    requires i < |ws|
    ensures |r| == |ws| - 1
    ensures forall x :: 0 <= x < |r| ==> r[x] == if x < i then ws[x] else ws[x + 1]
  {
    ws[..i] + ws[i + 1..]
  }

  /** List.Remove: deletes the first element equal to w, if there is one. */
  function Remove(ws: seq<Window>, w: Window): seq<Window>
  {
    if w in ws then DeleteAt(ws, IndexOf(ws, w)) else ws
  }

  lemma RemoveAppended(ws: seq<Window>, tail: seq<Window>, w: Window)
    requires w in ws
    ensures Remove(ws + tail, w) == Remove(ws, w) + tail
  {
    var i := IndexOf(ws, w);
    assert (ws + tail)[..i] == ws[..i];
    assert w !in (ws + tail)[..i];
    var k := IndexOf(ws + tail, w);
    forall x | 0 <= x < i ensures (ws + tail)[x] != w {
      assert (ws + tail)[x] == ws[..i][x];
    }
    forall x | 0 <= x < k ensures (ws + tail)[x] != w {
      assert (ws + tail)[x] == (ws + tail)[..k][x];
    }
    assert (ws + tail)[i] == w;
    assert (ws + tail)[i + 1..] == ws[i + 1..] + tail;
  }

  /**
   * One room's turn in the booking loop (the three FirstOrDefault probes and
   * the Add/Remove calls): the room's new window list when some shape fits,
   * None when the loop moves on to the next room.
   */
  function StepRoom(ws: seq<Window>, s: Stay): (r: Option<seq<Window>>)
  {
    match FirstFitting(ws, Exact, s)
    case Some(w) => Some(Remove(ws, w))
    case None =>
      match FirstFitting(ws, LeftAligned, s)
      case Some(w) => Some(Remove(ws + [Window(s.departure, w.to)], w))
      case None =>
        match FirstFitting(ws, Interior, s)
        case Some(w) => Some(Remove(ws + [Window(w.from, s.arrival), Window(s.departure, w.to)], w))
        case None => None
  }

  /** Generic interval difference: the parts of w before the arrival and after the departure. */
  function Subtract(w: Window, s: Stay): seq<Window>
  {
    (if w.from < s.arrival then [Window(w.from, s.arrival)] else [])
    + (if s.departure < w.to then [Window(s.departure, w.to)] else [])
  }

  /** A room takes the stay exactly when one of its windows has one of the three shapes. */
  lemma StepRoomNone(ws: seq<Window>, s: Stay)
    ensures StepRoom(ws, s).None? <==> forall i :: 0 <= i < |ws| ==> !FitsSome(s, ws[i])
  {
    if StepRoom(ws, s).None? {
      assert FirstFitting(ws, Exact, s).None?;
      assert FirstFitting(ws, LeftAligned, s).None?;
      assert FirstFitting(ws, Interior, s).None?;
    }
  }

  /**
   * When a room takes the stay, exactly one of its windows is replaced: it is
   * deleted from its place and what the stay leaves of it (the generic
   * interval difference) is appended, so the shape cases agree with plain
   * interval subtraction.
   */
  lemma {:induction false} StepRoomSubtracts(ws: seq<Window>, s: Stay) returns (i: nat)
    requires StepRoom(ws, s).Some?
    ensures i < |ws| && FitsSome(s, ws[i])
    ensures StepRoom(ws, s).value == DeleteAt(ws, i) + Subtract(ws[i], s)
  {
    var w: Window;
    var added: seq<Window>;
    if FirstFitting(ws, Exact, s).Some? {
      w := FirstFitting(ws, Exact, s).value;
      added := [];
      assert ws + added == ws;
    } else if FirstFitting(ws, LeftAligned, s).Some? {
      w := FirstFitting(ws, LeftAligned, s).value;
      added := [Window(s.departure, w.to)];
    } else {
      w := FirstFitting(ws, Interior, s).value;
      added := [Window(w.from, s.arrival), Window(s.departure, w.to)];
    }
    assert FitsSome(s, w) && w in ws;
    RemoveAppended(ws, added, w);
    i := IndexOf(ws, w);
    assert Subtract(w, s) == added;
  }

  /** Exact removal takes precedence: a window equal to the stay is deleted and nothing is added. */
  lemma ExactFirst(ws: seq<Window>, s: Stay)
    requires Window(s.arrival, s.departure) in ws
    ensures StepRoom(ws, s) == Some(Remove(ws, Window(s.arrival, s.departure)))
  {
    var w := Window(s.arrival, s.departure);
    var i :| 0 <= i < |ws| && ws[i] == w;
    assert Fits(Exact, s, ws[i]);
  }

  /**
   * Left trim comes next: with no exact window, the first window starting on
   * the arrival and ending after the departure is replaced by its part from
   * the departure on.
   */
  lemma LeftTrimSecond(ws: seq<Window>, s: Stay, i: nat)
    requires Window(s.arrival, s.departure) !in ws
    requires i < |ws| && Fits(LeftAligned, s, ws[i])
    requires forall j :: 0 <= j < i ==> !Fits(LeftAligned, s, ws[j])
    ensures StepRoom(ws, s) == Some(Remove(ws, ws[i]) + [Window(s.departure, ws[i].to)])
  {
    assert forall j :: 0 <= j < |ws| ==> !Fits(Exact, s, ws[j]);
    var w := FirstFitting(ws, LeftAligned, s).value;
    var k :| 0 <= k < |ws| && ws[k] == w && Fits(LeftAligned, s, ws[k])
             && forall j :: 0 <= j < k ==> !Fits(LeftAligned, s, ws[j]);
    assert k == i;
    RemoveAppended(ws, [Window(s.departure, w.to)], w);
  }

  /** Interior split comes last: the first window strictly containing the stay becomes its two outer parts. */
  lemma InteriorThird(ws: seq<Window>, s: Stay, i: nat)
    requires forall j :: 0 <= j < |ws| ==> !Fits(Exact, s, ws[j]) && !Fits(LeftAligned, s, ws[j])
    requires i < |ws| && Fits(Interior, s, ws[i])
    requires forall j :: 0 <= j < i ==> !Fits(Interior, s, ws[j])
    ensures StepRoom(ws, s)
         == Some(Remove(ws, ws[i]) + [Window(ws[i].from, s.arrival), Window(s.departure, ws[i].to)])
  {
    var w := FirstFitting(ws, Interior, s).value;
    var k :| 0 <= k < |ws| && ws[k] == w && Fits(Interior, s, ws[k])
             && forall j :: 0 <= j < k ==> !Fits(Interior, s, ws[j]);
    assert k == i;
    RemoveAppended(ws, [Window(w.from, s.arrival), Window(s.departure, w.to)], w);
  }

  /** The first room, in room order, that takes the stay. */
  function FirstTakingRoom(rooms: seq<seq<Window>>, s: Stay): (r: Option<nat>)
    ensures r.Some? ==> r.value < |rooms| && StepRoom(rooms[r.value], s).Some?
                        && forall j :: 0 <= j < r.value ==> StepRoom(rooms[j], s).None?
    ensures r.None? ==> forall j :: 0 <= j < |rooms| ==> StepRoom(rooms[j], s).None?
  {
    if |rooms| == 0 then None
    else if StepRoom(rooms[0], s).Some? then Some(0)
    else
      match FirstTakingRoom(rooms[1..], s)
      case None => None
      case Some(k) => Some(k + 1)
  }

  lemma FirstTakingRoomIs(rooms: seq<seq<Window>>, s: Stay, j: nat)
    requires j < |rooms| && StepRoom(rooms[j], s).Some?
    requires forall k :: 0 <= k < j ==> StepRoom(rooms[k], s).None?
    ensures FirstTakingRoom(rooms, s) == Some(j)
  {
  }

  /** The effect of one booking on all rooms (the inner loop with its break). */
  function ApplyBooking(rooms: seq<seq<Window>>, s: Stay): (r: seq<seq<Window>>)
    ensures |r| == |rooms|
  {
    match FirstTakingRoom(rooms, s)
    case None => rooms
    case Some(k) => rooms[k := StepRoom(rooms[k], s).value]
  }

  /**
   * A booking changes at most one room: the first that can take the stay,
   * which then holds what the step leaves of it.
   */
  lemma ApplyBookingTakesFirst(rooms: seq<seq<Window>>, s: Stay)
    ensures forall k :: 0 <= k < |rooms| && ApplyBooking(rooms, s)[k] != rooms[k] ==>
              && StepRoom(rooms[k], s) == Some(ApplyBooking(rooms, s)[k])
              && forall j :: 0 <= j < |rooms| && j != k ==>
                   ApplyBooking(rooms, s)[j] == rooms[j] && (j < k ==> StepRoom(rooms[j], s).None?)
  {
  }

  /** The effect of the bookings, applied in order. */
  function ApplyAll(rooms: seq<seq<Window>>, stays: seq<Stay>): (r: seq<seq<Window>>)
    ensures |r| == |rooms|
    decreases |stays|
  {
    if |stays| == 0 then rooms
    else ApplyBooking(ApplyAll(rooms, stays[..|stays| - 1]), stays[|stays| - 1])
  }

  /** Every room of the type starts free over the whole horizon. */
  function Fresh(count: nat, horizon: Window): (rooms: seq<seq<Window>>)
    ensures |rooms| == count && forall k :: 0 <= k < count ==> rooms[k] == [horizon]
  {
    seq(count, _ => [horizon])
  }

  /** All windows of all rooms, room after room (SelectMany). */
  function Flatten(rooms: seq<seq<Window>>): seq<Window>
  {
    if |rooms| == 0 then [] else Flatten(rooms[..|rooms| - 1]) + rooms[|rooms| - 1]
  }

  /** One room's probes: the three FirstOrDefault calls and the list edits of the first that succeeds. */
  method TryRoom(availability: seq<Window>, s: Stay) returns (taken: bool, updated: seq<Window>)
    ensures taken <==> StepRoom(availability, s).Some?
    ensures taken ==> updated == StepRoom(availability, s).value
  {
    updated := availability;
    var period := FirstFitting(updated, Exact, s);
    if period.Some? {
      updated := Remove(updated, period.value);
      return true, updated;
    }
    period := FirstFitting(updated, LeftAligned, s);
    if period.Some? {
      updated := updated + [Window(s.departure, period.value.to)];
      updated := Remove(updated, period.value);
      return true, updated;
    }
    period := FirstFitting(updated, Interior, s);
    if period.Some? {
      var lower := Window(period.value.from, s.arrival);
      var upper := Window(s.departure, period.value.to);
      assert updated + [lower] + [upper] == updated + [lower, upper];
      updated := updated + [lower];
      updated := updated + [upper];
      updated := Remove(updated, period.value);
      return true, updated;
    }
    return false, updated;
  }

  /** The inner loop over the rooms for one booking, leaving at the first room that takes it. */
  method Book(rooms: seq<seq<Window>>, s: Stay) returns (result: seq<seq<Window>>)
    ensures result == ApplyBooking(rooms, s)
  {
    result := rooms;
    var j := 0;
    while j < |rooms|
      invariant 0 <= j <= |rooms|
      invariant forall k :: 0 <= k < j ==> StepRoom(rooms[k], s).None?
    {
      var taken, updated := TryRoom(rooms[j], s);
      if taken {
        FirstTakingRoomIs(rooms, s, j);
        result := rooms[j := updated];
        return;
      }
      j := j + 1;
    }
  }

  /** The outer loop: the bookings are subtracted one after the other, in order. */
  method SubtractBookings(rooms: seq<seq<Window>>, stays: seq<Stay>) returns (result: seq<seq<Window>>)
    ensures result == ApplyAll(rooms, stays)
  {
    result := rooms;
    var i := 0;
    while i < |stays|
      invariant 0 <= i <= |stays|
      invariant result == ApplyAll(rooms, stays[..i])
    {
      result := Book(result, stays[i]);
      assert stays[..i + 1][..i] == stays[..i];
      i := i + 1;
    }
    assert stays[..|stays|] == stays;
  }

  // ----- Invariants of the room window lists -----

  /** Two windows with at least one night between them. */
  predicate Apart(v: Window, w: Window)
  {
    v.to < w.from || w.to < v.from
  }

  /** A non-empty window within the horizon [lo, hi]. */
  predicate Inside(v: Window, lo: int, hi: int)
  {
    lo <= v.from < v.to <= hi
  }

  /** What holds of every room's windows throughout Search. */
  predicate Valid(ws: seq<Window>, lo: int, hi: int)
  {
    && (forall i :: 0 <= i < |ws| ==> Inside(ws[i], lo, hi))
    && (forall i, j :: 0 <= i < j < |ws| ==> Apart(ws[i], ws[j]))
  }

  predicate AllValid(rooms: seq<seq<Window>>, lo: int, hi: int)
  {
    forall k :: 0 <= k < |rooms| ==> Valid(rooms[k], lo, hi)
  }

  predicate Proper(stays: seq<Stay>)
  {
    forall i :: 0 <= i < |stays| ==> stays[i].arrival < stays[i].departure
  }

  lemma FreshValid(count: nat, lo: int, hi: int)
    requires lo < hi
    ensures AllValid(Fresh(count, Window(lo, hi)), lo, hi)
  {
  }

  lemma ValidConcat(xs: seq<Window>, ys: seq<Window>, lo: int, hi: int)
    requires Valid(xs, lo, hi) && Valid(ys, lo, hi)
    requires forall x, y :: 0 <= x < |xs| && 0 <= y < |ys| ==> Apart(xs[x], ys[y])
    ensures Valid(xs + ys, lo, hi)
  {
    var zs := xs + ys;
    forall i, j | 0 <= i < j < |zs| ensures Apart(zs[i], zs[j]) {
      if j < |xs| {
        assert zs[i] == xs[i] && zs[j] == xs[j];
      } else if |xs| <= i {
        assert zs[i] == ys[i - |xs|] && zs[j] == ys[j - |xs|];
      } else {
        assert Apart(xs[i], ys[j - |xs|]);
      }
    }
  }

  /** Deleting one window keeps the others valid, and they are all apart from the deleted one. */
  lemma ValidDelete(ws: seq<Window>, i: nat, lo: int, hi: int)
    requires i < |ws| && Valid(ws, lo, hi)
    ensures Valid(DeleteAt(ws, i), lo, hi)
    ensures forall x :: 0 <= x < |ws| - 1 ==> Apart(DeleteAt(ws, i)[x], ws[i])
  {
    var rest := DeleteAt(ws, i);
    forall x | 0 <= x < |rest| ensures Apart(rest[x], ws[i]) {
      if x < i { assert Apart(ws[x], ws[i]); } else { assert Apart(ws[i], ws[x + 1]); }
    }
  }

  /**
   * Given a proper stay, a step keeps the room's windows non-empty,
   * inside the horizon and pairwise apart.
   */
  lemma {:induction false} StepRoomValid(ws: seq<Window>, s: Stay, lo: int, hi: int)
    requires Valid(ws, lo, hi) && s.arrival < s.departure && StepRoom(ws, s).Some?
    ensures Valid(StepRoom(ws, s).value, lo, hi)
  {
    var i := StepRoomSubtracts(ws, s);
    var w := ws[i];
    var rest := DeleteAt(ws, i);
    var left := Subtract(w, s);
    ValidDelete(ws, i, lo, hi);
    forall x, y | 0 <= x < |rest| && 0 <= y < |left| ensures Apart(rest[x], left[y]) {
      assert Apart(rest[x], w);
      assert w.from <= left[y].from && left[y].to <= w.to;
    }
    ValidConcat(rest, left, lo, hi);
  }

  lemma {:induction false} ApplyBookingValid(rooms: seq<seq<Window>>, s: Stay, lo: int, hi: int)
    requires AllValid(rooms, lo, hi) && s.arrival < s.departure
    ensures AllValid(ApplyBooking(rooms, s), lo, hi)
  {
    match FirstTakingRoom(rooms, s)
    case None =>
    case Some(k) =>
      StepRoomValid(rooms[k], s, lo, hi);
  }

  /** The invariant holds after any sequence of proper stays. */
  lemma {:induction false} ApplyAllValid(rooms: seq<seq<Window>>, stays: seq<Stay>, lo: int, hi: int)
    requires AllValid(rooms, lo, hi) && Proper(stays)
    ensures AllValid(ApplyAll(rooms, stays), lo, hi)
    decreases |stays|
  {
    if |stays| > 0 {
      var init := stays[..|stays| - 1];
      ApplyAllValid(rooms, init, lo, hi);
      ApplyBookingValid(ApplyAll(rooms, init), stays[|stays| - 1], lo, hi);
    }
  }

  // ----- Free nights -----

  /** Night t is free in the room: some window [from, to] has from <= t < to. */
  predicate FreeOn(ws: seq<Window>, t: int)
  {
    exists i :: 0 <= i < |ws| && ws[i].from <= t < ws[i].to
  }

  lemma FreeAfterWasFree(ws: seq<Window>, i: nat, s: Stay, lo: int, hi: int, t: int)
    requires Valid(ws, lo, hi) && i < |ws| && FitsSome(s, ws[i]) && s.arrival < s.departure
    requires FreeOn(DeleteAt(ws, i) + Subtract(ws[i], s), t)
    ensures FreeOn(ws, t) && !(s.arrival <= t < s.departure)
  {
    var rest := DeleteAt(ws, i);
    var after := rest + Subtract(ws[i], s);
    ValidDelete(ws, i, lo, hi);
    var x :| 0 <= x < |after| && after[x].from <= t < after[x].to;
    if x < |rest| {
      assert after[x] == rest[x];
      assert Apart(rest[x], ws[i]);
      if x < i { assert ws[x].from <= t < ws[x].to; } else { assert ws[x + 1].from <= t < ws[x + 1].to; }
    } else {
      assert after[x] == Subtract(ws[i], s)[x - |rest|];
      assert ws[i].from <= t < ws[i].to;
    }
  }

  lemma FreeBeforeStaysFree(ws: seq<Window>, i: nat, s: Stay, t: int)
    requires i < |ws| && FitsSome(s, ws[i])
    requires FreeOn(ws, t) && !(s.arrival <= t < s.departure)
    ensures FreeOn(DeleteAt(ws, i) + Subtract(ws[i], s), t)
  {
    var rest := DeleteAt(ws, i);
    var left := Subtract(ws[i], s);
    var after := rest + left;
    var k :| 0 <= k < |ws| && ws[k].from <= t < ws[k].to;
    if k < i {
      assert after[k] == ws[k];
    } else if k > i {
      assert after[k - 1] == ws[k];
    } else if t < s.arrival {
      assert left[0] == Window(ws[i].from, s.arrival);
      assert after[|rest|] == left[0];
    } else {
      assert left[|left| - 1] == Window(s.departure, ws[i].to);
      assert after[|after| - 1] == left[|left| - 1];
    }
  }

  /**
   * A room that takes a stay loses exactly the stay's nights: a night is
   * free afterwards if and only if it was free before and the stay does
   * not cover it.
   */
  lemma {:induction false} StepRoomTakesNights(ws: seq<Window>, s: Stay, lo: int, hi: int, t: int)
    requires Valid(ws, lo, hi) && s.arrival < s.departure && StepRoom(ws, s).Some?
    ensures FreeOn(StepRoom(ws, s).value, t) <==> FreeOn(ws, t) && !(s.arrival <= t < s.departure)
  {
    var i := StepRoomSubtracts(ws, s);
    if FreeOn(StepRoom(ws, s).value, t) {
      FreeAfterWasFree(ws, i, s, lo, hi, t);
    }
    if FreeOn(ws, t) && !(s.arrival <= t < s.departure) {
      FreeBeforeStaysFree(ws, i, s, t);
    }
  }

  /**
   * A stay that ends inside a room's window but starts after the window's
   * start matches none of the three shapes; the room leaves it alone, even
   * though the stay's nights are then still shown as free.
   */
  lemma RightAlignedIgnored(ws: seq<Window>, s: Stay, lo: int, hi: int, i: nat)
    requires Valid(ws, lo, hi) && s.arrival < s.departure
    requires i < |ws| && ws[i].from < s.arrival && s.departure == ws[i].to
    ensures StepRoom(ws, s).None?
    ensures forall t :: s.arrival <= t < s.departure ==> FreeOn(ws, t)
  {
    forall k | 0 <= k < |ws| ensures !FitsSome(s, ws[k]) {
      if k < i { assert Apart(ws[k], ws[i]); }
      if k > i { assert Apart(ws[i], ws[k]); }
    }
    StepRoomNone(ws, s);
  }

  // ----- Stays outside the horizon -----

  /** The overlap test of the bookings filter, in instants: arrival <= hi and departure > lo. */
  predicate Touches(s: Stay, lo: int, hi: int)
  {
    s.arrival <= hi && s.departure > lo
  }

  function KeepTouching(stays: seq<Stay>, lo: int, hi: int): (r: seq<Stay>)
    ensures |r| <= |stays|
    decreases |stays|
  {
    if |stays| == 0 then []
    else
      KeepTouching(stays[..|stays| - 1], lo, hi)
      + (if Touches(stays[|stays| - 1], lo, hi) then [stays[|stays| - 1]] else [])
  }

  lemma KeepTouchingAppend(stays: seq<Stay>, s: Stay, lo: int, hi: int)
    ensures KeepTouching(stays + [s], lo, hi) == KeepTouching(stays, lo, hi) + (if Touches(s, lo, hi) then [s] else [])
  {
    var all := stays + [s];
    assert all[..|all| - 1] == stays;
  }

  lemma KeepTouchingProper(stays: seq<Stay>, lo: int, hi: int)
    requires Proper(stays)
    ensures Proper(KeepTouching(stays, lo, hi))
    decreases |stays|
  {
    if |stays| > 0 {
      KeepTouchingProper(stays[..|stays| - 1], lo, hi);
    }
  }

  /** A proper stay that does not touch the horizon leaves every room as it is. */
  lemma {:induction false} UntouchingInert(rooms: seq<seq<Window>>, s: Stay, lo: int, hi: int)
    requires AllValid(rooms, lo, hi) && s.arrival < s.departure && !Touches(s, lo, hi)
    ensures ApplyBooking(rooms, s) == rooms
  {
    forall k | 0 <= k < |rooms| ensures StepRoom(rooms[k], s).None? {
      assert forall i :: 0 <= i < |rooms[k]| ==> Inside(rooms[k][i], lo, hi);
      StepRoomNone(rooms[k], s);
    }
  }

  /**
   * Only the stays that touch the horizon matter: filtering the others out
   * beforehand, by whichever bound, gives the same rooms.
   */
  lemma {:induction false} OnlyTouchingMatter(rooms: seq<seq<Window>>, stays: seq<Stay>, lo: int, hi: int)
    requires AllValid(rooms, lo, hi) && Proper(stays)
    ensures ApplyAll(rooms, stays) == ApplyAll(rooms, KeepTouching(stays, lo, hi))
    decreases |stays|
  {
    if |stays| > 0 {
      var init := stays[..|stays| - 1];
      var last := stays[|stays| - 1];
      var kept := KeepTouching(init, lo, hi);
      OnlyTouchingMatter(rooms, init, lo, hi);
      ApplyAllValid(rooms, init, lo, hi);
      if Touches(last, lo, hi) {
        var all := kept + [last];
        assert all[..|all| - 1] == kept;
      } else {
        assert KeepTouching(stays, lo, hi) == kept;
        UntouchingInert(ApplyAll(rooms, init), last, lo, hi);
      }
    }
  }

  /** The same for rooms that are all still fresh over the horizon [lo, hi]. */
  lemma FilteredStaysAgree(count: nat, lo: int, hi: int, stays: seq<Stay>, kept: seq<Stay>)
    requires lo < hi && Proper(stays) && KeepTouching(stays, lo, hi) == kept
    ensures ApplyAll(Fresh(count, Window(lo, hi)), stays) == ApplyAll(Fresh(count, Window(lo, hi)), kept)
  {
    FreshValid(count, lo, hi);
    OnlyTouchingMatter(Fresh(count, Window(lo, hi)), stays, lo, hi);
  }

  // ----- Endpoints -----

  /** Every window starts and ends within [lo, hi] (the range of the calendar, say). */
  predicate EndsWithin(ws: seq<Window>, lo: int, hi: int)
  {
    forall i :: 0 <= i < |ws| ==> lo <= ws[i].from <= hi && lo <= ws[i].to <= hi
  }

  predicate StaysWithin(stays: seq<Stay>, lo: int, hi: int)
  {
    forall i :: 0 <= i < |stays| ==> lo <= stays[i].arrival <= hi && lo <= stays[i].departure <= hi
  }

  /**
   * A step only ever builds windows from the old window's ends and the
   * stay's ends, so windows never leave a range that holds them all,
   * whatever order the stay's dates come in.
   */
  lemma {:induction false} StepRoomEndsWithin(ws: seq<Window>, s: Stay, lo: int, hi: int)
    requires EndsWithin(ws, lo, hi) && StepRoom(ws, s).Some?
    requires lo <= s.arrival <= hi && lo <= s.departure <= hi
    ensures EndsWithin(StepRoom(ws, s).value, lo, hi)
  {
    var i := StepRoomSubtracts(ws, s);
    var after := DeleteAt(ws, i) + Subtract(ws[i], s);
    forall x | 0 <= x < |after| ensures lo <= after[x].from <= hi && lo <= after[x].to <= hi {
      if x < |ws| - 1 {
        assert after[x] == DeleteAt(ws, i)[x];
      } else {
        assert after[x] == Subtract(ws[i], s)[x - (|ws| - 1)];
      }
    }
  }

  lemma {:induction false} ApplyAllEndsWithin(rooms: seq<seq<Window>>, stays: seq<Stay>, lo: int, hi: int)
    requires forall k :: 0 <= k < |rooms| ==> EndsWithin(rooms[k], lo, hi)
    requires StaysWithin(stays, lo, hi)
    ensures forall k :: 0 <= k < |rooms| ==> EndsWithin(ApplyAll(rooms, stays)[k], lo, hi)
    decreases |stays|
  {
    if |stays| > 0 {
      var init := stays[..|stays| - 1];
      var last := stays[|stays| - 1];
      ApplyAllEndsWithin(rooms, init, lo, hi);
      var before := ApplyAll(rooms, init);
      match FirstTakingRoom(before, last)
      case None =>
      case Some(k) =>
        StepRoomEndsWithin(before[k], last, lo, hi);
    }
  }

  lemma {:induction false} FlattenMember(rooms: seq<seq<Window>>, w: Window) returns (k: nat)
    requires w in Flatten(rooms)
    ensures k < |rooms| && w in rooms[k]
    decreases |rooms|
  {
    var init := rooms[..|rooms| - 1];
    if w in rooms[|rooms| - 1] {
      k := |rooms| - 1;
    } else {
      k := FlattenMember(init, w);
    }
  }

  // ----- Full bookings -----

  /**
   * j identical stays that cover the whole horizon take the first j of n
   * fresh rooms entirely, one room each, and leave the others untouched.
   */
  lemma {:induction false} FullStaysFillRooms(n: nat, horizon: Window, j: nat)
    requires horizon.from < horizon.to && j <= n
    ensures ApplyAll(Fresh(n, horizon), seq(j, _ => Stay(horizon.from, horizon.to)))
         == seq(n, k => if k < j then [] else [horizon])
    decreases j
  {
    var s := Stay(horizon.from, horizon.to);
    if j == 0 {
      assert Fresh(n, horizon) == seq(n, k => if k < 0 then [] else [horizon]);
    } else {
      var stays := seq(j, _ => s);
      assert stays[..j - 1] == seq(j - 1, _ => s);
      FullStaysFillRooms(n, horizon, j - 1);
      var before: seq<seq<Window>> := seq(n, k => if k < j - 1 then [] else [horizon]);
      assert before[j - 1] == [horizon];
      ExactFirst(before[j - 1], s);
      assert Remove([horizon], horizon) == [];
      forall k | 0 <= k < j - 1 ensures StepRoom(before[k], s).None? {
        assert before[k] == [];
      }
      FirstTakingRoomIs(before, s, j - 1);
      assert before[j - 1 := []] == seq(n, k => if k < j then [] else [horizon]);
    }
  }

  /** So no free window is left in any of the rooms. */
  lemma FullStaysLeaveNothing(n: nat, horizon: Window, stays: seq<Stay>)
    requires horizon.from < horizon.to && stays == seq(n, _ => Stay(horizon.from, horizon.to))
    ensures Flatten(ApplyAll(Fresh(n, horizon), stays)) == []
  {
    FullStaysFillRooms(n, horizon, n);
    FlattenEmptyRooms(ApplyAll(Fresh(n, horizon), stays));
  }

  lemma FlattenEmptyRooms(rooms: seq<seq<Window>>)
    requires forall k :: 0 <= k < |rooms| ==> rooms[k] == []
    ensures Flatten(rooms) == []
  {
  }
}
