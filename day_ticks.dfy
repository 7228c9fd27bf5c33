/**
 * Day numbers as DateTime ticks: midnight of day d is d * TicksPerDay. The
 * free-window engine and the grouping only compare and copy instants, and
 * scaling by a positive constant keeps every comparison, so running them on
 * the midnights of some days gives the midnights of running them on the days.
 */
module DayTicks {
  import opened Wrappers
  import opened Calendar
  import opened FreeWindows
  import opened Aggregation

  function Midnight(d: int): int
  {
    d * TicksPerDay
  }

  /** Midnight of d days later is d days' worth of ticks later. */
  lemma MidnightShift(q: int, d: int)
    ensures Midnight(q + d) == Midnight(q) + d * TicksPerDay
  {
  }

  function WindowAt(w: Window): Window
  {
    Window(Midnight(w.from), Midnight(w.to))
  }

  function StayAt(s: Stay): Stay
  {
    Stay(Midnight(s.arrival), Midnight(s.departure))
  }

  function GroupAt(g: Group): Group
  {
    Group(WindowAt(g.window), g.count)
  }

  function WindowsAt(ws: seq<Window>): (r: seq<Window>)
    ensures |r| == |ws| && forall i :: 0 <= i < |ws| ==> r[i] == WindowAt(ws[i])
  {
    seq(|ws|, i requires 0 <= i < |ws| => WindowAt(ws[i]))
  }

  function RoomsAt(rooms: seq<seq<Window>>): (r: seq<seq<Window>>)
    ensures |r| == |rooms| && forall k :: 0 <= k < |rooms| ==> r[k] == WindowsAt(rooms[k])
  {
    seq(|rooms|, k requires 0 <= k < |rooms| => WindowsAt(rooms[k]))
  }

  lemma RoomsAtEqual(rooms: seq<seq<Window>>, others: seq<seq<Window>>)
    requires rooms == others
    ensures RoomsAt(rooms) == RoomsAt(others)
  {
  }

  function StaysAt(stays: seq<Stay>): (r: seq<Stay>)
    ensures |r| == |stays| && forall i :: 0 <= i < |stays| ==> r[i] == StayAt(stays[i])
  {
    seq(|stays|, i requires 0 <= i < |stays| => StayAt(stays[i]))
  }

  function GroupsAt(gs: seq<Group>): (r: seq<Group>)
    ensures |r| == |gs| && forall i :: 0 <= i < |gs| ==> r[i] == GroupAt(gs[i])
  {
    seq(|gs|, i requires 0 <= i < |gs| => GroupAt(gs[i]))
  }

  function OptionAt(o: Option<Window>): Option<Window>
  {
    match o
    case None => None
    case Some(w) => Some(WindowAt(w))
  }

  function StepAt(o: Option<seq<Window>>): Option<seq<Window>>
  {
    match o
    case None => None
    case Some(ws) => Some(WindowsAt(ws))
  }

  // ----- Comparisons survive the scaling -----

  lemma WindowAtInjective(v: Window, w: Window)
    ensures WindowAt(v) == WindowAt(w) ==> v == w
  {
  }

  lemma FitsAt(shape: Shape, s: Stay, w: Window)
    ensures Fits(shape, StayAt(s), WindowAt(w)) <==> Fits(shape, s, w)
  {
  }

  lemma BeforeAt(v: Window, w: Window)
    ensures Before(WindowAt(v), WindowAt(w)) <==> Before(v, w)
  {
  }

  lemma InAt(ws: seq<Window>, w: Window)
    ensures WindowAt(w) in WindowsAt(ws) <==> w in ws
  {
    if WindowAt(w) in WindowsAt(ws) {
      var i :| 0 <= i < |ws| && WindowsAt(ws)[i] == WindowAt(w);
      WindowAtInjective(ws[i], w);
    }
    if w in ws {
      var i :| 0 <= i < |ws| && ws[i] == w;
      assert WindowsAt(ws)[i] == WindowAt(w);
    }
  }

  lemma WindowsAtTail(ws: seq<Window>)
    requires |ws| > 0
    ensures WindowsAt(ws)[1..] == WindowsAt(ws[1..])
  {
  }

  lemma WindowsAtAppend(ws: seq<Window>, vs: seq<Window>)
    ensures WindowsAt(ws + vs) == WindowsAt(ws) + WindowsAt(vs)
  {
  }

  // ----- The engine commutes with the scaling -----

  lemma {:induction false} FirstFittingAt(ws: seq<Window>, shape: Shape, s: Stay)
    ensures FirstFitting(WindowsAt(ws), shape, StayAt(s)) == OptionAt(FirstFitting(ws, shape, s))
    decreases |ws|
  {
    if |ws| > 0 {
      FitsAt(shape, s, ws[0]);
      WindowsAtTail(ws);
      FirstFittingAt(ws[1..], shape, s);
    }
  }

  lemma {:induction false} IndexOfAt(ws: seq<Window>, w: Window)
    requires w in ws
    ensures WindowAt(w) in WindowsAt(ws)
    ensures IndexOf(WindowsAt(ws), WindowAt(w)) == IndexOf(ws, w)
    decreases |ws|
  {
    InAt(ws, w);
    if ws[0] != w {
      WindowAtInjective(ws[0], w);
      WindowsAtTail(ws);
      IndexOfAt(ws[1..], w);
    }
  }

  lemma RemoveAt(ws: seq<Window>, w: Window)
    ensures Remove(WindowsAt(ws), WindowAt(w)) == WindowsAt(Remove(ws, w))
  {
    InAt(ws, w);
    if w in ws {
      IndexOfAt(ws, w);
      var i := IndexOf(ws, w);
      assert DeleteAt(WindowsAt(ws), i) == WindowsAt(DeleteAt(ws, i));
    }
  }

  /** Taking a stay from the start of a window commutes with the scaling. */
  lemma LeftTrimAt(ws: seq<Window>, s: Stay, w: Window)
    ensures Remove(WindowsAt(ws) + [Window(StayAt(s).departure, WindowAt(w).to)], WindowAt(w))
         == WindowsAt(Remove(ws + [Window(s.departure, w.to)], w))
  {
    var added := [Window(s.departure, w.to)];
    WindowsAtAppend(ws, added);
    assert WindowsAt(added) == [Window(StayAt(s).departure, WindowAt(w).to)];
    RemoveAt(ws + added, w);
  }

  /** Taking a stay from the inside of a window commutes with the scaling. */
  lemma SplitAt(ws: seq<Window>, s: Stay, w: Window)
    ensures Remove(WindowsAt(ws) + [Window(WindowAt(w).from, StayAt(s).arrival), Window(StayAt(s).departure, WindowAt(w).to)],
                   WindowAt(w))
         == WindowsAt(Remove(ws + [Window(w.from, s.arrival), Window(s.departure, w.to)], w))
  {
    var added := [Window(w.from, s.arrival), Window(s.departure, w.to)];
    WindowsAtAppend(ws, added);
    assert WindowsAt(added) == [Window(WindowAt(w).from, StayAt(s).arrival), Window(StayAt(s).departure, WindowAt(w).to)];
    RemoveAt(ws + added, w);
  }

  lemma StepRoomAt(ws: seq<Window>, s: Stay)
    ensures StepRoom(WindowsAt(ws), StayAt(s)) == StepAt(StepRoom(ws, s))
  {
    FirstFittingAt(ws, Exact, s);
    FirstFittingAt(ws, LeftAligned, s);
    FirstFittingAt(ws, Interior, s);
    match FirstFitting(ws, Exact, s)
    case Some(w) =>
      RemoveAt(ws, w);
    case None =>
      match FirstFitting(ws, LeftAligned, s)
      case Some(w) =>
        LeftTrimAt(ws, s, w);
      case None =>
        match FirstFitting(ws, Interior, s)
        case Some(w) =>
          SplitAt(ws, s, w);
        case None =>
  }

  lemma {:induction false} FirstTakingRoomAt(rooms: seq<seq<Window>>, s: Stay)
    ensures FirstTakingRoom(RoomsAt(rooms), StayAt(s)) == FirstTakingRoom(rooms, s)
    decreases |rooms|
  {
    if |rooms| > 0 {
      StepRoomAt(rooms[0], s);
      assert RoomsAt(rooms)[1..] == RoomsAt(rooms[1..]);
      FirstTakingRoomAt(rooms[1..], s);
    }
  }

  lemma ApplyBookingAt(rooms: seq<seq<Window>>, s: Stay)
    ensures ApplyBooking(RoomsAt(rooms), StayAt(s)) == RoomsAt(ApplyBooking(rooms, s))
  {
    FirstTakingRoomAt(rooms, s);
    match FirstTakingRoom(rooms, s)
    case None =>
    case Some(k) =>
      StepRoomAt(rooms[k], s);
      assert RoomsAt(rooms)[k := WindowsAt(StepRoom(rooms[k], s).value)]
          == RoomsAt(rooms[k := StepRoom(rooms[k], s).value]);
  }

  lemma {:induction false} ApplyAllAt(rooms: seq<seq<Window>>, stays: seq<Stay>)
    ensures ApplyAll(RoomsAt(rooms), StaysAt(stays)) == RoomsAt(ApplyAll(rooms, stays))
    decreases |stays|
  {
    if |stays| > 0 {
      var init := stays[..|stays| - 1];
      assert StaysAt(stays)[..|stays| - 1] == StaysAt(init);
      ApplyAllAt(rooms, init);
      ApplyBookingAt(ApplyAll(rooms, init), stays[|stays| - 1]);
    }
  }

  lemma FreshAt(count: nat, horizon: Window)
    ensures Fresh(count, WindowAt(horizon)) == RoomsAt(Fresh(count, horizon))
  {
    var one := WindowsAt([horizon]);
    assert one[0] == WindowAt(horizon);
    assert one == [WindowAt(horizon)];
  }

  lemma {:induction false} FlattenAt(rooms: seq<seq<Window>>)
    ensures Flatten(RoomsAt(rooms)) == WindowsAt(Flatten(rooms))
    decreases |rooms|
  {
    if |rooms| > 0 {
      var init := rooms[..|rooms| - 1];
      assert RoomsAt(rooms)[..|rooms| - 1] == RoomsAt(init);
      FlattenAt(init);
      WindowsAtAppend(Flatten(init), rooms[|rooms| - 1]);
    }
  }

  // ----- The grouping commutes with the scaling -----

  lemma SortedAt(gs: seq<Group>)
    requires Sorted(gs) && Positive(gs)
    ensures Sorted(GroupsAt(gs)) && Positive(GroupsAt(gs))
  {
    forall i, j | 0 <= i < j < |gs| ensures Before(GroupsAt(gs)[i].window, GroupsAt(gs)[j].window) {
      BeforeAt(gs[i].window, gs[j].window);
    }
  }

  lemma GroupsAtCons(g: Group, gs: seq<Group>)
    ensures GroupsAt([g] + gs) == [GroupAt(g)] + GroupsAt(gs)
  {
  }

  lemma {:induction false} InsertAt(gs: seq<Group>, w: Window)
    requires Sorted(gs) && Positive(gs)
    ensures Sorted(GroupsAt(gs)) && Positive(GroupsAt(gs))
    ensures Insert(GroupsAt(gs), WindowAt(w)) == GroupsAt(Insert(gs, w))
    decreases |gs|
  {
    SortedAt(gs);
    if |gs| > 0 {
      WindowAtInjective(gs[0].window, w);
      BeforeAt(w, gs[0].window);
      assert GroupsAt(gs)[1..] == GroupsAt(gs[1..]);
      if gs[0].window == w {
        GroupsAtCons(Group(w, gs[0].count + 1), gs[1..]);
      } else if Before(w, gs[0].window) {
        GroupsAtCons(Group(w, 1), gs);
      } else {
        InsertAt(gs[1..], w);
        GroupsAtCons(gs[0], Insert(gs[1..], w));
      }
    }
  }

  /** Grouping midnights gives the midnights of the grouping, with the same counts in the same order. */
  lemma {:induction false} TallyAt(ws: seq<Window>)
    ensures Tally(WindowsAt(ws)) == GroupsAt(Tally(ws))
    decreases |ws|
  {
    if |ws| > 0 {
      var init := ws[..|ws| - 1];
      assert WindowsAt(ws)[..|ws| - 1] == WindowsAt(init);
      TallyAt(init);
      InsertAt(Tally(init), ws[|ws| - 1]);
    }
  }
}
