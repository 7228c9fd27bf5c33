/**
 * The last stage of Search: all rooms' remaining windows are grouped by
 * (start, end), each group becomes one entry carrying its size, and the
 * entries are ordered by start and then by end.
 */
module Aggregation {
  import opened FreeWindows

  /** One result entry before formatting: a distinct window and how often it occurs. */
  datatype Group = Group(window: Window, count: int)

  /** OrderBy(start).ThenBy(end), as a strict order on windows. */
  predicate Before(v: Window, w: Window)
  {
    v.from < w.from || (v.from == w.from && v.to < w.to)
  }

  /** Ascending by start then end, with no window listed twice. */
  predicate Sorted(gs: seq<Group>)
  {
    forall i, j :: 0 <= i < j < |gs| ==> Before(gs[i].window, gs[j].window)
  }

  predicate Positive(gs: seq<Group>)
  {
    forall i :: 0 <= i < |gs| ==> gs[i].count > 0
  }

  /** The count the entries give to window w (0 when no entry has it). */
  function CountOf(gs: seq<Group>, w: Window): int
  {
    if |gs| == 0 then 0 else (if gs[0].window == w then gs[0].count else 0) + CountOf(gs[1..], w)
  }

  /** The sum of all counts. */
  function Total(gs: seq<Group>): int
  {
    if |gs| == 0 then 0 else gs[0].count + Total(gs[1..])
  }

  /** The windows that have an entry. */
  function WindowsOf(gs: seq<Group>): set<Window>
  {
    set i | 0 <= i < |gs| :: gs[i].window
  }

  lemma WindowsOfCons(g: Group, gs: seq<Group>)
    ensures WindowsOf([g] + gs) == {g.window} + WindowsOf(gs)
  {
    var r := [g] + gs;
    forall v | v in WindowsOf(gs) ensures v in WindowsOf(r) {
      var i :| 0 <= i < |gs| && gs[i].window == v;
      assert r[i + 1].window == v;
    }
    assert r[0].window == g.window;
  }

  /** Adds one occurrence of w: its entry's count grows, or a new entry goes in its place in the order. */
  function Insert(gs: seq<Group>, w: Window): (r: seq<Group>)
    requires Sorted(gs) && Positive(gs)
    ensures Sorted(r) && Positive(r)
    ensures |r| > 0 && (r[0].window == w || (|gs| > 0 && r[0].window == gs[0].window))
  {
    if |gs| == 0 then [Group(w, 1)]
    else if gs[0].window == w then [Group(w, gs[0].count + 1)] + gs[1..]
    else if Before(w, gs[0].window) then [Group(w, 1)] + gs
    else [gs[0]] + Insert(gs[1..], w)
  }

  /** Inserting counts exactly one more occurrence of w and nothing else. */
  lemma {:induction false} InsertCounts(gs: seq<Group>, w: Window)
    requires Sorted(gs) && Positive(gs)
    ensures forall v :: CountOf(Insert(gs, w), v) == CountOf(gs, v) + (if v == w then 1 else 0)
    ensures Total(Insert(gs, w)) == Total(gs) + 1
    ensures WindowsOf(Insert(gs, w)) == WindowsOf(gs) + {w}
  {
    var r := Insert(gs, w);
    if |gs| == 0 {
      assert r == [Group(w, 1)];
      assert r[1..] == [];
      WindowsOfCons(r[0], []);
    } else if gs[0].window == w {
      assert r[1..] == gs[1..];
      WindowsOfCons(r[0], gs[1..]);
      WindowsOfCons(gs[0], gs[1..]);
      assert gs == [gs[0]] + gs[1..];
    } else if Before(w, gs[0].window) {
      assert r[1..] == gs;
      WindowsOfCons(r[0], gs);
    } else {
      InsertCounts(gs[1..], w);
      assert r[1..] == Insert(gs[1..], w);
      WindowsOfCons(gs[0], Insert(gs[1..], w));
      WindowsOfCons(gs[0], gs[1..]);
      assert gs == [gs[0]] + gs[1..];
    }
  }

  /**
   * The grouping of a list of windows: one entry per distinct window, in
   * ascending (start, end) order, whose count is how often the window occurs;
   * the counts add up to the length of the list.
   */
  function Tally(ws: seq<Window>): (r: seq<Group>)
    ensures Sorted(r) && Positive(r)
    ensures forall v :: CountOf(r, v) == multiset(ws)[v]
    ensures Total(r) == |ws|
    ensures WindowsOf(r) == set x | x in ws
    decreases |ws|
  {
    if |ws| == 0 then []
    else
      var init := ws[..|ws| - 1];
      assert ws == init + [ws[|ws| - 1]];
      InsertCounts(Tally(init), ws[|ws| - 1]);
      Insert(Tally(init), ws[|ws| - 1])
  }

  /** Grouping keeps every window's ends within the bounds the rooms' windows keep. */
  lemma TallyWithin(rooms: seq<seq<Window>>, lo: int, hi: int)
    requires forall k :: 0 <= k < |rooms| ==> EndsWithin(rooms[k], lo, hi)
    ensures forall i :: 0 <= i < |Tally(Flatten(rooms))| ==>
              && lo <= Tally(Flatten(rooms))[i].window.from <= hi
              && lo <= Tally(Flatten(rooms))[i].window.to <= hi
  {
    var gs := Tally(Flatten(rooms));
    forall i | 0 <= i < |gs| ensures lo <= gs[i].window.from <= hi && lo <= gs[i].window.to <= hi {
      var w := gs[i].window;
      assert w in WindowsOf(gs);
      var k := FlattenMember(rooms, w);
      var j :| 0 <= j < |rooms[k]| && rooms[k][j] == w;
    }
  }

  lemma CountOfEntry(gs: seq<Group>, v: Window) returns (i: nat)
    requires CountOf(gs, v) != 0
    ensures i < |gs| && gs[i].window == v
  {
    if gs[0].window == v {
      i := 0;
    } else {
      var k := CountOfEntry(gs[1..], v);
      i := k + 1;
    }
  }

  lemma CountOfAbsent(gs: seq<Group>, v: Window)
    requires forall i :: 0 <= i < |gs| ==> gs[i].window != v
    ensures CountOf(gs, v) == 0
  {
  }

  lemma HeadIsLeast(gs: seq<Group>, v: Window)
    requires Sorted(gs) && |gs| > 0 && CountOf(gs, v) != 0
    ensures !Before(v, gs[0].window)
  {
    var i := CountOfEntry(gs, v);
  }

  lemma CountOfHead(gs: seq<Group>)
    requires Sorted(gs) && |gs| > 0
    ensures CountOf(gs, gs[0].window) == gs[0].count
  {
    var v := gs[0].window;
    var rest := gs[1..];
    forall i | 0 <= i < |rest| ensures rest[i].window != v {
      assert Before(gs[0].window, gs[i + 1].window);
    }
    CountOfAbsent(rest, v);
  }

  /**
   * Two sorted groupings with positive counts that give every window the
   * same count are the same list: the grouping is determined by the counts,
   * so Tally agrees with grouping, projecting and ordering in any manner.
   */
  lemma {:induction false} GroupingUnique(g1: seq<Group>, g2: seq<Group>)
    requires Sorted(g1) && Positive(g1) && Sorted(g2) && Positive(g2)
    requires forall v :: CountOf(g1, v) == CountOf(g2, v)
    ensures g1 == g2
    decreases |g1|
  {
    if |g1| > 0 {
      CountOfHead(g1);
      HeadIsLeast(g2, g1[0].window);
    }
    if |g2| > 0 {
      CountOfHead(g2);
      HeadIsLeast(g1, g2[0].window);
    }
    if |g1| > 0 && |g2| > 0 {
      assert g1[0].window == g2[0].window;
      assert g1[0] == g2[0];
      forall v ensures CountOf(g1[1..], v) == CountOf(g2[1..], v) {
        assert CountOf(g1, v) == CountOf(g2, v);
      }
      GroupingUnique(g1[1..], g2[1..]);
    }
  }

  /** How many rooms have window w among their windows. */
  function RoomsWith(rooms: seq<seq<Window>>, w: Window): nat
  {
    if |rooms| == 0 then 0
    else RoomsWith(rooms[..|rooms| - 1], w) + (if w in rooms[|rooms| - 1] then 1 else 0)
  }

  lemma {:induction false} OncePerRoom(ws: seq<Window>, w: Window, lo: int, hi: int)
    requires Valid(ws, lo, hi)
    ensures multiset(ws)[w] == if w in ws then 1 else 0
    decreases |ws|
  {
    if |ws| > 0 {
      assert ws == [ws[0]] + ws[1..];
      OncePerRoom(ws[1..], w, lo, hi);
      if ws[0] == w {
        forall j | 0 <= j < |ws| - 1 ensures ws[1..][j] != w {
          assert Apart(ws[0], ws[j + 1]);
        }
      }
    }
  }

  /**
   * Each entry of the grouped result counts rooms: with the room invariant
   * in place, the count of a window is the number of rooms that have it.
   */
  lemma {:induction false} CountIsRooms(rooms: seq<seq<Window>>, w: Window, lo: int, hi: int)
    requires AllValid(rooms, lo, hi)
    ensures CountOf(Tally(Flatten(rooms)), w) == RoomsWith(rooms, w)
    decreases |rooms|
  {
    if |rooms| > 0 {
      var init := rooms[..|rooms| - 1];
      CountIsRooms(init, w, lo, hi);
      OncePerRoom(rooms[|rooms| - 1], w, lo, hi);
    }
  }
}
