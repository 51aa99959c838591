/** `print_rooms_info` and `get_time_until_next_event` (src/utils.py): the
    `--list` view, which groups the available rooms by floor, visits the
    floors in ascending order and labels each room with the time until its
    next event. What is printed is returned as a `Listing`; the next-event
    query is a parameter giving, per calendar id, the start of the first
    event the service returns, if any. Times are seconds since the epoch. */
module RoomsInfo {
  import opened Wrappers
  import opened Models
  import opened Seqs
  import opened Availability

  // ---------------------------------------------------------------------
  // get_time_until_next_event

  /** The label printed beside a room. `HoursUntil` carries the number of
      seconds; its one-decimal rendering is not modelled. */
  datatype NextEvent = NoUpcomingEvents | MinutesUntil(minutes: int) | HoursUntil(seconds: int)

  /** Python's `int(a / 60)`: the quotient rounded toward zero. */
  function MinutesTowardZero(seconds: int): int {
    if seconds >= 0 then seconds / 60 else -((-seconds) / 60)
  }

  /** No event gives the sentinel; a gap under an hour is shown in whole
      minutes, rounded toward zero (an event that already started gives a
      gap of zero or fewer minutes); otherwise the gap is shown in hours. */
  function TimeUntilNextEvent(nextStart: Option<int>, start: int): (r: NextEvent)
    ensures r.NoUpcomingEvents? <==> nextStart.None?
    ensures r.MinutesUntil? ==>
              var gap := nextStart.value - start;
              && gap < 3600
              && (gap >= 0 ==> 0 <= 60 * r.minutes <= gap < 60 * r.minutes + 60)
              && (gap < 0 ==> 60 * r.minutes - 60 < gap <= 60 * r.minutes <= 0)
    ensures r.HoursUntil? ==> r.seconds == nextStart.value - start >= 3600
  {
    match nextStart
    case None => NoUpcomingEvents
    case Some(t) =>
      var gap := t - start;
      if gap < 3600 then MinutesUntil(MinutesTowardZero(gap)) else HoursUntil(gap)
  }

  // ---------------------------------------------------------------------
  // Grouping by floor

  predicate StrictlyAscending(fs: seq<int>) {
    forall i, j :: 0 <= i < j < |fs| ==> fs[i] < fs[j]
  }

  lemma RoomsOnFloorSnoc(s: seq<Room>, r: Room, f: int)
    ensures RoomsOnFloor(s + [r], f) == RoomsOnFloor(s, f) + (if r.floor == f then [r] else [])
  {
    FilterAppend(s, [r], FloorIs(f));
    FilterCons(r, [], FloorIs(f));
    assert [r] + [] == [r];
  }

  lemma NoRoomsOnFloor(s: seq<Room>, f: int)
    requires forall r :: r in s ==> r.floor != f
    ensures RoomsOnFloor(s, f) == []
  {
    FilterNoneKept(s, FloorIs(f));
  }

  /** A set that is not empty has an element. Dafny does not find the
      witness for `var y :| y in s` from `s != {}` alone. */
  lemma NonEmptyHasElement(s: set<int>)
    requires s != {}
    ensures exists x :: x in s
  {
    if forall x :: x !in s {
      assert false;
    }
  }

  /** Every non-empty finite set of floors has a least element. */
  lemma {:induction false} LeastExists(s: set<int>)
    requires s != {}
    ensures exists m :: m in s && forall x :: x in s ==> m <= x
    decreases |s|
  {
    NonEmptyHasElement(s);
    var y :| y in s;
    var rest := s - {y};
    if rest == {} {
      forall x | x in s ensures y <= x {
        assert x !in rest;
      }
    } else {
      LeastExists(rest);
      var m :| m in rest && forall x :: x in rest ==> m <= x;
      var least := if y < m then y else m;
      forall x | x in s ensures least <= x {
        if x != y {
          assert x in rest;
        }
      }
      assert least in s;
    }
  }

  /** `sorted(keys)` for a set of floors: repeatedly take the least. */
  method SortFloors(keys: set<int>) returns (fs: seq<int>)
    ensures StrictlyAscending(fs)
    ensures forall f :: f in fs <==> f in keys
  {
    var rest := keys;
    fs := [];
    while rest != {}
      invariant rest <= keys
      invariant StrictlyAscending(fs)
      invariant forall f :: f in keys ==> (f in fs <==> f !in rest)
      invariant forall f :: f in fs ==> f in keys
      invariant forall i, f :: 0 <= i < |fs| && f in rest ==> fs[i] < f
      decreases rest
    {
      LeastExists(rest);
      var m :| m in rest && forall x :: x in rest ==> m <= x;
      fs := fs + [m];
      rest := rest - {m};
    }
  }

  /** Some room of `s` is on floor `f`. */
  predicate HasRoomOn(s: seq<Room>, f: int) {
    exists r :: r in s && r.floor == f
  }

  lemma HasRoomOnSnoc(s: seq<Room>, r: Room, f: int)
    ensures HasRoomOn(s + [r], f) <==> HasRoomOn(s, f) || r.floor == f
  {
    if HasRoomOn(s + [r], f) && r.floor != f {
      var x :| x in s + [r] && x.floor == f;
      assert x in s;
    }
    if r.floor == f {
      assert r in s + [r];
    }
    if HasRoomOn(s, f) {
      var x :| x in s && x.floor == f;
      assert x in s + [r];
    }
  }

  /** `byFloor` is the `defaultdict` after the rooms `s`: a key for exactly
      the floors of `s`, each holding that floor's rooms in the order of `s`. */
  ghost predicate Grouped(s: seq<Room>, byFloor: map<int, seq<Room>>) {
    && (forall f :: f in byFloor <==> HasRoomOn(s, f))
    && (forall f :: f in byFloor ==> byFloor[f] == RoomsOnFloor(s, f))
  }

  /** One step of the loop: `rooms_by_floor[room.floor].append(room)`. */
  lemma GroupedSnoc(s: seq<Room>, byFloor: map<int, seq<Room>>, r: Room)
    requires Grouped(s, byFloor)
    ensures Grouped(s + [r], byFloor[r.floor := (if r.floor in byFloor then byFloor[r.floor] else []) + [r]])
  {
    var current := if r.floor in byFloor then byFloor[r.floor] else [];
    var next := byFloor[r.floor := current + [r]];
    if r.floor !in byFloor {
      NoRoomsOnFloor(s, r.floor);
    }
    forall f
      ensures f in next <==> HasRoomOn(s + [r], f)
      ensures f in next ==> next[f] == RoomsOnFloor(s + [r], f)
    {
      RoomsOnFloorSnoc(s, r, f);
      HasRoomOnSnoc(s, r, f);
    }
  }

  /** The defaultdict loop and the sorting of its keys: `byFloor` holds, for
      each floor of some available room, that floor's rooms in input order,
      and `floors` lists exactly those floors in ascending order. */
  method GroupByFloor(available: seq<Room>) returns (floors: seq<int>, byFloor: map<int, seq<Room>>)
    ensures StrictlyAscending(floors)
    ensures forall f :: f in floors <==> f in byFloor
    ensures forall f :: f in byFloor <==> HasRoomOn(available, f)
    ensures forall f :: f in byFloor ==> byFloor[f] == RoomsOnFloor(available, f)
  {
    byFloor := map[];
    for i := 0 to |available|
      invariant Grouped(available[..i], byFloor)
    {
      var r := available[i];
      assert available[..i + 1] == available[..i] + [r];
      GroupedSnoc(available[..i], byFloor, r);
      byFloor := byFloor[r.floor := (if r.floor in byFloor then byFloor[r.floor] else []) + [r]];
    }
    assert available[..|available|] == available;
    floors := SortFloors(byFloor.Keys);
  }

  // ---------------------------------------------------------------------
  // print_rooms_info

  /** One printed room line: the room and the label for its next event. */
  datatype RoomLine = RoomLine(room: Room, next: NextEvent)

  /** The lines printed under one "Floor f" heading. */
  datatype FloorGroup = FloorGroup(floor: int, lines: seq<RoomLine>)

  /** What `print_rooms_info` prints: the "no rooms" message, or the floors. */
  datatype Listing = NoRoomsFound | Floors(groups: seq<FloorGroup>)

  /** `lines` shows `rooms`, in order, each with its next-event label. */
  ghost predicate Describes(lines: seq<RoomLine>, rooms: seq<Room>, upcoming: string -> Option<int>, start: int) {
    && |lines| == |rooms|
    && forall i :: 0 <= i < |lines| ==>
         lines[i] == RoomLine(rooms[i], TimeUntilNextEvent(upcoming(rooms[i].id), start))
  }

  /** The groups' floors are exactly the floors that have a room of
      `available`, in strictly ascending order. */
  predicate GroupFloors(available: seq<Room>, groups: seq<FloorGroup>) {
    && (forall i, j :: 0 <= i < j < |groups| ==> groups[i].floor < groups[j].floor)
    && (forall r :: r in available ==> exists i :: 0 <= i < |groups| && groups[i].floor == r.floor)
    && (forall i :: 0 <= i < |groups| ==> HasRoomOn(available, groups[i].floor))
  }

  /** Each group shows its floor's rooms in the order of `available`. */
  ghost predicate GroupsDescribe(available: seq<Room>, groups: seq<FloorGroup>, upcoming: string -> Option<int>, start: int) {
    forall i :: 0 <= i < |groups| ==>
      Describes(groups[i].lines, RoomsOnFloor(available, groups[i].floor), upcoming, start)
  }

  /** The listing of `available`: empty input gives the "no rooms" message;
      otherwise one group per floor that has an available room and no group
      for any other floor, floors in strictly ascending order, each group
      showing that floor's rooms in the order of `available`. */
  ghost predicate ListingOf(available: seq<Room>, upcoming: string -> Option<int>, start: int, listing: Listing) {
    if available == [] then listing == NoRoomsFound
    else
      && listing.Floors?
      && GroupFloors(available, listing.groups)
      && GroupsDescribe(available, listing.groups, upcoming, start)
  }

  /** The lines for one floor's rooms, in order. */
  method DescribeRooms(rooms: seq<Room>, upcoming: string -> Option<int>, start: int) returns (lines: seq<RoomLine>)
    ensures Describes(lines, rooms, upcoming, start)
  {
    lines := [];
    for j := 0 to |rooms|
      invariant Describes(lines, rooms[..j], upcoming, start)
    {
      var room := rooms[j];
      lines := lines + [RoomLine(room, TimeUntilNextEvent(upcoming(room.id), start))];
    }
    assert rooms[..|rooms|] == rooms;
  }

  method PrintRoomsInfo(available: seq<Room>, upcoming: string -> Option<int>, start: int) returns (listing: Listing)
    ensures ListingOf(available, upcoming, start, listing)
  {
    if available == [] {
      return NoRoomsFound;
    }
    var floors, byFloor := GroupByFloor(available);
    var groups: seq<FloorGroup> := [];
    for k := 0 to |floors|
      invariant |groups| == k
      invariant forall i :: 0 <= i < k ==>
                  groups[i].floor == floors[i]
                  && Describes(groups[i].lines, RoomsOnFloor(available, floors[i]), upcoming, start)
    {
      assert floors[k] in floors;
      var lines := DescribeRooms(byFloor[floors[k]], upcoming, start);
      groups := groups + [FloorGroup(floors[k], lines)];
    }
    listing := Floors(groups);
    forall r | r in available
      ensures exists i :: 0 <= i < |groups| && groups[i].floor == r.floor
    {
      assert r.floor in byFloor;
      assert r.floor in floors;
      var i :| 0 <= i < |floors| && floors[i] == r.floor;
    }
    forall i | 0 <= i < |groups|
      ensures HasRoomOn(available, groups[i].floor)
    {
      assert floors[i] in floors;
    }
    assert GroupFloors(available, groups);
  }

  /** Each available room appears in exactly one group, the one for its own
      floor. */
  lemma ExactlyOneGroup(available: seq<Room>, upcoming: string -> Option<int>, start: int, listing: Listing, r: Room)
    requires ListingOf(available, upcoming, start, listing)
    requires r in available
    ensures listing.Floors?
    ensures exists i :: 0 <= i < |listing.groups| && listing.groups[i].floor == r.floor
                        && RoomLine(r, TimeUntilNextEvent(upcoming(r.id), start)) in listing.groups[i].lines
    ensures forall i :: 0 <= i < |listing.groups| && RoomLine(r, TimeUntilNextEvent(upcoming(r.id), start)) in listing.groups[i].lines
                        ==> listing.groups[i].floor == r.floor
  {
    var groups := listing.groups;
    assert GroupFloors(available, groups) && GroupsDescribe(available, groups, upcoming, start);
    var line := RoomLine(r, TimeUntilNextEvent(upcoming(r.id), start));
    var i :| 0 <= i < |groups| && groups[i].floor == r.floor;
    var onFloor := RoomsOnFloor(available, r.floor);
    assert r in onFloor;
    var j :| 0 <= j < |onFloor| && onFloor[j] == r;
    assert groups[i].lines[j] == line;
    forall g | 0 <= g < |groups| && line in groups[g].lines
      ensures groups[g].floor == r.floor
    {
      var rooms := RoomsOnFloor(available, groups[g].floor);
      var t :| 0 <= t < |groups[g].lines| && groups[g].lines[t] == line;
      assert rooms[t] == r;
      assert r in rooms;
    }
  }

  /** No "Floor f" heading is printed without a room under it. */
  lemma NoEmptyGroup(available: seq<Room>, upcoming: string -> Option<int>, start: int, listing: Listing, i: int)
    requires ListingOf(available, upcoming, start, listing)
    requires listing.Floors? && 0 <= i < |listing.groups|
    ensures listing.groups[i].lines != []
  {
    var g := listing.groups[i];
    assert GroupFloors(available, listing.groups) && GroupsDescribe(available, listing.groups, upcoming, start);
    assert HasRoomOn(available, g.floor);
    var r :| r in available && r.floor == g.floor;
    assert r in RoomsOnFloor(available, g.floor);
  }
}
