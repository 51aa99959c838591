/** `list_available_rooms` (src/utils.py): ask the calendar service which
    rooms are free over a window, keep the free ones that pass the floor and
    capacity filters, and rank them by `(floor, capacity)`.

    The free/busy query itself is a parameter: a function from the request
    body to the service's `calendars` map. Times are seconds since the epoch. */
module Availability {
  import opened Wrappers
  import opened Models
  import opened Seqs

  /** A busy interval reported by the calendar service. */
  datatype Interval = Interval(start: int, end: int)

  /** The service's answer for one calendar id: its busy intervals and any
      errors it reports for that calendar. */
  datatype FreeBusyCalendar = FreeBusyCalendar(busy: seq<Interval>, errors: seq<string>)

  /** `response["calendars"]`: calendar id to its free/busy answer. */
  type Calendars = map<string, FreeBusyCalendar>

  /** The body of the free/busy query. */
  datatype FreeBusyRequest = FreeBusyRequest(timeMin: int, timeMax: int, items: seq<string>, timeZone: string)

  /** The calendar ids of `rooms`, in registry order. */
  function Ids(rooms: seq<Room>): (ids: seq<string>)
    ensures |ids| == |rooms|
    ensures forall i :: 0 <= i < |rooms| ==> ids[i] == rooms[i].id
  {
    seq(|rooms|, i requires 0 <= i < |rooms| => rooms[i].id)
  }

  /** The query asks, in UTC, about every room of the registry over exactly
      the window `[start, end]`. */
  function FreeBusyBody(start: int, end: int, rooms: seq<Room>): (b: FreeBusyRequest)
    ensures b.timeMin == start && b.timeMax == end && b.timeZone == "UTC"
    ensures |b.items| == |rooms|
    ensures forall r :: r in rooms ==> r.id in b.items
  {
    FreeBusyRequest(start, end, Ids(rooms), "UTC")
  }

  // ---------------------------------------------------------------------
  // The three filters

  /** A room is free when the response has an entry for its id and that
      entry's busy list is empty. An id missing from the response is busy. */
  predicate IsFree(r: Room, calendars: Calendars) {
    r.id in calendars && calendars[r.id].busy == []
  }

  /** The floor filter; `None` keeps every room. */
  predicate OnFloor(r: Room, floor: Option<int>) {
    floor.None? || r.floor == floor.value
  }

  /** The capacity filter; `None` keeps every room. */
  predicate HasCapacity(r: Room, minCapacity: Option<int>) {
    minCapacity.None? || r.capacity >= minCapacity.value
  }

  /** A room survives the pipeline's filters. */
  predicate Selected(r: Room, calendars: Calendars, floor: Option<int>, minCapacity: Option<int>) {
    IsFree(r, calendars) && OnFloor(r, floor) && HasCapacity(r, minCapacity)
  }

  function FreeRooms(rooms: seq<Room>, calendars: Calendars): seq<Room> {
    Filter(rooms, r => IsFree(r, calendars))
  }

  /** The test of the floor comprehension, `room.floor == floor`. */
  function FloorIs(f: int): Room -> bool {
    (r: Room) => r.floor == f
  }

  /** The rooms of `s` on floor `f`, in the order of `s`. */
  function RoomsOnFloor(s: seq<Room>, f: int): seq<Room> {
    Filter(s, FloorIs(f))
  }

  function FilterFloor(rooms: seq<Room>, floor: Option<int>): seq<Room> {
    if floor.None? then rooms else RoomsOnFloor(rooms, floor.value)
  }

  function FilterCapacity(rooms: seq<Room>, minCapacity: Option<int>): seq<Room> {
    if minCapacity.None? then rooms else Filter(rooms, (r: Room) => r.capacity >= minCapacity.value)
  }

  /** The list before sorting: free rooms, then the floor filter, then the
      capacity filter, each a comprehension over the previous list. */
  function Candidates(rooms: seq<Room>, calendars: Calendars, floor: Option<int>, minCapacity: Option<int>): seq<Room> {
    FilterCapacity(FilterFloor(FreeRooms(rooms, calendars), floor), minCapacity)
  }

  /** The three successive comprehensions select exactly the rooms that pass
      all three tests, in input order. */
  lemma CandidatesAreSelected(rooms: seq<Room>, calendars: Calendars, floor: Option<int>, minCapacity: Option<int>)
    ensures Candidates(rooms, calendars, floor, minCapacity)
         == Filter(rooms, r => Selected(r, calendars, floor, minCapacity))
  {
    var free := r => IsFree(r, calendars);
    var freeOnFloor := r => IsFree(r, calendars) && OnFloor(r, floor);
    var all := r => Selected(r, calendars, floor, minCapacity);
    if floor.None? {
      FilterFilter(rooms, free, r => true, freeOnFloor);
      FilterAllKept(FreeRooms(rooms, calendars), r => true);
    } else {
      FilterFilter(rooms, free, FloorIs(floor.value), freeOnFloor);
    }
    var onFloor := Filter(rooms, freeOnFloor);
    assert FilterFloor(FreeRooms(rooms, calendars), floor) == onFloor;
    if minCapacity.None? {
      FilterFilter(rooms, freeOnFloor, r => true, all);
      FilterAllKept(onFloor, r => true);
    } else {
      FilterFilter(rooms, freeOnFloor, (r: Room) => r.capacity >= minCapacity.value, all);
    }
  }

  // ---------------------------------------------------------------------
  // Ranking: `sorted(rooms, key=lambda x: (x.floor, x.capacity))`

  function Key(r: Room): (int, int) {
    (r.floor, r.capacity)
  }

  /** Python's lexicographic `<=` on the pair `(floor, capacity)`. */
  predicate KeyLe(a: Room, b: Room) {
    a.floor < b.floor || (a.floor == b.floor && a.capacity <= b.capacity)
  }

  predicate SortedByKey(s: seq<Room>) {
    forall i, j :: 0 <= i < j < |s| ==> KeyLe(s[i], s[j])
  }

  /** The test "the key of this room is `k`". */
  function KeyIs(k: (int, int)): Room -> bool {
    (r: Room) => Key(r) == k
  }

  /** The rooms of `s` whose key is `k`, in the order of `s`. A sort is
      stable when it leaves each of these subsequences as it was. */
  function WithKey(s: seq<Room>, k: (int, int)): seq<Room> {
    Filter(s, KeyIs(k))
  }

  /** A room no greater than `x` and than every room of `u` is no greater
      than any room of a permutation of `u` plus `x`. */
  lemma LowerBound(y: Room, x: Room, u: seq<Room>, t: seq<Room>)
    requires multiset(t) == multiset(u) + multiset{x}
    requires KeyLe(y, x)
    requires forall j :: 0 <= j < |u| ==> KeyLe(y, u[j])
    ensures forall j :: 0 <= j < |t| ==> KeyLe(y, t[j])
  {
    forall j | 0 <= j < |t| ensures KeyLe(y, t[j]) {
      assert t[j] in multiset(u) + multiset{x};
      if t[j] != x {
        assert t[j] in multiset(u);
        var i :| 0 <= i < |u| && u[i] == t[j];
      }
    }
  }

  /** Insert `x` into a sorted list in front of the first element whose key
      is not smaller than its own. */
  function Insert(x: Room, s: seq<Room>): (r: seq<Room>)
    requires SortedByKey(s)
    ensures SortedByKey(r)
    ensures multiset(r) == multiset(s) + multiset{x}
  {
    if s == [] then [x]
    else if KeyLe(x, s[0]) then [x] + s
    else
      var t := Insert(x, s[1..]);
      assert s == [s[0]] + s[1..];
      assert forall j :: 0 <= j < |s[1..]| ==> KeyLe(s[0], s[1..][j]) by {
        forall j | 0 <= j < |s[1..]| ensures KeyLe(s[0], s[1..][j]) {
          assert s[1..][j] == s[j + 1];
        }
      }
      LowerBound(s[0], x, s[1..], t);
      [s[0]] + t
  }

  /** A stable sort by `Key`, standing for Python's `sorted`: RankIsStableSort
      shows that no other sorted, stable permutation exists. */
  function Rank(s: seq<Room>): (r: seq<Room>)
    ensures SortedByKey(r)
    ensures multiset(r) == multiset(s)
    ensures |r| == |s|
  {
    if s == [] then []
    else
      assert s == [s[0]] + s[1..];
      Insert(s[0], Rank(s[1..]))
  }

  lemma {:induction false} InsertWithKey(x: Room, s: seq<Room>, k: (int, int))
    requires SortedByKey(s)
    ensures WithKey(Insert(x, s), k) == (if Key(x) == k then [x] else []) + WithKey(s, k)
  {
    var p := KeyIs(k);
    if s == [] {
      FilterCons(x, [], p);
    } else if KeyLe(x, s[0]) {
      FilterCons(x, s, p);
    } else {
      assert s == [s[0]] + s[1..];
      InsertWithKey(x, s[1..], k);
      FilterCons(s[0], Insert(x, s[1..]), p);
      FilterCons(s[0], s[1..], p);
    }
  }

  /** Stability: ranking keeps the relative order of rooms with equal keys. */
  lemma {:induction false} RankWithKey(s: seq<Room>, k: (int, int))
    ensures WithKey(Rank(s), k) == WithKey(s, k)
  {
    if s != [] {
      var head := if Key(s[0]) == k then [s[0]] else [];
      calc {
        WithKey(Rank(s), k);
        { assert Rank(s) == Insert(s[0], Rank(s[1..])); }
        WithKey(Insert(s[0], Rank(s[1..])), k);
        { InsertWithKey(s[0], Rank(s[1..]), k); }
        head + WithKey(Rank(s[1..]), k);
        { RankWithKey(s[1..], k); }
        head + WithKey(s[1..], k);
        { FilterCons(s[0], s[1..], KeyIs(k)); }
        WithKey([s[0]] + s[1..], k);
        { assert [s[0]] + s[1..] == s; }
        WithKey(s, k);
      }
    }
  }

  /** Sorted permutations of each other start with rooms of the same key. */
  lemma SameLeastKey(a: seq<Room>, b: seq<Room>)
    requires SortedByKey(a) && SortedByKey(b)
    requires multiset(a) == multiset(b) && a != []
    ensures b != [] && Key(a[0]) == Key(b[0])
  {
    assert |b| == |multiset(b)| == |multiset(a)| == |a|;
    assert a[0] in multiset(b);
    assert b[0] in multiset(a);
    var i :| 0 <= i < |b| && b[i] == a[0];
    var j :| 0 <= j < |a| && a[j] == b[0];
    assert KeyLe(b[0], b[i]) by { assert i == 0 || KeyLe(b[0], b[i]); }
    assert KeyLe(a[0], a[j]) by { assert j == 0 || KeyLe(a[0], a[j]); }
  }

  /** Equal keyed subsequences, minus a common first room. */
  lemma WithKeyTail(x: Room, a: seq<Room>, b: seq<Room>, k: (int, int))
    requires WithKey([x] + a, k) == WithKey([x] + b, k)
    ensures WithKey(a, k) == WithKey(b, k)
  {
    FilterCons(x, a, KeyIs(k));
    FilterCons(x, b, KeyIs(k));
    if Key(x) == k {
      calc {
        WithKey(a, k);
        ([x] + WithKey(a, k))[1..];
        WithKey([x] + a, k)[1..];
        WithKey([x] + b, k)[1..];
        ([x] + WithKey(b, k))[1..];
        WithKey(b, k);
      }
    } else {
      assert [] + WithKey(a, k) == WithKey(a, k);
      assert [] + WithKey(b, k) == WithKey(b, k);
    }
  }

  /** Two sorted, stable permutations of the same rooms are equal. */
  lemma {:induction false} SortedStableUnique(a: seq<Room>, b: seq<Room>)
    requires SortedByKey(a) && SortedByKey(b)
    requires multiset(a) == multiset(b)
    requires forall k :: WithKey(a, k) == WithKey(b, k)
    ensures a == b
  {
    if a == [] {
      assert |b| == |multiset(b)| == 0;
    } else {
      SameLeastKey(a, b);
      var k0 := Key(a[0]);
      assert a == [a[0]] + a[1..];
      assert b == [b[0]] + b[1..];
      FilterCons(a[0], a[1..], KeyIs(k0));
      FilterCons(b[0], b[1..], KeyIs(k0));
      assert WithKey(a, k0)[0] == WithKey(b, k0)[0];
      assert a[0] == b[0];
      forall k
        ensures WithKey(a[1..], k) == WithKey(b[1..], k)
      {
        assert WithKey(a, k) == WithKey(b, k);
        WithKeyTail(a[0], a[1..], b[1..], k);
      }
      assert multiset(a[1..]) == multiset(b[1..]) by {
        assert multiset(a[1..]) == multiset(a) - multiset{a[0]};
        assert multiset(b[1..]) == multiset(b) - multiset{b[0]};
      }
      SortedStableUnique(a[1..], b[1..]);
    }
  }

  /** Rank is THE stable sort: every sorted permutation of `s` that keeps the
      order of equal keys is `Rank(s)`. */
  lemma RankIsStableSort(s: seq<Room>, t: seq<Room>)
    requires SortedByKey(t)
    requires multiset(t) == multiset(s)
    requires forall k :: WithKey(t, k) == WithKey(s, k)
    ensures t == Rank(s)
  {
    forall k ensures WithKey(t, k) == WithKey(Rank(s), k) {
      RankWithKey(s, k);
    }
    SortedStableUnique(t, Rank(s));
  }

  // ---------------------------------------------------------------------
  // The whole pipeline

  /** What `list_available_rooms` returns once the service has answered. */
  function SelectAvailable(rooms: seq<Room>, calendars: Calendars, floor: Option<int>, minCapacity: Option<int>): (r: seq<Room>)
    ensures SortedByKey(r)
    ensures |r| <= |rooms|
  {
    Rank(Candidates(rooms, calendars, floor, minCapacity))
  }

  /** `list_available_rooms`: query the service once for the whole registry
      and select from its answer. */
  function ListAvailableRooms(start: int, end: int, rooms: seq<Room>,
                              freeBusy: FreeBusyRequest -> Calendars,
                              floor: Option<int>, minCapacity: Option<int>): (r: seq<Room>)
    ensures SortedByKey(r)
    ensures |r| <= |rooms|
  {
    SelectAvailable(rooms, freeBusy(FreeBusyBody(start, end, rooms)), floor, minCapacity)
  }

  /** Soundness: every returned room is in the response with an empty busy
      list (so an id missing from the response is never returned), is on the
      requested floor and has at least the requested capacity. */
  lemma SelectAvailableSound(rooms: seq<Room>, calendars: Calendars, floor: Option<int>, minCapacity: Option<int>, r: Room)
    requires r in SelectAvailable(rooms, calendars, floor, minCapacity)
    ensures r in rooms
    ensures r.id in calendars && calendars[r.id].busy == []
    ensures floor.Some? ==> r.floor == floor.value
    ensures minCapacity.Some? ==> r.capacity >= minCapacity.value
  {
    var c := Candidates(rooms, calendars, floor, minCapacity);
    assert r in multiset(Rank(c));
    CandidatesAreSelected(rooms, calendars, floor, minCapacity);
  }

  /** Completeness: each room of the registry occurs in the result exactly as
      often as in the registry if it passes all three tests, and not at all
      otherwise. With `floor` or `minCapacity` absent, that test passes every
      room. */
  lemma SelectAvailableComplete(rooms: seq<Room>, calendars: Calendars, floor: Option<int>, minCapacity: Option<int>, r: Room)
    ensures multiset(SelectAvailable(rooms, calendars, floor, minCapacity))[r]
         == if Selected(r, calendars, floor, minCapacity) then multiset(rooms)[r] else 0
  {
    CandidatesAreSelected(rooms, calendars, floor, minCapacity);
    FilterCount(rooms, x => Selected(x, calendars, floor, minCapacity), r);
  }

  /** An id the response does not mention is never returned (fail closed). */
  lemma MissingIdExcluded(rooms: seq<Room>, calendars: Calendars, floor: Option<int>, minCapacity: Option<int>, r: Room)
    requires r.id !in calendars
    ensures r !in SelectAvailable(rooms, calendars, floor, minCapacity)
  {
    SelectAvailableComplete(rooms, calendars, floor, minCapacity, r);
  }

  /** Absent filters remove nothing: every free room of the registry is
      returned when neither a floor nor a minimum capacity is given. */
  lemma NoFiltersKeepsEveryFreeRoom(rooms: seq<Room>, calendars: Calendars, r: Room)
    requires r in rooms && IsFree(r, calendars)
    ensures r in SelectAvailable(rooms, calendars, None, None)
  {
    SelectAvailableComplete(rooms, calendars, None, None, r);
  }

  /** Stability with respect to the registry: among returned rooms with equal
      `(floor, capacity)`, the registry's order is kept. */
  lemma SelectAvailableStable(rooms: seq<Room>, calendars: Calendars, floor: Option<int>, minCapacity: Option<int>, k: (int, int))
    ensures WithKey(SelectAvailable(rooms, calendars, floor, minCapacity), k)
         == Filter(rooms, r => Selected(r, calendars, floor, minCapacity) && Key(r) == k)
  {
    CandidatesAreSelected(rooms, calendars, floor, minCapacity);
    RankWithKey(Candidates(rooms, calendars, floor, minCapacity), k);
    FilterFilter(rooms, r => Selected(r, calendars, floor, minCapacity), KeyIs(k),
                 r => Selected(r, calendars, floor, minCapacity) && Key(r) == k);
  }

  /** The result is empty exactly when no room of the registry passes the
      filters. */
  lemma EmptyIffNoneSelected(rooms: seq<Room>, calendars: Calendars, floor: Option<int>, minCapacity: Option<int>)
    ensures SelectAvailable(rooms, calendars, floor, minCapacity) == []
        <==> forall r :: r in rooms ==> !Selected(r, calendars, floor, minCapacity)
  {
    var out := SelectAvailable(rooms, calendars, floor, minCapacity);
    if out != [] {
      SelectAvailableSound(rooms, calendars, floor, minCapacity, out[0]);
    }
    forall r | r in rooms && Selected(r, calendars, floor, minCapacity)
      ensures out != []
    {
      SelectAvailableComplete(rooms, calendars, floor, minCapacity, r);
    }
  }

  /** The first returned room is least by `(floor, capacity)` among all rooms
      of the registry that pass the filters. */
  lemma FirstIsLeast(rooms: seq<Room>, calendars: Calendars, floor: Option<int>, minCapacity: Option<int>, r: Room)
    requires r in rooms && Selected(r, calendars, floor, minCapacity)
    ensures SelectAvailable(rooms, calendars, floor, minCapacity) != []
    ensures KeyLe(SelectAvailable(rooms, calendars, floor, minCapacity)[0], r)
  {
    var out := SelectAvailable(rooms, calendars, floor, minCapacity);
    SelectAvailableComplete(rooms, calendars, floor, minCapacity, r);
    assert r in multiset(out);
    var j :| 0 <= j < |out| && out[j] == r;
    assert j == 0 || KeyLe(out[0], out[j]);
  }
}
