/** `main` (src/main.py): normalise the `--floor` argument, list the
    available rooms, and then either stop (`--list`), book the room named by
    `--name`, or book the first ranked room; with nothing to book the process
    exits with status 1.

    Effects become values: what `main` ends with is an `Outcome`, the process
    exit status is `ExitStatus(outcome)`, the two clock readings (`main`'s and
    `create_event`'s) are the parameters `now` and `bookingNow`, and the
    calendar service's free/busy and next-event answers are the functions
    `freeBusy` and `upcoming`. */
module Cli {
  import opened Wrappers
  import opened Models
  import opened Availability
  import opened RoomsInfo
  import opened Events

  /** The fallbacks `read_config` uses when the settings file omits a key. */
  const DefaultDuration := 30
  const DefaultFloor := 3
  const DefaultMinCapacity := 1

  /** The parsed command line. `floor` is the text of `--floor` (`str(...)`
      of the integer default when the flag is absent); `name` is `None`
      without `--name`. */
  datatype Args = Args(name: Option<string>, duration: int, floor: string, capacity: int, list: bool)

  // ---------------------------------------------------------------------
  // `str(args.floor).lower() == "all"`

  function LowerChar(c: char): char {
    if 'A' <= c <= 'Z' then (c as int - 'A' as int + 'a' as int) as char else c
  }

  function Lower(s: string): (r: string)
    ensures |r| == |s|
    ensures forall i :: 0 <= i < |s| ==> r[i] == LowerChar(s[i])
  {
    seq(|s|, i requires 0 <= i < |s| => LowerChar(s[i]))
  }

  predicate IsAll(arg: string) {
    Lower(arg) == "all"
  }

  /** "all" in any mixture of cases, and nothing else, switches the floor
      filter off. */
  lemma IsAllCases(arg: string)
    ensures IsAll(arg) <==> |arg| == 3 && arg[0] in "aA" && arg[1] in "lL" && arg[2] in "lL"
  {
    if |arg| == 3 && arg[0] in "aA" && arg[1] in "lL" && arg[2] in "lL" {
      assert Lower(arg) == "all";
    }
  }

  // ---------------------------------------------------------------------
  // `int(args.floor)`

  /** The ASCII characters `int` skips around its digits. */
  predicate IsSpace(c: char) {
    c == ' ' || c == '\t' || c == '\n' || c == '\r' || c == '\U{000B}' || c == '\U{000C}'
  }

  predicate IsDigit(c: char) {
    '0' <= c <= '9'
  }

  function TrimStart(s: string): (r: string)
    ensures r == [] || !IsSpace(r[0])
    ensures |r| <= |s| && r == s[|s| - |r|..]
  {
    if s != [] && IsSpace(s[0]) then TrimStart(s[1..]) else s
  }

  function TrimEnd(s: string): (r: string)
    ensures r == [] || !IsSpace(r[|r| - 1])
    ensures |r| <= |s| && r == s[..|r|]
  {
    if s != [] && IsSpace(s[|s| - 1]) then TrimEnd(s[..|s| - 1]) else s
  }

  function Strip(s: string): string {
    TrimEnd(TrimStart(s))
  }

  /** The digits of a base-10 literal: ASCII digits, with single underscores
      allowed between two digits. */
  predicate DigitsWellFormed(b: string) {
    && |b| > 0
    && IsDigit(b[0]) && IsDigit(b[|b| - 1])
    && (forall i :: 0 <= i < |b| ==> IsDigit(b[i]) || b[i] == '_')
    && (forall i :: 0 <= i < |b| - 1 && b[i] == '_' ==> b[i + 1] != '_')
  }

  /** The value of a digit string, underscores skipped. */
  function DigitsValue(b: string): nat
    requires forall i :: 0 <= i < |b| ==> IsDigit(b[i]) || b[i] == '_'
  {
    if b == [] then 0
    else
      var c := b[|b| - 1];
      if c == '_' then DigitsValue(b[..|b| - 1])
      else
        assert IsDigit(c);
        10 * DigitsValue(b[..|b| - 1]) + (c as int - '0' as int)
  }

  /** Python's `int(s)` on a string: surrounding whitespace, an optional
      sign, then a well-formed digit string; anything else raises
      ValueError (`None`). */
  function ParseInt(s: string): (r: Option<int>)
    // blank text is rejected
    ensures Strip(s) == [] ==> r.None?
    // accepted text, once stripped, is a sign and then digits and underscores,
    // starting and ending with a digit
    ensures r.Some? ==>
              var t := Strip(s);
              && t != []
              && IsDigit(t[|t| - 1])
              && (IsDigit(t[0]) || t[0] == '-' || t[0] == '+')
              && forall i :: 1 <= i < |t| ==> IsDigit(t[i]) || t[i] == '_'
    // only a leading minus gives a negative number
    ensures r.Some? && r.value < 0 ==> Strip(s)[0] == '-'
  {
    var t := Strip(s);
    var negative := t != [] && t[0] == '-';
    var body := if t != [] && (t[0] == '-' || t[0] == '+') then t[1..] else t;
    if DigitsWellFormed(body) then
      var magnitude: int := DigitsValue(body);
      Some(if negative then -magnitude else magnitude)
    else None
  }

  function DigitChar(d: nat): (c: char)
    requires d < 10
    ensures IsDigit(c) && c as int - '0' as int == d
  {
    ('0' as int + d) as char
  }

  /** Python's `str(n)` for a natural number. */
  function NatToString(n: nat): (s: string)
    ensures |s| > 0
    ensures forall i :: 0 <= i < |s| ==> IsDigit(s[i])
  {
    if n < 10 then [DigitChar(n)] else NatToString(n / 10) + [DigitChar(n % 10)]
  }

  /** Python's `str(n)` for an integer. */
  function IntToString(n: int): string {
    if n < 0 then "-" + NatToString(-n) else NatToString(n)
  }

  lemma {:induction false} DigitsValueOfNatToString(n: nat)
    ensures DigitsValue(NatToString(n)) == n
  {
    var s := NatToString(n);
    if n >= 10 {
      var prefix := NatToString(n / 10);
      assert s[..|s| - 1] == prefix;
      DigitsValueOfNatToString(n / 10);
    }
  }

  /** A string that neither starts nor ends with whitespace is unchanged
      by `strip`. */
  lemma StripUnchanged(s: string)
    requires s != [] && !IsSpace(s[0]) && !IsSpace(s[|s| - 1])
    ensures Strip(s) == s
  {
    assert TrimStart(s) == s;
    assert TrimEnd(s) == s;
  }

  lemma NatToStringWellFormed(n: nat)
    ensures DigitsWellFormed(NatToString(n))
  {
  }

  /** A well-formed digit string parses to its value. */
  lemma ParseIntDigits(digits: string)
    requires DigitsWellFormed(digits)
    ensures ParseInt(digits) == Some(DigitsValue(digits) as int)
  {
    StripUnchanged(digits);
    assert IsDigit(digits[0]);
    assert !(digits[0] == '-' || digits[0] == '+');
  }

  /** A minus sign followed by a well-formed digit string parses to the
      negated value. */
  lemma ParseIntNegatedDigits(digits: string)
    requires DigitsWellFormed(digits)
    ensures ParseInt("-" + digits) == Some(-(DigitsValue(digits) as int))
  {
    var s := "-" + digits;
    StripUnchanged(s);
    assert s[1..] == digits;
  }

  /** `int(str(n)) == n`. */
  lemma ParseIntRoundTrip(n: int)
    ensures ParseInt(IntToString(n)) == Some(n)
  {
    var m: nat := if n < 0 then -n else n;
    NatToStringWellFormed(m);
    DigitsValueOfNatToString(m);
    if n < 0 {
      ParseIntNegatedDigits(NatToString(m));
    } else {
      ParseIntDigits(NatToString(m));
    }
  }

  // ---------------------------------------------------------------------
  // The floor argument

  /** `None` disables the floor filter; `Failure` is the ValueError that
      `int(...)` raises, which ends the process. */
  function NormaliseFloor(arg: string): (r: Result<Option<int>, string>)
    ensures r == Success(None) <==> IsAll(arg)
    ensures r.Success? && r.value.Some? ==> ParseInt(arg) == r.value
    ensures r.Failure? <==> !IsAll(arg) && ParseInt(arg).None?
  {
    if IsAll(arg) then Success(None)
    else match ParseInt(arg)
      case Some(n) => Success(Some(n))
      case None => Failure(arg)
  }

  /** An integer floor (turned into text by `str`) comes back unchanged as
      the floor filter. */
  lemma IntFloorNormalises(n: int)
    ensures NormaliseFloor(IntToString(n)) == Success(Some(n))
  {
    var s := IntToString(n);
    assert s[0] == '-' || IsDigit(s[0]);
    assert Lower(s)[0] == s[0];
    assert !IsAll(s);
    ParseIntRoundTrip(n);
  }

  /** The command line with no flags: every option at its configured
      fallback, the floor as `str` of the integer default. */
  function DefaultArgs(): (args: Args)
    ensures args.name.None? && !args.list
    ensures args.duration == DefaultDuration && args.capacity == DefaultMinCapacity
    ensures args.floor == IntToString(DefaultFloor)
  {
    Args(None, DefaultDuration, IntToString(DefaultFloor), DefaultMinCapacity, false)
  }

  /** With no flags, the floor filter is floor 3 and rooms need a capacity of
      at least 1. */
  lemma DefaultArgsFilters()
    ensures NormaliseFloor(DefaultArgs().floor) == Success(Some(3))
    ensures DefaultArgs().capacity == 1 && DefaultArgs().duration == 30
  {
    IntFloorNormalises(DefaultFloor);
  }

  // ---------------------------------------------------------------------
  // Selecting the room to book

  /** `next((room for room in rooms if room.name == name), None)`: the first
      room whose name equals `name` exactly (case-sensitive, no trimming). */
  function FindByName(rooms: seq<Room>, name: string): (r: Option<Room>)
    ensures r.None? <==> forall x :: x in rooms ==> x.name != name
    ensures r.Some? ==> exists i :: 0 <= i < |rooms| && rooms[i] == r.value && r.value.name == name
                                    && forall j :: 0 <= j < i ==> rooms[j].name != name
  {
    if rooms == [] then None
    else if rooms[0].name == name then Some(rooms[0])
    else
      var r := FindByName(rooms[1..], name);
      assert rooms == [rooms[0]] + rooms[1..];
      assert r.Some? ==> exists i :: 1 <= i < |rooms| && rooms[i] == r.value && r.value.name == name
                                     && forall j :: 0 <= j < i ==> rooms[j].name != name by {
        if r.Some? {
          var i :| 0 <= i < |rooms[1..]| && rooms[1..][i] == r.value && r.value.name == name
                   && forall j :: 0 <= j < i ==> rooms[1..][j].name != name;
          assert rooms[i + 1] == r.value;
        }
      }
      r
  }

  /** Matching is exact: a room is found by a name only when its name is
      equal to it character for character, so a name differing in case or
      in surrounding spaces never finds it. */
  lemma NameMatchIsExact(rooms: seq<Room>, name: string, x: Room)
    ensures FindByName(rooms, name) == Some(x) ==> x.name == name
    ensures x.name != name ==> FindByName(rooms, name) != Some(x)
    ensures (forall r :: r in rooms ==> r.name != name) ==> FindByName(rooms, name).None?
  {
  }

  /** Instances: neither the lower-cased name nor the name padded with spaces
      finds "Room A". */
  lemma NameMatchExamples()
    ensures FindByName([Room("r1", "Room A", 1, 4)], "room a") == None
    ensures FindByName([Room("r1", "Room A", 1, 4)], " Room A ") == None
    ensures FindByName([Room("r1", "Room A", 1, 4)], "Room A") == Some(Room("r1", "Room A", 1, 4))
  {
  }

  // ---------------------------------------------------------------------
  // main

  /** How a run ends. `InvalidFloor` is the uncaught ValueError of
      `int(args.floor)`. */
  datatype Outcome =
    | InvalidFloor(arg: string)
    | Listed(listing: Listing)
    | Booked(room: Room, request: InsertRequest)
    | NotAvailable(name: string)
    | NoRoomAvailable

  /** The process exit status: 1 after `sys.exit(1)` or an uncaught
      exception, 0 otherwise. */
  function ExitStatus(o: Outcome): (status: int)
    ensures status == 0 || status == 1
    ensures o.Listed? || o.Booked? || o.NotAvailable? ==> status == 0
    ensures o.NoRoomAvailable? || o.InvalidFloor? ==> status == 1
  {
    if o.NoRoomAvailable? || o.InvalidFloor? then 1 else 0
  }

  /** `if args.name:`: absent and empty names both take the default branch. */
  predicate NameGiven(args: Args) {
    args.name.Some? && args.name.value != ""
  }

  /** The free/busy answer for the run's query window, which starts at `now`
      and lasts `args.duration` minutes. */
  function Response(args: Args, rooms: seq<Room>, now: int, freeBusy: FreeBusyRequest -> Calendars): Calendars {
    freeBusy(FreeBusyBody(now, now + 60 * args.duration, rooms))
  }

  /** The floor argument is "all" or an integer. */
  predicate FloorOk(args: Args) {
    NormaliseFloor(args.floor).Success?
  }

  /** `available_rooms` of a run for the normalised floor filter; the
      capacity filter is always active since `--capacity` has a default. */
  function Available(args: Args, rooms: seq<Room>, now: int, freeBusy: FreeBusyRequest -> Calendars, floor: Option<int>): seq<Room> {
    ListAvailableRooms(now, now + 60 * args.duration, rooms, freeBusy, floor, Some(args.capacity))
  }

  /** The booking step of `main`, after `--list` has been ruled out: with a
      name, the first available room of that exact name or "not available";
      without one, the first ranked room or nothing. */
  method ChooseRoom(args: Args, email: string, available: seq<Room>, bookingNow: int) returns (outcome: Outcome)
    ensures NameGiven(args) ==>
              match FindByName(available, args.name.value)
              case Some(r) => outcome == Booked(r, CreateEvent(r, args.duration, email, bookingNow))
              case None => outcome == NotAvailable(args.name.value)
    ensures !NameGiven(args) ==>
              if available != [] then outcome == Booked(available[0], CreateEvent(available[0], args.duration, email, bookingNow))
              else outcome == NoRoomAvailable
    ensures outcome.Booked? ==> outcome.room in available
  {
    if NameGiven(args) {
      var found := FindByName(available, args.name.value);
      if found.Some? {
        outcome := Booked(found.value, CreateEvent(found.value, args.duration, email, bookingNow));
      } else {
        outcome := NotAvailable(args.name.value);
      }
    } else if available != [] {
      outcome := Booked(available[0], CreateEvent(available[0], args.duration, email, bookingNow));
    } else {
      outcome := NoRoomAvailable;
    }
  }

  /** `main` once the floor argument has been normalised to `floor`. */
  method RunWithFloor(args: Args, email: string, rooms: seq<Room>, now: int, bookingNow: int,
                      freeBusy: FreeBusyRequest -> Calendars, upcoming: string -> Option<int>, floor: Option<int>)
    returns (outcome: Outcome)
    ensures !outcome.InvalidFloor?
    ensures args.list ==>
              outcome.Listed? && ListingOf(Available(args, rooms, now, freeBusy, floor), upcoming, now, outcome.listing)
    ensures !args.list && NameGiven(args) ==>
              match FindByName(Available(args, rooms, now, freeBusy, floor), args.name.value)
              case Some(r) => outcome == Booked(r, CreateEvent(r, args.duration, email, bookingNow))
              case None => outcome == NotAvailable(args.name.value)
    ensures !args.list && !NameGiven(args) ==>
              var available := Available(args, rooms, now, freeBusy, floor);
              if available != [] then outcome == Booked(available[0], CreateEvent(available[0], args.duration, email, bookingNow))
              else outcome == NoRoomAvailable
    ensures outcome.Booked? ==>
              outcome.room in rooms && Selected(outcome.room, Response(args, rooms, now, freeBusy), floor, Some(args.capacity))
    ensures outcome.Booked? && !NameGiven(args) ==>
              forall r :: r in rooms && Selected(r, Response(args, rooms, now, freeBusy), floor, Some(args.capacity))
                          ==> KeyLe(outcome.room, r)
    ensures ExitStatus(outcome) == 1 <==>
              !args.list && !NameGiven(args)
              && forall r :: r in rooms ==> !Selected(r, Response(args, rooms, now, freeBusy), floor, Some(args.capacity))
  {
    var response := Response(args, rooms, now, freeBusy);
    var available := Available(args, rooms, now, freeBusy, floor);
    assert available == SelectAvailable(rooms, response, floor, Some(args.capacity));
    EmptyIffNoneSelected(rooms, response, floor, Some(args.capacity));

    if args.list {
      var listing := PrintRoomsInfo(available, upcoming, now);
      return Listed(listing);
    }

    outcome := ChooseRoom(args, email, available, bookingNow);
    if outcome.Booked? {
      SelectAvailableSound(rooms, response, floor, Some(args.capacity), outcome.room);
      if !NameGiven(args) {
        forall r | r in rooms && Selected(r, response, floor, Some(args.capacity))
          ensures KeyLe(outcome.room, r)
        {
          FirstIsLeast(rooms, response, floor, Some(args.capacity), r);
        }
      }
    }
  }

  /** `main`: normalise the floor, query free/busy for the window that
      starts now, then list, book the named room, or book the first ranked
      room. */
  method Run(args: Args, email: string, rooms: seq<Room>, now: int, bookingNow: int,
             freeBusy: FreeBusyRequest -> Calendars, upcoming: string -> Option<int>)
    returns (outcome: Outcome)
    // a floor that is neither "all" nor an integer stops the run
    ensures outcome.InvalidFloor? <==> !FloorOk(args)
    // --list only lists: nothing is booked
    ensures FloorOk(args) && args.list ==>
              outcome.Listed?
              && ListingOf(Available(args, rooms, now, freeBusy, NormaliseFloor(args.floor).value), upcoming, now, outcome.listing)
    // --name books the first available room with exactly that name
    ensures FloorOk(args) && !args.list && NameGiven(args) ==>
              match FindByName(Available(args, rooms, now, freeBusy, NormaliseFloor(args.floor).value), args.name.value)
              case Some(r) => outcome == Booked(r, CreateEvent(r, args.duration, email, bookingNow))
              case None => outcome == NotAvailable(args.name.value)
    // otherwise the first ranked room, or nothing
    ensures FloorOk(args) && !args.list && !NameGiven(args) ==>
              var available := Available(args, rooms, now, freeBusy, NormaliseFloor(args.floor).value);
              if available != [] then outcome == Booked(available[0], CreateEvent(available[0], args.duration, email, bookingNow))
              else outcome == NoRoomAvailable
    // a booked room was reported free and passes both filters ...
    ensures outcome.Booked? ==>
              && FloorOk(args)
              && outcome.room in rooms
              && Selected(outcome.room, Response(args, rooms, now, freeBusy), NormaliseFloor(args.floor).value, Some(args.capacity))
    // ... and by default it is the least by (floor, capacity) of all such rooms
    ensures outcome.Booked? && !NameGiven(args) ==>
              forall r :: r in rooms && Selected(r, Response(args, rooms, now, freeBusy), NormaliseFloor(args.floor).value, Some(args.capacity))
                          ==> KeyLe(outcome.room, r)
    // exit status 1: a bad floor, or nothing to book by default
    ensures ExitStatus(outcome) == 1 <==>
              || !FloorOk(args)
              || (!args.list && !NameGiven(args)
                  && forall r :: r in rooms ==> !Selected(r, Response(args, rooms, now, freeBusy),
                                                          NormaliseFloor(args.floor).value, Some(args.capacity)))
  {
    // `args.floor` becomes None for "all" and an integer otherwise
    var normalised := NormaliseFloor(args.floor);
    if normalised.Failure? {
      return InvalidFloor(args.floor);
    }
    outcome := RunWithFloor(args, email, rooms, now, bookingNow, freeBusy, upcoming, normalised.value);
  }
}
