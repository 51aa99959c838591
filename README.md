# Room booking: availability and selection

A Dafny model of the core of a small command-line tool that books meeting
rooms through a calendar service. The tool asks the service which rooms of
its registry are free for the next `duration` minutes. It keeps the free
rooms that pass a floor filter and a minimum-capacity filter and ranks them
by `(floor, capacity)`. Then it does one of three things:

- lists the ranked rooms grouped by floor (`--list`);
- books the first available room with exactly the requested name (`--name`);
- books the first ranked room, and exits with status 1 when there is none.

Modules:

- `Wrappers`: `Option` and `Result`.
- `Models`: the `Room` record.
- `Seqs`: an order-preserving filter, the meaning of a Python list
  comprehension with a condition.
- `Availability`: `list_available_rooms`. The free/busy query body, the
  three filters and the stable sort by `(floor, capacity)`, with soundness,
  completeness, ordering, stability and uniqueness of the stable sort.
- `RoomsInfo`: `print_rooms_info` and `get_time_until_next_event`. The
  grouping by floor is an imperative loop over a map, as in the source. The
  printed text is returned as a `Listing` value.
- `Events`: the event request that `create_event` sends.
- `Cli`: `main`. It covers the `--floor` normalisation, including Python's
  `str.lower` and `int` on ASCII text, the `--list` short-circuit, the
  selection by exact name or by rank, and the exit status.

Calls to the calendar service become parameters:

- `freeBusy` maps a free/busy request body to the response's `calendars`
  map;
- `upcoming` maps a calendar id to the start of its next event, if any;
- the clock readings are integers (seconds since the epoch).

What the program prints is returned as an `Outcome` or a `Listing`.

Three points of the code shape the model:

- Names are matched with `==`: the match is case-sensitive and nothing is
  trimmed.
- All rooms of the registry go to the service in a single free/busy query.
- A room is free when the response has an entry for its id whose busy list
  is empty. The busy intervals are never compared with the window.

## Model

| member | source | states |
|---|---|---|
| Seqs.Filter | src/utils.py:20-25 | a list comprehension with a condition keeps exactly the elements that satisfy it, and is no longer than its input |
| Availability.Ids | src/utils.py:14 | the query items are the room ids, one per room, in registry order |
| Availability.FreeBusyBody | src/utils.py:11-16 | the query covers exactly `[start, end]` in UTC and names every room of the registry |
| Availability.CandidatesAreSelected | src/utils.py:20-31 | the three successive comprehensions (free, then floor, then capacity) keep exactly the rooms that pass all three tests, in registry order; an absent filter removes nothing |
| Availability.Insert | src/utils.py:33-35 | inserting into a list sorted by `(floor, capacity)` keeps it sorted and adds exactly the one room |
| Availability.Rank | src/utils.py:33-35 | the sort result is ordered by `(floor, capacity)` and is a permutation of its input |
| Availability.RankWithKey | src/utils.py:33-35 | the sort is stable: rooms with equal `(floor, capacity)` keep their relative order |
| Availability.RankIsStableSort | src/utils.py:33-35 | any sorted, stable permutation of the input equals `Rank`'s result, so `Rank` is the same function as Python's `sorted` with that key |
| Availability.SelectAvailable | src/utils.py:20-36 | the returned list is sorted by `(floor, capacity)` and no longer than the registry |
| Availability.ListAvailableRooms | src/utils.py:7-36 | one query for the whole registry over the given window, then selection from its answer; the result is sorted and no longer than the registry |
| Availability.SelectAvailableSound | src/utils.py:20-31 | every returned room is in the registry, its id is in the response with an empty busy list, it is on the requested floor and has at least the requested capacity |
| Availability.SelectAvailableComplete | src/utils.py:20-36 | each room occurs in the result exactly as often as in the registry when it passes all three tests, and never otherwise |
| Availability.MissingIdExcluded | src/utils.py:23-24 | a room whose id the response omits is never returned (fail closed) |
| Availability.NoFiltersKeepsEveryFreeRoom | src/utils.py:26-31 | with no floor and no minimum capacity, every free room of the registry is returned |
| Availability.SelectAvailableStable | src/utils.py:33-35 | among returned rooms with equal `(floor, capacity)`, the registry's order is kept |
| Availability.EmptyIffNoneSelected | src/utils.py:20-36 | the result is empty exactly when no room of the registry passes the three tests |
| Availability.FirstIsLeast | src/utils.py:33-35 | when some room passes the tests, the first returned room is least by `(floor, capacity)` among all of them |
| RoomsInfo.TimeUntilNextEvent | src/utils.py:52-65 | no event gives the sentinel; a gap under 3600 seconds gives whole minutes rounded toward zero, within one minute of the gap; otherwise the gap in hours |
| RoomsInfo.SortFloors | src/utils.py:81 | the floors come out strictly ascending, each key exactly once |
| RoomsInfo.GroupedSnoc | src/utils.py:77-78 | appending a room to its floor's list keeps the map grouped: a key for exactly the floors seen so far, each with that floor's rooms in order |
| RoomsInfo.GroupByFloor | src/utils.py:76-81 | the map has an entry for exactly the floors of the available rooms; each entry lists that floor's rooms in input order; the floor list is these keys, strictly ascending |
| RoomsInfo.DescribeRooms | src/utils.py:86-92 | one line per room, in order, each with the label for that room's next event |
| RoomsInfo.PrintRoomsInfo | src/utils.py:68-93 | an empty list gives the "no rooms" message; otherwise floors strictly ascending, one group for each floor that has a room and none for any other floor, each group that floor's rooms in input order with their next-event labels |
| RoomsInfo.NoEmptyGroup | src/utils.py:84-86 | no "Floor f" heading is printed without at least one room line under it |
| RoomsInfo.ExactlyOneGroup | src/utils.py:76-86 | every available room is listed in exactly one group: the one for its own floor |
| Events.CreateEvent | src/utils.py:96-106 | the event goes on the organiser's calendar and starts at the clock reading; it lasts exactly `duration` minutes, in UTC; it carries the fixed summary prefix and description; the attendees are the room's calendar and then the organiser |
| Events.BookedWindowChecked | src/main.py:54-55 | the event window that `create_event` builds from its own clock reading (src/utils.py:98-99) lies inside the window the free/busy query checked, which starts at `main`'s reading, exactly when both clock readings are equal |
| Cli.Lower | src/main.py:57 | ASCII lower-casing keeps the length and maps each character |
| Cli.IsAllCases | src/main.py:57-58 | the floor filter is switched off by "all" in any mixture of cases, and by nothing else |
| Cli.ParseInt | src/main.py:60 | blank text is rejected; accepted text is, once stripped, an optional leading sign followed only by digits and underscores, and it ends with a digit; only a leading minus gives a negative value |
| Cli.ParseIntRoundTrip | src/main.py:60 | `int(str(n)) == n` for every integer, so an integer floor from the configuration passes through unchanged |
| Cli.NormaliseFloor | src/main.py:57-60 | "all" in any case gives no floor filter; otherwise the integer `int` parses; text that is neither is the ValueError |
| Cli.IntFloorNormalises | src/main.py:57-60 | any integer floor, turned into text by `str`, comes back as a floor filter of that same integer |
| Cli.DefaultArgs | src/main.py:14-44 | with no flags there is no name and no `--list`; the duration and the minimum capacity are the fallbacks 30 and 1, and the floor is `str` of the fallback 3 |
| Cli.DefaultArgsFilters | src/config.py:21-25 | with no flags the floor filter is floor 3, the minimum capacity is 1 and the duration is 30 minutes |
| Cli.FindByName | src/main.py:74-76 | none exactly when no room has that exact name; otherwise the room at the first index with that name |
| Cli.NameMatchIsExact | src/main.py:74-76 | for any registry, name and room: the room is found only if its name equals the requested name character for character, and nothing is found when no name is equal |
| Cli.NameMatchExamples | src/main.py:75 | "room a" and " Room A " do not find a room named "Room A"; "Room A" does |
| Cli.ChooseRoom | src/main.py:72-91 | with a non-empty name, book the first available room of that name or report it not available; without one, book the first available room or report that nothing is available; a booked room is always one of the available rooms |
| Cli.ExitStatus | src/main.py:89-91 | the status is 0 or 1; it is 1 after `sys.exit(1)` (no room for a default booking) and after the uncaught ValueError of an invalid floor, and 0 after listing, booking, or reporting a named room unavailable |
| Cli.RunWithFloor | src/main.py:62-91 | `--list` lists and books nothing. A named booking takes the first matching available room. A default booking takes the least room by `(floor, capacity)` among the free, filtered rooms. A booked room was reported free and passes both filters. Exit status 1 exactly when the default booking finds no room |
| Cli.Run | src/main.py:47-91 | a floor that is neither "all" nor an integer stops the run with status 1. Otherwise the results of `RunWithFloor` hold for the normalised floor over the query window `[now, now + duration minutes]` |

## Left out

- OAuth credentials, reading `config.ini` and `rooms.json`, and argparse are left out. The fallbacks `read_config` uses (30 minutes, floor 3, capacity 1) are constants in `Cli`, and `DefaultArgs` is the command line with no flags; values from a settings file are not modelled. The room registry and the organiser's e-mail are parameters.
- The calendar service client (`build`, `freebusy().query`, `events().list`, `events().insert`) is left out. Its answers are parameters, assumed to return normally. Network and authentication exceptions are not modelled.
- Console output is left out. The receipt printed after an event is created (links, "Room booked") is not modelled either. What would be printed is returned as an `Outcome` or a `Listing`.
- The `errors` field of a free/busy entry is carried in the data but never read, as in the code. An entry with errors and an empty busy list therefore counts as free.
- RoomsInfo.TimeUntilNextEvent: ISO date parsing and the one-decimal rendering of hours are not modelled. The hours case carries the gap in seconds, and all times are whole seconds. An all-day next event, whose start has only a date, makes `events[0]["start"]["dateTime"]` raise KeyError and ends `--list` with status 1; `upcoming` always yields a start time, so this path is not modelled and every `Listed` outcome has status 0.
- Events.CreateEvent: the `conferenceData` payload (a fixed request id and the video-call type) is left out.
- Cli.NormaliseFloor: only ASCII is handled. Python's Unicode lower-casing, Unicode whitespace and non-ASCII digits accepted by `int` are not modelled.
- Python's Timsort is not modelled step by step. `Rank`, a stable insertion sort, stands for it: `RankIsStableSort` shows that only one sorted, stable permutation exists.
- Cli.NormaliseFloor: CPython's default limit of 4300 digits on conversions between text and integers (Python 3.11 and later) is not modelled. `int` at src/main.py:60 raises ValueError on integer text longer than that, while `ParseInt` and `NormaliseFloor` accept it. Such a floor therefore ends the program with status 1, but the model runs it normally.
- Cli.Run: clock readings and durations are unbounded integers. `start_time + timedelta(minutes=args.duration)` at src/main.py:55 (and again at src/utils.py:99) raises OverflowError for a window that ends after year 9999 or before year 1, so the program exits with status 1 before the floor is read (for example `--list --duration 5000000000`). That path is not modelled, and `Run`'s `InvalidFloor` and exit-status equivalences hold only for windows Python can represent. The digit limit under `Cli.NormaliseFloor` is a second status-1 path that `Run` does not capture.
- Cli.ParseIntRoundTrip: CPython's limit on integer-to-text conversion (4300 digits by default since Python 3.11) is not modelled; the round trip is proved for every integer.
