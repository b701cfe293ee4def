/**
 * What the two hostel programs (new_hostel.py and Hostel_final.py) share
 * word for word: the admin code, the category list, the check chain of
 * `add_hostel`, the uniform floor/room grid it builds, and the per-room
 * row that `populate_room_list` shows.
 */
module HostelCommon {
  import opened Wrappers
  import opened Decimal

  const AdminCode := "admin123"
  const Categories: seq<string> := ["Boys", "Girls", "Mixed"]

  /** The `status` string every new room is created with; nothing ever updates it. */
  const InitialStatus := "available"

  /** The derived statuses the room view shows. */
  const FullyBooked := "Fully Booked"
  const Available := "Available"

  /** `check_admin_code`: admin mode is granted for exactly one string. */
  predicate CheckAdminCode(entered: string)
  {
    entered == AdminCode
  }

  lemma AdminCodeAcceptsOnlyItself(entered: string)
    ensures CheckAdminCode(entered) <==> entered == "admin123"
  {
  }

  // ---------------------------------------------------------------------
  // The grid of floors and rooms

  /** The name of floor i, counting from 1: `Floor ` and the decimal numeral. */
  function FloorName(i: nat): string
  {
    "Floor " + Digits(i)
  }

  /** The name of room j, counting from 1: `Room ` and the decimal numeral. */
  function RoomName(j: nat): string
  {
    "Room " + Digits(j)
  }

  /** The dict comprehension of one floor: rooms `Room 1` .. `Room m`, each the given room. */
  function RoomsOf<R>(m: nat, room: R): map<string, R>
  {
    map j | 1 <= j <= m :: RoomName(j) := room
  }

  /** Floors `Floor 1` .. `Floor n`, each holding `RoomsOf(m, room)`. */
  function Grid<R>(n: nat, m: nat, room: R): map<string, map<string, R>>
  {
    map i | 1 <= i <= n :: FloorName(i) := RoomsOf(m, room)
  }

  /** The floor loop of `add_hostel` that fills the local `floors` dictionary. */
  method BuildFloors<R>(numFloors: nat, numRooms: nat, room: R) returns (floors: map<string, map<string, R>>)
    ensures floors == Grid(numFloors, numRooms, room)
  {
    floors := map[];
    for i := 0 to numFloors
      invariant floors == Grid(i, numRooms, room)
    {
      var floorName := FloorName(i + 1);
      floors := floors[floorName := RoomsOf(numRooms, room)];
    }
  }

  /** The names `prefix 1` .. `prefix n`. */
  function NumberedNames(prefix: string, n: nat): set<string>
  {
    set i: nat | 1 <= i <= n :: prefix + Digits(i)
  }

  /** The n-th numbered name is not among the first n - 1. */
  lemma NewNameIsFresh(prefix: string, n: nat)
    requires n > 0
    ensures prefix + Digits(n) !in NumberedNames(prefix, n - 1)
  {
    if prefix + Digits(n) in NumberedNames(prefix, n - 1) {
      var i: nat :| 1 <= i <= n - 1 && prefix + Digits(i) == prefix + Digits(n);
      assert (prefix + Digits(i))[|prefix|..] == Digits(i);
      assert (prefix + Digits(n))[|prefix|..] == Digits(n);
      DigitsInjective(i, n);
    }
  }

  /** The first n numbered names are the first n - 1 and the n-th. */
  lemma NumberedNamesStep(prefix: string, n: nat)
    requires n > 0
    ensures NumberedNames(prefix, n) == NumberedNames(prefix, n - 1) + {prefix + Digits(n)}
  {
    var smaller, all, last := NumberedNames(prefix, n - 1), NumberedNames(prefix, n), prefix + Digits(n);
    forall e | e in all ensures e in smaller + {last} {
      var i: nat :| 1 <= i <= n && e == prefix + Digits(i);
      if i < n { assert e in smaller; }
    }
    forall e | e in smaller + {last} ensures e in all {
      if e != last {
        var i: nat :| 1 <= i <= n - 1 && e == prefix + Digits(i);
        assert e == prefix + Digits(i);
      }
    }
  }

  /** `prefix 1` .. `prefix n` are n distinct strings. */
  lemma {:induction false} NumberedNamesCount(prefix: string, n: nat)
    ensures |NumberedNames(prefix, n)| == n
  {
    if n > 0 {
      NumberedNamesCount(prefix, n - 1);
      NumberedNamesStep(prefix, n);
      NewNameIsFresh(prefix, n);
    }
  }

  /**
   * The grid has exactly n floors named `Floor 1..n`, each with exactly m rooms
   * named `Room 1..m`, and every room is the given one.
   */
  lemma GridShape<R>(n: nat, m: nat, room: R)
    ensures |Grid(n, m, room)| == n
    ensures forall i :: 1 <= i <= n ==> FloorName(i) in Grid(n, m, room)
    ensures forall f :: f in Grid(n, m, room) <==> exists i :: 1 <= i <= n && f == FloorName(i)
    ensures forall f :: f in Grid(n, m, room) ==> |Grid(n, m, room)[f]| == m
    ensures forall f, j :: f in Grid(n, m, room) && 1 <= j <= m ==> RoomName(j) in Grid(n, m, room)[f]
    ensures forall f, r :: f in Grid(n, m, room) && r in Grid(n, m, room)[f] ==>
              (exists j :: 1 <= j <= m && r == RoomName(j)) && Grid(n, m, room)[f][r] == room
  {
    NumberedNamesCount("Floor ", n);
    NumberedNamesCount("Room ", m);
    var floorNames, roomNames := NumberedNames("Floor ", n), NumberedNames("Room ", m);
    forall f | f in floorNames ensures f in Grid(n, m, room) {
      var i: nat :| 1 <= i <= n && f == "Floor " + Digits(i);
      assert f == FloorName(i);
    }
    forall r | r in roomNames ensures r in RoomsOf(m, room) {
      var j: nat :| 1 <= j <= m && r == "Room " + Digits(j);
      assert r == RoomName(j);
    }
    assert Grid(n, m, room).Keys == floorNames;
    assert RoomsOf(m, room).Keys == roomNames;
    assert |Grid(n, m, room)| == |floorNames|;
  }

  /** Every room of the grid is the given room. */
  lemma GridRooms<R>(n: nat, m: nat, room: R)
    ensures forall f, r :: f in Grid(n, m, room) && r in Grid(n, m, room)[f] ==> Grid(n, m, room)[f][r] == room
  {
  }

  // ---------------------------------------------------------------------
  // The catalog

  /**
   * One entry of `self.hostels`, for a room record R of the program at hand.
   * `distance` is carried as an opaque number; nothing computes with it.
   */
  datatype Hostel<R> = Hostel(distance: real, category: string, floors: map<string, map<string, R>>)

  /** `self.hostels`: hostel name -> hostel. */
  type Catalog<R> = map<string, Hostel<R>>

  predicate HasRoom<R>(c: Catalog<R>, h: string, f: string, r: string)
  {
    h in c && f in c[h].floors && r in c[h].floors[f]
  }

  function RoomAt<R>(c: Catalog<R>, h: string, f: string, r: string): R
    requires HasRoom(c, h, f, r)
  {
    c[h].floors[f][r]
  }

  /** The catalog after the record of room (h, f, r) is changed in place to `room`: nothing else differs. */
  function WithRoom<R>(c: Catalog<R>, h: string, f: string, r: string, room: R): (c': Catalog<R>)
    requires HasRoom(c, h, f, r)
    ensures c'.Keys == c.Keys
    ensures forall h' :: h' in c ==> c'[h'].distance == c[h'].distance && c'[h'].category == c[h'].category
    ensures forall h', f', r' :: HasRoom(c', h', f', r') <==> HasRoom(c, h', f', r')
    ensures forall h', f', r' :: HasRoom(c, h', f', r') ==>
              RoomAt(c', h', f', r') == if (h', f', r') == (h, f, r) then room else RoomAt(c, h', f', r')
  {
    var hostel := c[h];
    c[h := hostel.(floors := hostel.floors[f := hostel.floors[f][r := room]])]
  }

  /**
   * The rows `populate_room_list` shows for one floor, keyed by room name;
   * `capacity` and `booked` read a room record's capacity and occupant count.
   */
  function FloorRows<R>(f: map<string, R>, capacity: R -> int, booked: R -> nat): (rows: map<string, RoomRow>)
    ensures rows.Keys == f.Keys
    ensures forall r :: r in f ==>
              rows[r].room == r && rows[r].capacity == capacity(f[r]) &&
              rows[r].booked == booked(f[r]) && rows[r].remaining == capacity(f[r]) - booked(f[r]) &&
              (rows[r].status == FullyBooked <==> rows[r].remaining == 0) &&
              (rows[r].status != FullyBooked ==> rows[r].status == Available)
  {
    map r | r in f :: RowOf(r, capacity(f[r]), booked(f[r]))
  }

  // ---------------------------------------------------------------------
  // The check chain of add_hostel

  datatype AddOutcome = HostelAdded | NameEmpty | HostelExists | FloorsMissing | RoomCountMissing | CategoryInvalid

  /**
   * The checks of `add_hostel`, in the order they run: an empty name, a name
   * already taken, a floor count that is absent or zero, a cancelled room
   * count, a category outside Boys/Girls/Mixed. The counts come from
   * `askinteger(minvalue=1)`, which gives None on cancel and never a number
   * below 1. A cancelled room count is never tested by the source: the floor
   * loop's `range(None)` raises TypeError, which ends the handler before the
   * category is asked and before anything is stored.
   * Each refusal holds exactly when every earlier check passed and its own failed.
   */
  function AddHostelCheck(existing: set<string>, name: string, numFloors: Option<nat>, numRooms: Option<nat>,
                          category: string): (outcome: AddOutcome)
    ensures outcome == NameEmpty <==> name == ""
    ensures outcome == HostelExists <==> name != "" && name in existing
    ensures outcome == FloorsMissing <==> name != "" && name !in existing && (numFloors.None? || numFloors.value == 0)
    ensures outcome == RoomCountMissing <==>
              name != "" && name !in existing && numFloors.Some? && numFloors.value > 0 && numRooms.None?
    ensures outcome == CategoryInvalid <==>
              name != "" && name !in existing && numFloors.Some? && numFloors.value > 0 && numRooms.Some? &&
              category !in Categories
    ensures outcome == HostelAdded <==>
              name != "" && name !in existing && numFloors.Some? && numFloors.value > 0 && numRooms.Some? &&
              category in Categories
  {
    if name == "" then NameEmpty
    else if name in existing then HostelExists
    else if numFloors.None? || numFloors.value == 0 then FloorsMissing
    else if numRooms.None? then RoomCountMissing
    else if category !in Categories then CategoryInvalid
    else HostelAdded
  }

  // ---------------------------------------------------------------------
  // The room view of populate_room_list

  /** One row of the room tree: (room, status, booked, remaining, capacity). */
  datatype RoomRow = RoomRow(room: string, status: string, booked: nat, remaining: int, capacity: int)

  /** The row of a room with the given capacity and number of occupants. */
  function RowOf(room: string, capacity: int, booked: nat): (row: RoomRow)
    ensures row.room == room && row.booked == booked && row.capacity == capacity
    ensures row.booked + row.remaining == row.capacity
    ensures row.status == FullyBooked <==> booked == capacity
    ensures row.status != FullyBooked ==> row.status == Available
  {
    var remaining := capacity - booked;
    RoomRow(room, if remaining == 0 then FullyBooked else Available, booked, remaining, capacity)
  }
}
