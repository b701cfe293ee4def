/**
 * new_hostel.py: the hostel catalog plus the global booking ledger.
 * A booking is checked against the identity file and against the ledger
 * (one booking per student over all hostels), then the occupant is added to
 * the room and a record to the ledger.
 */
module LedgerHostel {
  import opened Wrappers
  import opened HostelCommon
  import CollegeIds

  datatype Occupant = Occupant(id: string, name: string)

  /** A room: `status` is written once at creation and never read back; `capacity` as loaded. */
  datatype Room = Room(status: string, capacity: int, occupants: seq<Occupant>)

  type Floor = map<string, Room>

  /** `self.hostels` of this program. */
  type Hostels = Catalog<Room>

  /** One entry of `student_bookings.json`. */
  datatype Booking = Booking(studentId: string, studentName: string, hostelName: string, room: string, floor: string)

  datatype BookOutcome =
    | BookingConfirmed
    | NoRoomSelected
    | RoomFullyBooked
    | StudentIdInvalid
    | StudentAlreadyBooked
    | AlreadyInThisRoom
    | StudentNameEmpty

  /** What `check_student_booking` reports. */
  datatype LookupOutcome = NoQuery | NotFound | Found(booking: Booking)

  // ---------------------------------------------------------------------
  // The identity file

  /** The IDs `load_valid_ids` yields: every list of every year in file order; none when the file is missing. */
  function IdsInFile(idFile: Option<CollegeIds.IdFile>): seq<string>
  {
    if idFile.Some? then CollegeIds.Flatten(idFile.value) else []
  }

  /** `load_valid_ids`: nested loops extending one list with each department's IDs. */
  method LoadValidIds(idFile: Option<CollegeIds.IdFile>) returns (validIds: seq<string>)
    ensures validIds == IdsInFile(idFile)
    ensures forall x :: x in validIds <==>
              idFile.Some? && exists y, d :: 0 <= y < |idFile.value| && 0 <= d < |idFile.value[y].1| && x in idFile.value[y].1[d].1
  {
    validIds := [];
    if idFile.None? {
      return;
    }
    var data := idFile.value;
    for y := 0 to |data|
      invariant validIds == CollegeIds.Flatten(data[..y])
    {
      var year := data[y].1;
      for d := 0 to |year|
        invariant validIds == CollegeIds.Flatten(data[..y]) + CollegeIds.FlattenDepartments(year[..d])
      {
        assert year[..d + 1][..d] == year[..d];
        validIds := validIds + year[d].1;
      }
      assert year[..|year|] == year;
      assert data[..y + 1][..y] == data[..y];
    }
    assert data[..|data|] == data;
    forall x ensures x in validIds <==> exists y, d :: 0 <= y < |data| && 0 <= d < |data[y].1| && x in data[y].1[d].1 {
      CollegeIds.InFlatten(data, x);
    }
  }

  /** A missing identity file leaves no valid ID. */
  lemma MissingFileHasNoIds()
    ensures IdsInFile(None) == []
  {
  }

  // ---------------------------------------------------------------------
  // Rooms in the catalog

  /** The room record with o appended to its occupant list. */
  function Admit(room: Room, o: Occupant): Room
  {
    room.(occupants := room.occupants + [o])
  }

  /** The catalog after the booking of o into room (h, f, r). */
  function WithOccupant(c: Hostels, h: string, f: string, r: string, o: Occupant): Hostels
    requires HasRoom(c, h, f, r)
  {
    WithRoom(c, h, f, r, Admit(RoomAt(c, h, f, r), o))
  }

  /** Every room of a new hostel: status "available", the standard capacity, nobody in it. */
  function EmptyRoom(capacity: nat): Room
  {
    Room(InitialStatus, capacity, [])
  }

  /** The hostel `add_hostel` stores: `Floor 1..n`, each with `Room 1..m`, all empty rooms. */
  function NewHostel(distance: real, category: string, numFloors: nat, numRooms: nat, capacity: nat): Hostel<Room>
  {
    Hostel(distance, category, Grid(numFloors, numRooms, EmptyRoom(capacity)))
  }

  /** The rows `populate_room_list` shows for one floor of this program. */
  function Rows(f: Floor): map<string, RoomRow>
  {
    FloorRows(f, (room: Room) => room.capacity, (room: Room) => |room.occupants|)
  }

  // ---------------------------------------------------------------------
  // The booking checks

  /** Some ledger record carries this student ID: the scan over all bookings in `open_booking_window`. */
  predicate IsBooked(ledger: seq<Booking>, studentId: string)
  {
    exists i :: 0 <= i < |ledger| && ledger[i].studentId == studentId
  }

  /** An element of the occupant list as Python's `in` sees it: entries are dicts, the probe is a string. */
  datatype ListValue = Text(s: string) | Record(occupant: Occupant)

  /**
   * The membership test of the typed ID against the room's occupant list: the
   * ID string is compared with occupant dicts, and a string never equals a
   * dict, so this check cannot fire.
   */
  function InOccupantList(studentId: string, occupants: seq<Occupant>): (found: bool)
    ensures !found
  {
    Text(studentId) in seq(|occupants|, k requires 0 <= k < |occupants| => Record(occupants[k]))
  }

  /**
   * The checks of `open_booking_window` on the selected room, in source order:
   * room full, ID not in the identity file, ID already in the ledger, ID among
   * the room's occupant list (never), empty name. Each refusal holds exactly
   * when every earlier check passed and its own failed.
   */
  function BookingCheck(room: Room, validIds: seq<string>, ledger: seq<Booking>, studentId: string, studentName: string): (outcome: BookOutcome)
    ensures outcome == RoomFullyBooked <==> room.capacity == |room.occupants|
    ensures outcome == StudentIdInvalid <==> room.capacity != |room.occupants| && studentId !in validIds
    ensures outcome == StudentAlreadyBooked <==>
              room.capacity != |room.occupants| && studentId in validIds && IsBooked(ledger, studentId)
    ensures outcome == StudentNameEmpty <==>
              room.capacity != |room.occupants| && studentId in validIds && !IsBooked(ledger, studentId) && studentName == ""
    ensures outcome == BookingConfirmed <==>
              room.capacity != |room.occupants| && studentId in validIds && !IsBooked(ledger, studentId) && studentName != ""
    ensures outcome != AlreadyInThisRoom && outcome != NoRoomSelected
  {
    if room.capacity == |room.occupants| then RoomFullyBooked
    else if studentId !in validIds then StudentIdInvalid
    else if IsBooked(ledger, studentId) then StudentAlreadyBooked
    else if InOccupantList(studentId, room.occupants) then AlreadyInThisRoom
    else if studentName == "" then StudentNameEmpty
    else BookingConfirmed
  }

  lemma MissingFileRejectsEveryone(room: Room, ledger: seq<Booking>, studentId: string, studentName: string)
    ensures BookingCheck(room, IdsInFile(None), ledger, studentId, studentName) != BookingConfirmed
  {
  }

  // ---------------------------------------------------------------------
  // The ledger lookup

  /** The position of the first ledger record of the student, if any. */
  function FirstMatch(ledger: seq<Booking>, studentId: string): (i: Option<nat>)
    ensures i.Some? ==> i.value < |ledger| && ledger[i.value].studentId == studentId &&
                        forall j :: 0 <= j < i.value ==> ledger[j].studentId != studentId
    ensures i.None? <==> !IsBooked(ledger, studentId)
  {
    if |ledger| == 0 then None
    else if ledger[0].studentId == studentId then Some(0)
    else match FirstMatch(ledger[1..], studentId)
      case None => None
      case Some(k) => Some(k + 1)
  }

  // ---------------------------------------------------------------------
  // The state invariant

  /** No room holds more occupants than its capacity. */
  ghost predicate WithinCapacity(c: Hostels)
  {
    forall h, f, r :: HasRoom(c, h, f, r) ==> |RoomAt(c, h, f, r).occupants| <= RoomAt(c, h, f, r).capacity
  }

  /** The ledger holds each student at most once. */
  predicate StudentsDistinct(ledger: seq<Booking>)
  {
    forall i, j :: 0 <= i < j < |ledger| ==> ledger[i].studentId != ledger[j].studentId
  }

  /** Every occupant of every room has a ledger record. */
  ghost predicate OccupantsRecorded(c: Hostels, ledger: seq<Booking>)
  {
    forall h, f, r, k :: HasRoom(c, h, f, r) && 0 <= k < |RoomAt(c, h, f, r).occupants| ==>
      IsBooked(ledger, RoomAt(c, h, f, r).occupants[k].id)
  }

  /** The room a record names exists and lists that student. */
  predicate Holds(c: Hostels, b: Booking)
  {
    HasRoom(c, b.hostelName, b.floor, b.room) &&
    Occupant(b.studentId, b.studentName) in RoomAt(c, b.hostelName, b.floor, b.room).occupants
  }

  ghost predicate RecordsBacked(c: Hostels, ledger: seq<Booking>)
  {
    forall i :: 0 <= i < |ledger| ==> Holds(c, ledger[i])
  }

  /** The invariant of the catalog and ledger that every operation keeps. */
  ghost predicate Consistent(c: Hostels, ledger: seq<Booking>)
  {
    WithinCapacity(c) && StudentsDistinct(ledger) && OccupantsRecorded(c, ledger) && RecordsBacked(c, ledger)
  }

  lemma AppendKeepsBooked(ledger: seq<Booking>, b: Booking, id: string)
    requires IsBooked(ledger, id)
    ensures IsBooked(ledger + [b], id)
  {
    var i :| 0 <= i < |ledger| && ledger[i].studentId == id;
    assert (ledger + [b])[i].studentId == id;
  }

  /** A confirmed booking keeps the invariant: capacity, one record per student, records and occupants agree. */
  lemma BookingKeepsConsistent(c: Hostels, ledger: seq<Booking>, h: string, f: string, r: string,
                               validIds: seq<string>, studentId: string, studentName: string)
    requires Consistent(c, ledger)
    requires HasRoom(c, h, f, r)
    requires BookingCheck(RoomAt(c, h, f, r), validIds, ledger, studentId, studentName) == BookingConfirmed
    ensures Consistent(WithOccupant(c, h, f, r, Occupant(studentId, studentName)),
                       ledger + [Booking(studentId, studentName, h, r, f)])
  {
    var o := Occupant(studentId, studentName);
    var b := Booking(studentId, studentName, h, r, f);
    var c', ledger' := WithOccupant(c, h, f, r, o), ledger + [b];
    forall h', f', r' | HasRoom(c', h', f', r')
      ensures |RoomAt(c', h', f', r').occupants| <= RoomAt(c', h', f', r').capacity
    {
    }
    forall i, j | 0 <= i < j < |ledger'| ensures ledger'[i].studentId != ledger'[j].studentId {
      if j == |ledger| {
        assert ledger'[i] == ledger[i];
      }
    }
    forall h', f', r', k | HasRoom(c', h', f', r') && 0 <= k < |RoomAt(c', h', f', r').occupants|
      ensures IsBooked(ledger', RoomAt(c', h', f', r').occupants[k].id)
    {
      var old_occ := RoomAt(c, h', f', r').occupants;
      if k < |old_occ| {
        assert RoomAt(c', h', f', r').occupants[k] == old_occ[k];
        AppendKeepsBooked(ledger, b, old_occ[k].id);
      } else {
        assert ledger'[|ledger|].studentId == studentId;
      }
    }
    forall i | 0 <= i < |ledger'| ensures Holds(c', ledger'[i]) {
      if i < |ledger| {
        var bi := ledger[i];
        assert ledger'[i] == bi && Holds(c, bi);
        assert Occupant(bi.studentId, bi.studentName) in RoomAt(c', bi.hostelName, bi.floor, bi.room).occupants;
      } else {
        assert RoomAt(c', h, f, r).occupants == RoomAt(c, h, f, r).occupants + [o];
      }
    }
  }

  /** Adding a hostel under a new name keeps the invariant: its rooms are empty and no record names it. */
  lemma AddHostelKeepsConsistent(c: Hostels, ledger: seq<Booking>, name: string,
                                 distance: real, category: string, numFloors: nat, numRooms: nat, capacity: nat)
    requires Consistent(c, ledger)
    requires name !in c
    ensures Consistent(c[name := NewHostel(distance, category, numFloors, numRooms, capacity)], ledger)
  {
    var hostel := NewHostel(distance, category, numFloors, numRooms, capacity);
    var c' := c[name := hostel];
    GridRooms(numFloors, numRooms, EmptyRoom(capacity));
    forall h, f, r | HasRoom(c', h, f, r) ensures |RoomAt(c', h, f, r).occupants| <= RoomAt(c', h, f, r).capacity {
      if h == name {
        assert RoomAt(c', h, f, r) == EmptyRoom(capacity);
      } else {
        assert RoomAt(c', h, f, r) == RoomAt(c, h, f, r);
      }
    }
    assert forall f, r :: HasRoom(c', name, f, r) ==> RoomAt(c', name, f, r).occupants == [];
    forall h, f, r, k | HasRoom(c', h, f, r) && 0 <= k < |RoomAt(c', h, f, r).occupants|
      ensures IsBooked(ledger, RoomAt(c', h, f, r).occupants[k].id)
    {
      if h != name {
        assert RoomAt(c', h, f, r) == RoomAt(c, h, f, r);
      }
    }
    forall i | 0 <= i < |ledger| ensures Holds(c', ledger[i]) {
      assert Holds(c, ledger[i]);
    }
  }

  /** Global uniqueness: a student who occupies any room is refused every further booking, in any hostel. */
  lemma OccupantRefusedEverywhere(c: Hostels, ledger: seq<Booking>, h: string, f: string, r: string, k: nat,
                                  target: Room, validIds: seq<string>, studentName: string)
    requires Consistent(c, ledger)
    requires HasRoom(c, h, f, r) && k < |RoomAt(c, h, f, r).occupants|
    ensures BookingCheck(target, validIds, ledger, RoomAt(c, h, f, r).occupants[k].id, studentName) != BookingConfirmed
  {
  }

  /** What the lookup finds is a record whose room really lists the student. */
  lemma LookupPointsAtOccupiedRoom(c: Hostels, ledger: seq<Booking>, studentId: string)
    requires Consistent(c, ledger)
    requires FirstMatch(ledger, studentId).Some?
    ensures Holds(c, ledger[FirstMatch(ledger, studentId).value])
  {
  }

  /** With the distinct-students invariant, the first record is the only record of that student. */
  lemma LookupIsUnique(ledger: seq<Booking>, studentId: string, j: nat)
    requires StudentsDistinct(ledger)
    requires j < |ledger| && ledger[j].studentId == studentId
    ensures FirstMatch(ledger, studentId) == Some(j)
  {
  }

  /** Booking the last free place turns the room's row from "Available" to "Fully Booked". */
  lemma LastPlaceFillsRoom(c: Hostels, h: string, f: string, r: string, o: Occupant)
    requires HasRoom(c, h, f, r)
    requires |RoomAt(c, h, f, r).occupants| + 1 == RoomAt(c, h, f, r).capacity
    ensures Rows(c[h].floors[f])[r].status == Available
    ensures Rows(WithOccupant(c, h, f, r, o)[h].floors[f])[r].status == FullyBooked
  {
    assert RoomAt(WithOccupant(c, h, f, r, o), h, f, r).occupants == RoomAt(c, h, f, r).occupants + [o];
  }

  /** The row says "Fully Booked" exactly when a booking of that room stops at the first check. */
  lemma StatusAgreesWithFullCheck(f: Floor, r: string, validIds: seq<string>, ledger: seq<Booking>, studentId: string, studentName: string)
    requires r in f
    ensures Rows(f)[r].status == FullyBooked <==> BookingCheck(f[r], validIds, ledger, studentId, studentName) == RoomFullyBooked
  {
  }

  // ---------------------------------------------------------------------
  // The application state

  /** `HostelManagementSystem`: the catalog (`self.hostels`) and the ledger (`self.student_bookings`). */
  class HostelManagementSystem {
    var hostels: Hostels
    var studentBookings: seq<Booking>

    ghost predicate Valid()
      reads this
    {
      Consistent(hostels, studentBookings)
    }

    /** `__init__` after `load_data` and `load_student_bookings`; the two files' contents are given. */
    constructor (hostels: Hostels, studentBookings: seq<Booking>)
      ensures this.hostels == hostels && this.studentBookings == studentBookings
    {
      this.hostels := hostels;
      this.studentBookings := studentBookings;
    }

    /**
     * `add_hostel`: the answers of the dialogs are the parameters. The check
     * chain decides; only on success is one new key stored.
     */
    method AddHostel(name: string, numFloors: Option<nat>, numRooms: Option<nat>, capacity: nat, distance: real, category: string)
      returns (outcome: AddOutcome)
      modifies this
      ensures outcome == AddHostelCheck(old(hostels).Keys, name, numFloors, numRooms, category)
      ensures outcome == HostelAdded ==>
                hostels == old(hostels)[name := NewHostel(distance, category, numFloors.value, numRooms.value, capacity)]
      ensures outcome != HostelAdded ==> hostels == old(hostels)
      ensures studentBookings == old(studentBookings)
      ensures old(Valid()) ==> Valid()
    {
      if name == "" {
        return NameEmpty;
      }
      if name in hostels {
        return HostelExists;
      }
      if numFloors.None? || numFloors.value == 0 {
        return FloorsMissing;
      }
      if numRooms.None? {
        return RoomCountMissing;
      }
      var floors := BuildFloors(numFloors.value, numRooms.value, EmptyRoom(capacity));
      if category !in Categories {
        return CategoryInvalid;
      }
      if Valid() {
        AddHostelKeepsConsistent(hostels, studentBookings, name, distance, category, numFloors.value, numRooms.value, capacity);
      }
      hostels := hostels[name := Hostel(distance, category, floors)];
      outcome := HostelAdded;
    }

    /** `check_student_booking`: an empty ID asks nothing; otherwise the first record of that ID, scanning in order. */
    method CheckStudentBooking(studentId: string) returns (result: LookupOutcome)
      ensures studentId == "" ==> result == NoQuery
      ensures studentId != "" ==>
                result == match FirstMatch(studentBookings, studentId)
                          case None => NotFound
                          case Some(i) => Found(studentBookings[i])
    {
      if studentId == "" {
        return NoQuery;
      }
      var i := 0;
      var found := false;
      while i < |studentBookings|
        invariant 0 <= i <= |studentBookings|
        invariant forall j :: 0 <= j < i ==> studentBookings[j].studentId != studentId
      {
        if studentBookings[i].studentId == studentId {
          found := true;
          break;
        }
        i := i + 1;
      }
      if found {
        result := Found(studentBookings[i]);
      } else {
        result := NotFound;
      }
    }
  }

  /**
   * `RoomWindow` of one hostel. Its `floors` is the very dict stored in the
   * catalog and its `student_bookings` the app's ledger list, so the window
   * reads and changes both through the app object.
   */
  class RoomWindow {
    const app: HostelManagementSystem
    const hostelName: string

    constructor (app: HostelManagementSystem, hostelName: string)
      ensures this.app == app && this.hostelName == hostelName
    {
      this.app := app;
      this.hostelName := hostelName;
    }

    /** `populate_room_list` for the selected floor; None when there is no such floor to show. */
    function PopulateRoomList(floor: string): (rows: Option<map<string, RoomRow>>)
      reads app
      ensures rows.Some? <==> hostelName in app.hostels && floor in app.hostels[hostelName].floors
      ensures rows.Some? ==> rows.value == Rows(app.hostels[hostelName].floors[floor])
    {
      if hostelName in app.hostels && floor in app.hostels[hostelName].floors
      then Some(Rows(app.hostels[hostelName].floors[floor]))
      else None
    }

    /**
     * `open_booking_window` on the selected floor and room; the identity file
     * (read afresh on every booking) and the two dialog answers are parameters.
     */
    method OpenBookingWindow(floor: string, room: string, idFile: Option<CollegeIds.IdFile>,
                             studentId: string, studentName: string)
      returns (outcome: BookOutcome)
      modifies app
      ensures !HasRoom(old(app.hostels), hostelName, floor, room) ==> outcome == NoRoomSelected
      ensures HasRoom(old(app.hostels), hostelName, floor, room) ==>
                outcome == BookingCheck(RoomAt(old(app.hostels), hostelName, floor, room), IdsInFile(idFile),
                                        old(app.studentBookings), studentId, studentName)
      ensures outcome == BookingConfirmed ==>
                && app.hostels == WithOccupant(old(app.hostels), hostelName, floor, room, Occupant(studentId, studentName))
                && app.studentBookings == old(app.studentBookings) + [Booking(studentId, studentName, hostelName, room, floor)]
      ensures outcome != BookingConfirmed ==>
                app.hostels == old(app.hostels) && app.studentBookings == old(app.studentBookings)
      ensures old(app.Valid()) ==> app.Valid()
    {
      if !(hostelName in app.hostels && floor in app.hostels[hostelName].floors && room in app.hostels[hostelName].floors[floor]) {
        return NoRoomSelected;
      }
      var roomData := app.hostels[hostelName].floors[floor][room];
      if roomData.capacity == |roomData.occupants| {
        return RoomFullyBooked;
      }
      var validIds := LoadValidIds(idFile);
      if studentId !in validIds {
        return StudentIdInvalid;
      }
      if IsBooked(app.studentBookings, studentId) {
        return StudentAlreadyBooked;
      }
      outcome := if InOccupantList(studentId, roomData.occupants) then AlreadyInThisRoom
                 else if studentName == "" then StudentNameEmpty
                 else BookingConfirmed;
      if outcome != BookingConfirmed {
        return;
      }
      if app.Valid() {
        BookingKeepsConsistent(app.hostels, app.studentBookings, hostelName, floor, room, validIds, studentId, studentName);
      }
      app.hostels := WithOccupant(app.hostels, hostelName, floor, room, Occupant(studentId, studentName));
      app.studentBookings := app.studentBookings + [Booking(studentId, studentName, hostelName, room, floor)];
    }
  }
}
