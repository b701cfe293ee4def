/**
 * Hostel_final.py: the hostel catalog with meal prices per room and a meal
 * choice per occupant. There is no ledger: a booking is checked against the
 * identity data loaded when the room window opens and against the selected
 * room's own occupants.
 */
module MealHostel {
  import opened Wrappers
  import opened HostelCommon
  import CollegeIds
  import RollNumbers

  datatype Occupant = Occupant(id: string, meal: string)

  /** A room: prices are carried as opaque numbers; nothing computes with them. */
  datatype Room = Room(status: string, capacity: int, occupants: seq<Occupant>, vegPrice: real, nonVegPrice: real)

  type Floor = map<string, Room>

  /** `self.hostels` of this program. */
  type Hostels = Catalog<Room>

  const MealChoices: seq<string> := ["Veg", "Non-Veg"]

  datatype BookOutcome =
    | BookingConfirmed
    | NoRoomSelected
    | RoomFullyBooked
    | StudentIdInvalid
    | AlreadyInThisRoom
    | MealInvalid

  // ---------------------------------------------------------------------
  // The identity data

  /**
   * What `json.load` may return for `college_ids.json`: a flat list of IDs,
   * or the year -> department -> IDs object that the roll-number generator writes.
   */
  datatype IdDocument = IdList(ids: seq<string>) | IdsByYear(byYear: CollegeIds.IdFile)

  /**
   * `load_valid_ids` as written: the parsed JSON is returned as it is, and an
   * `in` test on a JSON object tests its keys. So for the generator's file the
   * "valid IDs" are the year keys.
   */
  function LoadValidIdsAsWritten(doc: Option<IdDocument>): (validIds: seq<string>)
    ensures doc.None? ==> validIds == []
    ensures doc.Some? && doc.value.IdList? ==> validIds == doc.value.ids
    ensures doc.Some? && doc.value.IdsByYear? ==>
              |validIds| == |doc.value.byYear| && forall i :: 0 <= i < |validIds| ==> validIds[i] == doc.value.byYear[i].0
  {
    match doc
    case None => []
    case Some(IdList(ids)) => ids
    case Some(IdsByYear(byYear)) => seq(|byYear|, i requires 0 <= i < |byYear| => byYear[i].0)
  }

  /** `load_valid_ids` as intended: the IDs themselves, every list of every year in file order. */
  function LoadValidIds(doc: Option<IdDocument>): (validIds: seq<string>)
    ensures forall x :: x in validIds <==>
              doc.Some? && if doc.value.IdList? then x in doc.value.ids
                           else exists y, d :: 0 <= y < |doc.value.byYear| && 0 <= d < |doc.value.byYear[y].1| &&
                                               x in doc.value.byYear[y].1[d].1
  {
    match doc
    case None => []
    case Some(IdList(ids)) => ids
    case Some(IdsByYear(byYear)) =>
      (forall x ensures x in CollegeIds.Flatten(byYear) <==>
                        exists y, d :: 0 <= y < |byYear| && 0 <= d < |byYear[y].1| && x in byYear[y].1[d].1 {
         CollegeIds.InFlatten(byYear, x);
       }
       CollegeIds.Flatten(byYear))
  }

  /** The file the roll-number generator writes. */
  function GeneratedDocument(): Option<IdDocument>
  {
    Some(IdsByYear(RollNumbers.RollNumbersByYear()))
  }

  /** As written, the loader's "valid IDs" for the generator's file are the five year keys. */
  lemma AsWrittenYieldsYearKeys()
    ensures LoadValidIdsAsWritten(GeneratedDocument()) == ["2020", "2021", "2022", "2023", "2024"]
  {
    RollNumbers.YearKeys();
  }

  /** As written, the loader refuses every generated roll number and accepts the bare year keys instead. */
  lemma AsWrittenRejectsRollNumber(y: nat, d: nat, s: nat)
    requires y < RollNumbers.YearCount && d < |RollNumbers.DepartmentCodes| && 1 <= s <= RollNumbers.IdsPerDepartment
    ensures RollNumbers.IdOf(y, d, s) !in LoadValidIdsAsWritten(GeneratedDocument())
    ensures "2020" in LoadValidIdsAsWritten(GeneratedDocument())
  {
    RollNumbers.RollNumberFormat(y, d, s);
    AsWrittenYieldsYearKeys();
  }

  /** The same over the generator's output: no ID in the written file passes the loader as written. */
  lemma AsWrittenRejectsGeneratedIds(x: string)
    requires x in CollegeIds.Flatten(RollNumbers.RollNumbersByYear())
    ensures x !in LoadValidIdsAsWritten(GeneratedDocument())
  {
    RollNumbers.GeneratedIds(x);
    var y, d, s :| 0 <= y < RollNumbers.YearCount && 0 <= d < |RollNumbers.DepartmentCodes| &&
                   1 <= s <= RollNumbers.IdsPerDepartment && x == RollNumbers.IdOf(y, d, s);
    AsWrittenRejectsRollNumber(y, d, s);
  }

  /** A concrete case: the first CSE roll number of 2024 is refused by the loader as written. */
  lemma AsWrittenRejectsFirstCseId()
    ensures "1602-24-733-001" !in LoadValidIdsAsWritten(GeneratedDocument())
  {
    AsWrittenYieldsYearKeys();
  }

  /** With the intended loader the valid IDs of the generator's file are exactly the roll numbers it generates. */
  lemma LoaderAcceptsGeneratedIds(x: string)
    ensures x in LoadValidIds(GeneratedDocument()) <==>
            exists y, d, s :: 0 <= y < RollNumbers.YearCount && 0 <= d < |RollNumbers.DepartmentCodes| &&
                              1 <= s <= RollNumbers.IdsPerDepartment && x == RollNumbers.IdOf(y, d, s)
  {
    RollNumbers.GeneratedIds(x);
    CollegeIds.InFlatten(RollNumbers.RollNumbersByYear(), x);
  }

  /** On a flat list the two loaders agree. */
  lemma LoadersAgreeOnLists(ids: seq<string>)
    ensures LoadValidIds(Some(IdList(ids))) == LoadValidIdsAsWritten(Some(IdList(ids)))
  {
  }

  // ---------------------------------------------------------------------
  // Rooms in the catalog

  /** The room record with o appended to its occupant list. */
  function Admit(room: Room, o: Occupant): Room
  {
    room.(occupants := room.occupants + [o])
  }

  /** The catalog after the booking of o into room (h, f, r). */
  function WithOccupant(c: Hostels, h: string, f: string, r: string, o: Occupant): Hostels
    requires HasRoom(c, h, f, r)
  {
    WithRoom(c, h, f, r, Admit(RoomAt(c, h, f, r), o))
  }

  function EmptyRoom(capacity: nat, vegPrice: real, nonVegPrice: real): Room
  {
    Room(InitialStatus, capacity, [], vegPrice, nonVegPrice)
  }

  /** The hostel `add_hostel` stores: `Floor 1..n`, each with `Room 1..m`, all empty rooms with the two prices. */
  function NewHostel(distance: real, category: string, numFloors: nat, numRooms: nat, capacity: nat,
                     vegPrice: real, nonVegPrice: real): Hostel<Room>
  {
    Hostel(distance, category, Grid(numFloors, numRooms, EmptyRoom(capacity, vegPrice, nonVegPrice)))
  }

  /** The rows `populate_room_list` shows for one floor of this program. */
  function Rows(f: Floor): map<string, RoomRow>
  {
    FloorRows(f, (room: Room) => room.capacity, (room: Room) => |room.occupants|)
  }

  // ---------------------------------------------------------------------
  // The booking checks

  /** Some occupant of the room carries this student ID: the scan over the room's occupants in `open_booking_window`. */
  predicate InRoom(occupants: seq<Occupant>, studentId: string)
  {
    exists k :: 0 <= k < |occupants| && occupants[k].id == studentId
  }

  /**
   * The checks of `open_booking_window` on the selected room, in source order:
   * room full, ID not valid, ID already among this room's occupants, meal
   * choice not "Veg" or "Non-Veg". Each refusal holds exactly when every
   * earlier check passed and its own failed.
   */
  function BookingCheck(room: Room, validIds: seq<string>, studentId: string, meal: string): (outcome: BookOutcome)
    ensures outcome == RoomFullyBooked <==> room.capacity == |room.occupants|
    ensures outcome == StudentIdInvalid <==> room.capacity != |room.occupants| && studentId !in validIds
    ensures outcome == AlreadyInThisRoom <==>
              room.capacity != |room.occupants| && studentId in validIds && InRoom(room.occupants, studentId)
    ensures outcome == MealInvalid <==>
              room.capacity != |room.occupants| && studentId in validIds && !InRoom(room.occupants, studentId) &&
              meal != "Veg" && meal != "Non-Veg"
    ensures outcome == BookingConfirmed <==>
              room.capacity != |room.occupants| && studentId in validIds && !InRoom(room.occupants, studentId) && meal in MealChoices
    ensures outcome != NoRoomSelected
  {
    if room.capacity == |room.occupants| then RoomFullyBooked
    else if studentId !in validIds then StudentIdInvalid
    else if InRoom(room.occupants, studentId) then AlreadyInThisRoom
    else if meal !in MealChoices then MealInvalid
    else BookingConfirmed
  }

  // ---------------------------------------------------------------------
  // The state invariant

  ghost predicate WithinCapacity(c: Hostels)
  {
    forall h, f, r :: HasRoom(c, h, f, r) ==> |RoomAt(c, h, f, r).occupants| <= RoomAt(c, h, f, r).capacity
  }

  /** No student appears twice in the same room. */
  predicate DistinctIds(occupants: seq<Occupant>)
  {
    forall i, j :: 0 <= i < j < |occupants| ==> occupants[i].id != occupants[j].id
  }

  ghost predicate RoomsDistinct(c: Hostels)
  {
    forall h, f, r :: HasRoom(c, h, f, r) ==> DistinctIds(RoomAt(c, h, f, r).occupants)
  }

  /** Every occupant's meal is "Veg" or "Non-Veg". */
  ghost predicate MealsValid(c: Hostels)
  {
    forall h, f, r, k :: HasRoom(c, h, f, r) && 0 <= k < |RoomAt(c, h, f, r).occupants| ==>
      RoomAt(c, h, f, r).occupants[k].meal in MealChoices
  }

  ghost predicate Consistent(c: Hostels)
  {
    WithinCapacity(c) && RoomsDistinct(c) && MealsValid(c)
  }

  /** A confirmed booking stays within capacity, keeps the room free of duplicate IDs and records a valid meal. */
  lemma BookingKeepsConsistent(c: Hostels, h: string, f: string, r: string, validIds: seq<string>, studentId: string, meal: string)
    requires Consistent(c)
    requires HasRoom(c, h, f, r)
    requires BookingCheck(RoomAt(c, h, f, r), validIds, studentId, meal) == BookingConfirmed
    ensures Consistent(WithOccupant(c, h, f, r, Occupant(studentId, meal)))
  {
    var o := Occupant(studentId, meal);
    var c' := WithOccupant(c, h, f, r, o);
    var occ := RoomAt(c, h, f, r).occupants;
    assert RoomAt(c', h, f, r).occupants == occ + [o];
    forall i, j | 0 <= i < j < |occ + [o]| ensures (occ + [o])[i].id != (occ + [o])[j].id {
      if j == |occ| {
        assert (occ + [o])[i] == occ[i];
      }
    }
    forall h', f', r', k | HasRoom(c', h', f', r') && 0 <= k < |RoomAt(c', h', f', r').occupants|
      ensures RoomAt(c', h', f', r').occupants[k].meal in MealChoices
    {
      if (h', f', r') == (h, f, r) && k == |occ| {
        assert RoomAt(c', h', f', r').occupants[k] == o;
      } else {
        assert RoomAt(c', h', f', r').occupants[k] == RoomAt(c, h', f', r').occupants[k];
      }
    }
  }

  lemma AddHostelKeepsConsistent(c: Hostels, name: string, distance: real, category: string,
                                 numFloors: nat, numRooms: nat, capacity: nat, vegPrice: real, nonVegPrice: real)
    requires Consistent(c)
    requires name !in c
    ensures Consistent(c[name := NewHostel(distance, category, numFloors, numRooms, capacity, vegPrice, nonVegPrice)])
  {
    var room := EmptyRoom(capacity, vegPrice, nonVegPrice);
    var c' := c[name := NewHostel(distance, category, numFloors, numRooms, capacity, vegPrice, nonVegPrice)];
    GridRooms(numFloors, numRooms, room);
    assert forall f, r :: HasRoom(c', name, f, r) ==> RoomAt(c', name, f, r) == room;
    forall h, f, r | HasRoom(c', h, f, r) ensures |RoomAt(c', h, f, r).occupants| <= RoomAt(c', h, f, r).capacity {
      if h != name {
        assert RoomAt(c', h, f, r) == RoomAt(c, h, f, r);
      }
    }
    forall h, f, r | HasRoom(c', h, f, r) ensures DistinctIds(RoomAt(c', h, f, r).occupants) {
      if h != name {
        assert RoomAt(c', h, f, r) == RoomAt(c, h, f, r);
      }
    }
    forall h, f, r, k | HasRoom(c', h, f, r) && 0 <= k < |RoomAt(c', h, f, r).occupants|
      ensures RoomAt(c', h, f, r).occupants[k].meal in MealChoices
    {
      if h != name {
        assert RoomAt(c', h, f, r) == RoomAt(c, h, f, r);
      }
    }
  }

  /** A confirmed booking adds exactly one occupant with that ID to the room, where there was none. */
  lemma BookingAddsOneOccupant(c: Hostels, h: string, f: string, r: string, validIds: seq<string>, studentId: string, meal: string)
    requires HasRoom(c, h, f, r)
    requires BookingCheck(RoomAt(c, h, f, r), validIds, studentId, meal) == BookingConfirmed
    ensures var occ' := RoomAt(WithOccupant(c, h, f, r, Occupant(studentId, meal)), h, f, r).occupants;
            && |occ'| == |RoomAt(c, h, f, r).occupants| + 1
            && InRoom(occ', studentId)
            && forall k :: 0 <= k < |occ'| - 1 ==> occ'[k].id != studentId
  {
    var occ := RoomAt(c, h, f, r).occupants;
    var occ' := RoomAt(WithOccupant(c, h, f, r, Occupant(studentId, meal)), h, f, r).occupants;
    assert occ' == occ + [Occupant(studentId, meal)];
    assert occ'[|occ|].id == studentId;
    forall k | 0 <= k < |occ'| - 1 ensures occ'[k].id != studentId {
      assert occ'[k] == occ[k];
    }
  }

  /** There is no check across rooms: a student in one room can still book another room of any hostel. */
  lemma OtherRoomStillBookable(c: Hostels, h: string, f: string, r: string, k: nat,
                               target: Room, validIds: seq<string>, meal: string)
    requires HasRoom(c, h, f, r) && k < |RoomAt(c, h, f, r).occupants|
    requires target.capacity != |target.occupants| && !InRoom(target.occupants, RoomAt(c, h, f, r).occupants[k].id)
    requires RoomAt(c, h, f, r).occupants[k].id in validIds && meal in MealChoices
    ensures BookingCheck(target, validIds, RoomAt(c, h, f, r).occupants[k].id, meal) == BookingConfirmed
  {
  }

  /** The row says "Fully Booked" exactly when a booking of that room stops at the first check. */
  lemma StatusAgreesWithFullCheck(f: Floor, r: string, validIds: seq<string>, studentId: string, meal: string)
    requires r in f
    ensures Rows(f)[r].status == FullyBooked <==> BookingCheck(f[r], validIds, studentId, meal) == RoomFullyBooked
  {
  }

  /**
   * With the loader as written and the generator's file, a generated roll number
   * never books a room: a room with space refuses it as an invalid ID.
   */
  lemma GeneratedIdNeverBooked(room: Room, x: string, meal: string)
    requires x in CollegeIds.Flatten(RollNumbers.RollNumbersByYear())
    ensures room.capacity == |room.occupants| ==>
              BookingCheck(room, LoadValidIdsAsWritten(GeneratedDocument()), x, meal) == RoomFullyBooked
    ensures room.capacity != |room.occupants| ==>
              BookingCheck(room, LoadValidIdsAsWritten(GeneratedDocument()), x, meal) == StudentIdInvalid
  {
    AsWrittenRejectsGeneratedIds(x);
  }

  /** As written, the bare year key "2020" passes the ID check of a room with space. */
  lemma YearKeyPassesIdCheck(room: Room, meal: string)
    requires room.capacity != |room.occupants| && !InRoom(room.occupants, "2020") && meal in MealChoices
    ensures BookingCheck(room, LoadValidIdsAsWritten(GeneratedDocument()), "2020", meal) == BookingConfirmed
  {
    AsWrittenYieldsYearKeys();
  }

  /**
   * With the corrected loader, every generated roll number books a room with
   * space that it is not already in, for a valid meal.
   */
  lemma CorrectedLoaderBooksGeneratedIds(room: Room, y: nat, d: nat, s: nat, meal: string)
    requires y < RollNumbers.YearCount && d < |RollNumbers.DepartmentCodes| && 1 <= s <= RollNumbers.IdsPerDepartment
    requires room.capacity != |room.occupants| && !InRoom(room.occupants, RollNumbers.IdOf(y, d, s)) && meal in MealChoices
    ensures BookingCheck(room, LoadValidIds(GeneratedDocument()), RollNumbers.IdOf(y, d, s), meal) == BookingConfirmed
  {
    LoaderAcceptsGeneratedIds(RollNumbers.IdOf(y, d, s));
  }

  // ---------------------------------------------------------------------
  // The application state

  /** `HostelManagementSystem`: the catalog `self.hostels`. */
  class HostelManagementSystem {
    var hostels: Hostels

    ghost predicate Valid()
      reads this
    {
      Consistent(hostels)
    }

    /** `__init__` after `load_data`; the file's contents are given (empty when there is no file). */
    constructor (hostels: Hostels)
      ensures this.hostels == hostels
    {
      this.hostels := hostels;
    }

    /** `add_hostel`: the dialog answers are the parameters; only on success is one new key stored. */
    method AddHostel(name: string, numFloors: Option<nat>, numRooms: Option<nat>, capacity: nat,
                     vegPrice: real, nonVegPrice: real, distance: real, category: string)
      returns (outcome: AddOutcome)
      modifies this
      ensures outcome == AddHostelCheck(old(hostels).Keys, name, numFloors, numRooms, category)
      ensures outcome == HostelAdded ==>
                hostels == old(hostels)[name := NewHostel(distance, category, numFloors.value, numRooms.value, capacity, vegPrice, nonVegPrice)]
      ensures outcome != HostelAdded ==> hostels == old(hostels)
      ensures old(Valid()) ==> Valid()
    {
      if name == "" {
        return NameEmpty;
      }
      if name in hostels {
        return HostelExists;
      }
      if numFloors.None? || numFloors.value == 0 {
        return FloorsMissing;
      }
      if numRooms.None? {
        return RoomCountMissing;
      }
      var floors := BuildFloors(numFloors.value, numRooms.value, EmptyRoom(capacity, vegPrice, nonVegPrice));
      if category !in Categories {
        return CategoryInvalid;
      }
      if Valid() {
        AddHostelKeepsConsistent(hostels, name, distance, category, numFloors.value, numRooms.value, capacity, vegPrice, nonVegPrice);
      }
      hostels := hostels[name := Hostel(distance, category, floors)];
      outcome := HostelAdded;
    }
  }

  /**
   * `RoomWindow` of one hostel. Its `floors` is the dict stored in the catalog,
   * so a booking changes the app's catalog; the valid IDs are loaded once,
   * when the window opens, by the loader as the program writes it.
   */
  class RoomWindow {
    const app: HostelManagementSystem
    const hostelName: string
    const validIds: seq<string>

    /** `__init__`: `self.valid_ids` is what `load_valid_ids` returns, as written. */
    constructor (app: HostelManagementSystem, hostelName: string, idDoc: Option<IdDocument>)
      ensures this.app == app && this.hostelName == hostelName
      ensures this.validIds == LoadValidIdsAsWritten(idDoc)
    {
      this.app := app;
      this.hostelName := hostelName;
      this.validIds := LoadValidIdsAsWritten(idDoc);
    }

    /** `populate_room_list` for the selected floor; None when there is no such floor to show. */
    function PopulateRoomList(floor: string): (rows: Option<map<string, RoomRow>>)
      reads app
      ensures rows.Some? <==> hostelName in app.hostels && floor in app.hostels[hostelName].floors
      ensures rows.Some? ==> rows.value == Rows(app.hostels[hostelName].floors[floor])
    {
      if hostelName in app.hostels && floor in app.hostels[hostelName].floors
      then Some(Rows(app.hostels[hostelName].floors[floor]))
      else None
    }

    /** `open_booking_window` on the selected floor and room; the two dialog answers are parameters. */
    method OpenBookingWindow(floor: string, room: string, studentId: string, meal: string)
      returns (outcome: BookOutcome)
      modifies app
      ensures !HasRoom(old(app.hostels), hostelName, floor, room) ==> outcome == NoRoomSelected
      ensures HasRoom(old(app.hostels), hostelName, floor, room) ==>
                outcome == BookingCheck(RoomAt(old(app.hostels), hostelName, floor, room), validIds, studentId, meal)
      ensures outcome == BookingConfirmed ==>
                app.hostels == WithOccupant(old(app.hostels), hostelName, floor, room, Occupant(studentId, meal))
      ensures outcome != BookingConfirmed ==> app.hostels == old(app.hostels)
      ensures old(app.Valid()) ==> app.Valid()
    {
      if !(hostelName in app.hostels && floor in app.hostels[hostelName].floors && room in app.hostels[hostelName].floors[floor]) {
        return NoRoomSelected;
      }
      var roomData := app.hostels[hostelName].floors[floor][room];
      if roomData.capacity == |roomData.occupants| {
        return RoomFullyBooked;
      }
      if studentId !in validIds {
        return StudentIdInvalid;
      }
      if InRoom(roomData.occupants, studentId) {
        return AlreadyInThisRoom;
      }
      if meal !in MealChoices {
        return MealInvalid;
      }
      if app.Valid() {
        BookingKeepsConsistent(app.hostels, hostelName, floor, room, validIds, studentId, meal);
      }
      app.hostels := WithOccupant(app.hostels, hostelName, floor, room, Occupant(studentId, meal));
      outcome := BookingConfirmed;
    }
  }
}
