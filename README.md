# Hostel room allocation, modelled in Dafny

This project models the core of a small desktop hostel-booking application
for a college. There are three programs:

- **The roll-number generator** (`student_details.py`). It builds the college's
  identity file: five years (2020 to 2024). Each year has seven departments in
  a fixed order. Each department has roll numbers `1602-YY-DDD-NNN` with
  sequence numbers 001 to 194.
- **The ledger variant** (`new_hostel.py`). An admin adds hostels: the name, the
  floors, the rooms per floor, the capacity, the distance and the category. A
  student books a room under four conditions:
  - the room is not full;
  - the ID is in the identity file;
  - the ID has no booking anywhere in the global booking ledger;
  - the name is not empty.

  A booking appends the occupant to the room and a record to the ledger. The
  admin can look a student up in the ledger.
- **The meal variant** (`Hostel_final.py`). It has the same catalog, with a veg
  and a non-veg price on every room. It has no ledger. A booking is refused
  when the ID is not valid, when it is already in that room, or when the meal
  choice is neither "Veg" nor "Non-Veg".

Modules:

| file | module | models |
|---|---|---|
| `wrappers.dfy` | `Wrappers` | `Option` |
| `decimal.dfy` | `Decimal` | Python's `str(n)` and `zfill` on naturals, and reading a numeral back |
| `college_ids.dfy` | `CollegeIds` | the shape of the identity file (year, then department, then IDs, all in insertion order) and its flattening |
| `roll_numbers.dfy` | `RollNumbers` | the generator (`student_details.py`) |
| `hostel_common.dfy` | `HostelCommon` | what both hostel programs share word for word: the admin code, the categories, the check chain of `add_hostel`, the floor/room grid it builds, and the row the room view shows |
| `ledger_hostel.dfy` | `LedgerHostel` | `new_hostel.py` |
| `meal_hostel.dfy` | `MealHostel` | `Hostel_final.py` |

Modelling choices:

- The identity file is a sequence of (key, value) pairs, because its order is
  what the loaders iterate over. The hostel catalog is a Dafny `map`: nothing
  in the core depends on its order.
- `HostelManagementSystem` is a class whose fields are the catalog and, in the
  ledger variant, the ledger.
- `RoomWindow` is a class holding a reference to the application object and a
  hostel name. In the source, the window's `floors` is the very dictionary
  stored in `self.hostels`, and its `student_bookings` is the application's
  list. So a booking made through the window changes the application's state,
  and the model's `OpenBookingWindow` modifies `app`. No operation replaces an
  existing hostel entry, so reading through `app.hostels[hostelName]` sees the
  same data as the Python alias.
- Every dialog answer is a parameter. The floor count and the room count are
  `Option<nat>`, because `askinteger` gives `None` on cancel. Both the identity file and a missing
  file are parameters (`None` means the file was not found).
- Every state-changing operation states its complete new state. It also keeps
  a `Valid()` invariant on the catalog, and on the ledger in the ledger
  variant:
  - no room exceeds its capacity;
  - in the ledger variant, one ledger record per student, and the ledger and
    the room occupant lists agree both ways;
  - in the meal variant, no duplicate ID within a room, and every recorded
    meal is valid.

Notes on what the code does:

- `add_hostel` refuses a floor count that is absent or zero with a warning. A
  cancelled room count is never tested: the floor loop's `range(None)` raises
  `TypeError`, which ends the handler with nothing stored (`RoomCountMissing`).
  The capacity is taken as given.
- The stored room `status` is written as "available" when the room is created,
  and never changed. The "Fully Booked" / "Available" the user sees is derived
  from the capacity and the occupant count each time the view is drawn.
- In the ledger variant, the "already booked this room" check compares the ID
  string with the occupant dictionaries. It can never fire (`InOccupantList`).
  The global ledger check before it is what refuses a repeat booking.
- Both booking programs read `college_ids.json`, the file the generator
  writes, so the generator is modelled with them. The shape of that file
  decides what each loader accepts. The meal variant's window uses its loader
  exactly as written, and so refuses every generated roll number (see
  Findings); the corrected loader is modelled beside it.

## Model

| member | source | states |
|---|---|---|
| `Decimal.Digits` | MINI-PROJECT/student_details.py:32 | `str(n)`: a non-empty string of decimal digits, one digit exactly when n < 10, and no leading zero beyond one digit |
| `Decimal.ValueOfDigits` | MINI-PROJECT/student_details.py:32 | reading `str(n)` back as a decimal numeral gives n |
| `Decimal.DigitsInjective` | MINI-PROJECT/student_details.py:32 | different numbers have different numerals |
| `Decimal.ZFill` | MINI-PROJECT/student_details.py:32 | `zfill(width)`: the result has length max(width, length of s), ends with s, and is zeros before it |
| `Decimal.ValueIgnoresLeadingZeros` | MINI-PROJECT/student_details.py:32 | leading zeros do not change a numeral's value |
| `Decimal.ValueOfPadded` | MINI-PROJECT/student_details.py:32 | the zero-padded numeral of n is all digits and still reads back as n |
| `CollegeIds.InFlattenDepartments` | MINI-PROJECT/new_hostel.py:17-18 | an ID is in one year's flattened list exactly when some department list of that year holds it |
| `CollegeIds.InFlatten` | MINI-PROJECT/new_hostel.py:15-18 | an ID is in the list the nested iteration produces exactly when some department list of some year holds it |
| `CollegeIds.DistinctConcat` | MINI-PROJECT/new_hostel.py:18 | concatenating two duplicate-free lists that share no ID gives a duplicate-free list |
| `CollegeIds.FlattenDepartmentsDistinct` | MINI-PROJECT/new_hostel.py:17-18 | when each department list is duplicate-free and no two lists share an ID, one year's flattened list is duplicate-free |
| `CollegeIds.FlattenDistinct` | MINI-PROJECT/new_hostel.py:16-18 | the same over all years: duplicate-free and pairwise disjoint lists flatten to a duplicate-free list |
| `CollegeIds.FlattenDepartmentsLength` | MINI-PROJECT/new_hostel.py:17-18 | one year with lists of equal length k has departments times k IDs |
| `CollegeIds.FlattenLength` | MINI-PROJECT/new_hostel.py:16-18 | a uniform file flattens to years times departments times list length IDs |
| `RollNumbers.EmptyTable` | MINI-PROJECT/student_details.py:16-23 | the first loop nest sets the five year keys in order, each with the seven department names in order and an empty list |
| `RollNumbers.FillDepartment` | MINI-PROJECT/student_details.py:30-34 | the innermost loop appends the department's 194 roll numbers in order to its list and changes no other list |
| `RollNumbers.GenerateRollNumbers` | MINI-PROJECT/student_details.py:15-35 | the two loop phases (keys with empty lists, then appending every roll number) produce exactly the reference table `RollNumbersByYear` |
| `RollNumbers.YearNumeral` | MINI-PROJECT/student_details.py:27 | `str(2020 + y)` is "202y", and its suffix from position 2 is "2y" |
| `RollNumbers.YearKeys` | MINI-PROJECT/student_details.py:19-20 | the file has five year keys, "2020" to "2024", in order |
| `RollNumbers.DepartmentLists` | MINI-PROJECT/student_details.py:22-34 | every year maps the seven department names in table order to 194 IDs; the k-th is the roll number with sequence k+1 and decodes to (year, code, k+1) |
| `RollNumbers.PaddedLength` | MINI-PROJECT/student_details.py:32 | a sequence number below 1000, zero-filled to 3, is exactly 3 characters |
| `RollNumbers.FieldsOf` | MINI-PROJECT/student_details.py:32 | in `1602-{a}-{b}-{c}` with fields of widths 2, 3 and 3, the fields sit at positions 5-6, 8-10 and 12-14 between dashes |
| `RollNumbers.RollNumberFormat` | MINI-PROJECT/student_details.py:31-32 | every roll number is 15 characters: "1602-", the year suffix, "-", the department code, "-", the three-digit sequence, all fields digits |
| `RollNumbers.CodeShape` | MINI-PROJECT/student_details.py:4-12 | every department code is three decimal digits |
| `RollNumbers.DecodeRollNumber` | MINI-PROJECT/student_details.py:32 | parsing a roll number gives back the year, the department code and the sequence number it was made from |
| `RollNumbers.DepartmentCodesDistinct` | MINI-PROJECT/student_details.py:4-12 | the seven department codes are pairwise different |
| `RollNumbers.DepartmentNamesDistinct` | MINI-PROJECT/student_details.py:4-12 | the seven department names are pairwise different, so no department list overwrites another |
| `RollNumbers.YearKeysDistinct` | MINI-PROJECT/student_details.py:19-20 | the five year keys are pairwise different |
| `RollNumbers.IdOfInjective` | MINI-PROJECT/student_details.py:32 | two roll numbers are equal only when year, department and sequence number are all equal |
| `RollNumbers.SequenceNumbersDiffer` | MINI-PROJECT/student_details.py:30-32 | within one year and department, different sequence numbers give different roll numbers |
| `RollNumbers.NumberedIdsDistinct` | MINI-PROJECT/student_details.py:30-32 | a list whose k-th ID reads back with sequence number k + 1 has no duplicates |
| `RollNumbers.InDepartmentList` | MINI-PROJECT/student_details.py:30-34 | every member of a department's list is that department's roll number for some sequence number 1-194 |
| `RollNumbers.TableIdsSound` | MINI-PROJECT/student_details.py:26-34 | every ID in a table of the generated shape is the roll number of a valid (year, department, sequence) triple |
| `RollNumbers.TableIdsComplete` | MINI-PROJECT/student_details.py:26-34 | every roll number of a valid triple is in a table of the generated shape |
| `RollNumbers.GeneratedIds` | MINI-PROJECT/student_details.py:26-34 | an ID is in the generated file exactly when it is the roll number of a year 2020-2024, one of the seven departments and a sequence number 1-194 |
| `RollNumbers.DepartmentListDistinct` | MINI-PROJECT/student_details.py:30-34 | one department's 194 roll numbers of one year are pairwise different |
| `RollNumbers.GeneratedListDistinct` | MINI-PROJECT/student_details.py:30-34 | each department list of the generated file has no duplicates |
| `RollNumbers.GeneratedList` | MINI-PROJECT/student_details.py:29-34 | each list in the generated table is the department's 194 roll numbers |
| `RollNumbers.DepartmentListsDisjoint` | MINI-PROJECT/student_details.py:26-34 | the lists of two different (year, department) pairs share no ID |
| `RollNumbers.GeneratedListsDisjoint` | MINI-PROJECT/student_details.py:26-34 | the same, stated on the generated table |
| `RollNumbers.GeneratedIdsDistinct` | MINI-PROJECT/student_details.py:26-38 | the file holds 5 x 7 x 194 = 6790 IDs, no two alike |
| `HostelCommon.AdminCodeAcceptsOnlyItself` | MINI-PROJECT/new_hostel.py:117-126 | admin mode is granted exactly for the string "admin123" |
| `HostelCommon.BuildFloors` | MINI-PROJECT/new_hostel.py:161-170 | the floor loop yields the uniform grid: `Floor 1..n`, each with `Room 1..m`, each the given empty room |
| `HostelCommon.NumberedNamesCount` | MINI-PROJECT/new_hostel.py:162-165 | the names "Floor 1" to "Floor n" (or "Room 1" to "Room m") are n different keys |
| `HostelCommon.NumberedNamesStep` | MINI-PROJECT/new_hostel.py:162-165 | the first n numbered names are the first n-1 plus the n-th |
| `HostelCommon.NewNameIsFresh` | MINI-PROJECT/new_hostel.py:162-165 | the n-th numbered name differs from all earlier ones, so no floor or room key is overwritten |
| `HostelCommon.GridRooms` | MINI-PROJECT/new_hostel.py:164-169 | every room of a new hostel is the initial room |
| `HostelCommon.GridShape` | MINI-PROJECT/new_hostel.py:161-170 | a new hostel has exactly n floors named `Floor i`, each with exactly m rooms named `Room j`, all equal to the initial room |
| `HostelCommon.AddHostelCheck` | MINI-PROJECT/new_hostel.py:143-176 | `add_hostel` accepts exactly a non-empty new name, a floor count present and above zero, a room count present, and a category in Boys/Girls/Mixed; each refusal holds exactly when every earlier check passed and its own failed, in the order name empty, name taken, floors, room count, category |
| `HostelCommon.RowOf` | MINI-PROJECT/new_hostel.py:241-244 | a room's row: booked plus remaining is the capacity, and the status is "Fully Booked" exactly when booked equals capacity, otherwise "Available" |
| `LedgerHostel.LoadValidIds` | MINI-PROJECT/new_hostel.py:11-21 | the loader's loops yield every ID of every department of every year in file order; an ID is valid exactly when some list holds it; a missing file yields none |
| `LedgerHostel.MissingFileHasNoIds` | MINI-PROJECT/new_hostel.py:19-21 | without the identity file the list of valid IDs is empty |
| `HostelCommon.WithRoom` | MINI-PROJECT/new_hostel.py:283 | changing one room record in place leaves the hostel names, every distance and category, and the set of (hostel, floor, room) triples unchanged, and every other room record is the same |
| `HostelCommon.FloorRows` | MINI-PROJECT/new_hostel.py:238-244 | the room view has one row per room of the floor, carrying the room's name and capacity, with booked = occupant count, remaining = capacity - booked, "Fully Booked" exactly when remaining is 0 and "Available" otherwise |
| `LedgerHostel.InOccupantList` | MINI-PROJECT/new_hostel.py:272-274 | the ID string is never found in a list of occupant records |
| `LedgerHostel.BookingCheck` | MINI-PROJECT/new_hostel.py:254-280 | a booking is confirmed exactly when the room is not full, the ID is valid, the student has no ledger record and the name is non-empty; each refusal holds exactly when every earlier check passed and its own failed, in the order full, invalid ID, ledger record, empty name; the occupant-list check never fires |
| `LedgerHostel.MissingFileRejectsEveryone` | MINI-PROJECT/new_hostel.py:258-263 | without the identity file no booking is ever confirmed |
| `LedgerHostel.FirstMatch` | MINI-PROJECT/new_hostel.py:191-195 | the position found holds the student and no earlier record does; nothing is found exactly when the student has no record |
| `LedgerHostel.AppendKeepsBooked` | MINI-PROJECT/new_hostel.py:295 | appending to the ledger keeps every student it already had |
| `LedgerHostel.BookingKeepsConsistent` | MINI-PROJECT/new_hostel.py:254-296 | a confirmed booking keeps rooms within capacity and one record per student, and keeps ledger and occupant lists in agreement |
| `LedgerHostel.AddHostelKeepsConsistent` | MINI-PROJECT/new_hostel.py:161-182 | adding a hostel under a new name keeps the invariant |
| `LedgerHostel.OccupantRefusedEverywhere` | MINI-PROJECT/new_hostel.py:265-268 | a student occupying any room is refused any further booking, in every hostel |
| `LedgerHostel.LookupPointsAtOccupiedRoom` | MINI-PROJECT/new_hostel.py:186-201 | the record the lookup reports names a room that exists and lists that student |
| `LedgerHostel.LookupIsUnique` | MINI-PROJECT/new_hostel.py:191-195 | when the ledger holds each student once, the lookup reports that student's only record |
| `LedgerHostel.LastPlaceFillsRoom` | MINI-PROJECT/new_hostel.py:243 | booking the last free place turns the room's row from "Available" to "Fully Booked" |
| `LedgerHostel.StatusAgreesWithFullCheck` | MINI-PROJECT/new_hostel.py:254 | the row shows "Fully Booked" exactly when a booking of that room is refused as fully booked |
| `LedgerHostel.HostelManagementSystem.constructor` | MINI-PROJECT/new_hostel.py:42-45 | the application starts from the loaded catalog and ledger |
| `LedgerHostel.HostelManagementSystem.AddHostel` | MINI-PROJECT/new_hostel.py:143-184 | the outcome is the check chain; on success exactly one new hostel (uniform grid of empty rooms) is stored, otherwise nothing changes; the ledger is untouched; the invariant is kept |
| `LedgerHostel.HostelManagementSystem.CheckStudentBooking` | MINI-PROJECT/new_hostel.py:186-203 | an empty ID asks nothing; otherwise the result is the first ledger record of that ID, or "not found" exactly when there is none |
| `LedgerHostel.RoomWindow.constructor` | MINI-PROJECT/new_hostel.py:206-211 | the window refers to the application's data for the given hostel |
| `LedgerHostel.RoomWindow.PopulateRoomList` | MINI-PROJECT/new_hostel.py:235-246 | a floor of this hostel gives that floor's rows; no such floor gives nothing |
| `LedgerHostel.RoomWindow.OpenBookingWindow` | MINI-PROJECT/new_hostel.py:248-302 | no such room gives "no room selected"; otherwise the outcome is the check chain on that room, the freshly loaded IDs and the ledger; on confirmation the occupant is appended to that room and the record to the ledger, otherwise nothing changes; the invariant is kept |
| `MealHostel.LoadValidIdsAsWritten` | MINI-PROJECT/Hostel_final.py:10-16 | as written: a flat list is returned as is, the nested object's `in` test sees its year keys, a missing file gives none |
| `MealHostel.LoadValidIds` | MINI-PROJECT/Hostel_final.py:10-16 | corrected: an ID is valid exactly when the list holds it, or exactly when some department list of some year of the nested object holds it |
| `MealHostel.AsWrittenYieldsYearKeys` | MINI-PROJECT/Hostel_final.py:13 | as written, the valid "IDs" for the generator's file are "2020" to "2024" |
| `MealHostel.AsWrittenRejectsRollNumber` | MINI-PROJECT/Hostel_final.py:208-210 | as written, every generated roll number is refused as invalid, while "2020" is accepted |
| `MealHostel.AsWrittenRejectsGeneratedIds` | MINI-PROJECT/Hostel_final.py:208-210 | as written, no ID of the generated file is accepted |
| `MealHostel.AsWrittenRejectsFirstCseId` | MINI-PROJECT/Hostel_final.py:208-210 | as written, "1602-24-733-001" is refused |
| `MealHostel.LoaderAcceptsGeneratedIds` | MINI-PROJECT/Hostel_final.py:208-210 | corrected, the generator's file validates exactly the roll numbers it generates |
| `MealHostel.LoadersAgreeOnLists` | MINI-PROJECT/Hostel_final.py:13 | on a flat list of IDs both loaders give the same result |
| `MealHostel.BookingCheck` | MINI-PROJECT/Hostel_final.py:201-219 | a booking is confirmed exactly when the room is not full, the ID is valid, the ID is not in this room and the meal is "Veg" or "Non-Veg"; each refusal holds exactly when every earlier check passed and its own failed, in the order full, invalid ID, already in this room, invalid meal |
| `MealHostel.BookingKeepsConsistent` | MINI-PROJECT/Hostel_final.py:199-221 | a confirmed booking keeps every room within capacity, free of duplicate IDs and with valid meals |
| `MealHostel.AddHostelKeepsConsistent` | MINI-PROJECT/Hostel_final.py:128-151 | adding a hostel under a new name keeps the invariant |
| `MealHostel.BookingAddsOneOccupant` | MINI-PROJECT/Hostel_final.py:212-221 | a confirmed booking adds exactly one occupant, the only one in the room with that ID |
| `MealHostel.OtherRoomStillBookable` | MINI-PROJECT/Hostel_final.py:212-214 | duplicates are checked only within a room: an occupant of one room can still book any other room that passes the checks |
| `MealHostel.GeneratedIdNeverBooked` | MINI-PROJECT/Hostel_final.py:201-210 | with the loader as written and the generator's file, a generated roll number is refused: as fully booked in a full room, as an invalid ID otherwise |
| `MealHostel.YearKeyPassesIdCheck` | MINI-PROJECT/Hostel_final.py:208-221 | with the loader as written and the generator's file, the ID "2020" books a room with space, for a valid meal |
| `MealHostel.CorrectedLoaderBooksGeneratedIds` | MINI-PROJECT/Hostel_final.py:201-221 | with the corrected loader, every generated roll number books a room with space that it is not already in, for a valid meal |
| `MealHostel.StatusAgreesWithFullCheck` | MINI-PROJECT/Hostel_final.py:201 | the row shows "Fully Booked" exactly when a booking of that room is refused as fully booked |
| `MealHostel.HostelManagementSystem.constructor` | MINI-PROJECT/Hostel_final.py:25 | the application starts from the loaded catalog |
| `MealHostel.HostelManagementSystem.AddHostel` | MINI-PROJECT/Hostel_final.py:108-153 | the outcome is the check chain; on success exactly one new hostel (uniform grid of empty rooms carrying both prices) is stored, otherwise nothing changes; the invariant is kept |
| `MealHostel.RoomWindow.constructor` | MINI-PROJECT/Hostel_final.py:156-163 | the window refers to the application's data for the hostel; its valid IDs are loaded once, by the loader as written |
| `MealHostel.RoomWindow.PopulateRoomList` | MINI-PROJECT/Hostel_final.py:182-193 | a floor of this hostel gives that floor's rows; no such floor gives nothing |
| `MealHostel.RoomWindow.OpenBookingWindow` | MINI-PROJECT/Hostel_final.py:195-226 | no such room gives "no room selected"; otherwise the outcome is the check chain on that room and the window's IDs; on confirmation the occupant with the meal is appended to that room, otherwise nothing changes; the invariant is kept |

## Left out

- The Tkinter interface is not modelled: windows, list boxes, tree views, message boxes, button enabling and tab switching. Only the data each handler reads and writes is.
- JSON file I/O is not modelled. `load_data`, `save_data`, `load_student_bookings`, `save_student_bookings` and the generator's `json.dump` are parameters or results: the constructors receive the loaded contents, the generator returns the table, and saving is not modelled.
- Each save in the source happens separately and is not transactional, so a crash between the catalog save and the ledger save is not modelled.
- Selecting nothing in the room view is not modelled separately. The `TclError`/`IndexError` from an empty selection is modelled as a floor or room that does not exist (`None` / `NoRoomSelected`).
- A cancelled student ID or name dialog (`None`) is not modelled separately. It takes the same path as an ID missing from the valid list or an empty name.
- The distance and the meal prices are carried as opaque `real` values. The source stores floats, and also `None` when that dialog is cancelled; nothing computes with them.
- A cancelled capacity dialog is not modelled: the capacity is a `nat` parameter. The source stores `None` as every room's capacity then; such a room never compares equal to its occupant count, and the room view's `capacity - booked` raises `TypeError`.
- An identity file that repeats a year or department key is not modelled. `json.load` keeps the last value of a repeated key, while `IdFile` as a sequence of pairs would keep every entry; the generator never writes one.
- `populate_hostel_list` is not modelled: it only lists the catalog's names, distances and categories on screen.
- `view_rooms` is not modelled beyond the `RoomWindow` constructor.
- Malformed JSON files are not modelled: the source does not handle them either.
- `LedgerHostel.HostelManagementSystem.constructor` and `MealHostel.HostelManagementSystem.constructor` do not require `Valid()`: the files on disk can hold anything. The invariant is proved to be kept whenever it held before.

## Findings

| source | as written | input that shows it | evidently intended | confidence | as-written member | corrected member |
|---|---|---|---|---|---|---|
| MINI-PROJECT/Hostel_final.py:13 | `load_valid_ids` returns the parsed JSON as it is. For the year, then department, then IDs object that `student_details.py` writes, `student_id not in self.valid_ids` tests the year keys | the generated file with student ID "1602-24-733-001": refused as an invalid ID, while the ID "2020" passes | flatten the nested lists into the IDs, as `new_hostel.py:16-18` does | not executed | `MealHostel.AsWrittenRejectsGeneratedIds` | `MealHostel.LoaderAcceptsGeneratedIds` |
