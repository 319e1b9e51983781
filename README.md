# Hotel room inventory

A Dafny model of a small hotel-room inventory. A hotel is a fixed array of
floors, and each floor is a fixed array of rooms. Each room has a fixed name
and one of four states: Available, Occupied, Vacant or Repair. The hotel can:

- assign the first Available room, in floor-then-room order;
- check out, clean or tag for repair a room given by name;
- report each floor's occupancy rate and the hotel's total.

Rooms are named after their floor number followed by one character. Odd floors
(1, 3, ...) run A, B, C, ... and even floors (2, 4, ...) run E, D, C, ...

The model is split into five files:

- `wrappers.dfy`: the Option type, standing for a null result.
- `names.dfy`: the decimal rendering of floor numbers and room names. This is
  what makes names unique.
- `rooms.dfy`: the RoomState lifecycle, its transition table and class `Room`.
- `floors.dfy`: class `Floor`, with the `Array.Find`/`Array.FindAll` views stated
  over snapshots of the rooms' states and names.
- `hotel.dfy`: class `Hotel`. Its methods are specified as pure functions over
  the grid of room states, and usage scenarios are proved as client methods.

Where the code does something a reader might not expect, the model follows the
code. In particular:

- `UpdateRoom` has no `break`. It updates the first matching room on every
  floor, not just the first matching room in the hotel. Because names are unique
  in any hotel the constructor builds, this comes to the same thing. That is
  proved too (`Hotels.UpdateTouchesOneRoom`, `Hotels.HotelLayoutDistinct`).
- `TrySetRoomState` reports whether a transition is legal, but it always
  overwrites the state, legal or not.
- `TotalOccupancyRate` is the sum of the floors' percentages. It is not their
  average, so a full hotel of n floors reports 100·n.

## Model

| member | source | states |
|---|---|---|
| Rooms.Legal | ConsoleApp/Program.cs:160-175 | The transition table as a set of edges. A legal move always changes the state, and only a Vacant room can be made Available. |
| Rooms.LegalTargets | ConsoleApp/Program.cs:158-179 | The accepted target of each state: Available only to Occupied; Occupied and Repair only to Vacant; Vacant to Repair or Available. Exactly these targets are accepted (if and only if). No state accepts itself. |
| Rooms.GuestCycle | ConsoleApp/Program.cs:161-175 | Assign, check out and clean are each accepted, so the guest cycle succeeds. A second check-out (Vacant to Vacant) is refused. |
| Rooms.Room.constructor | ConsoleApp/Program.cs:144-156 | A new room has the given name and is Available. |
| Rooms.Room.TrySetRoomState | ConsoleApp/Program.cs:158-182 | The state becomes the requested one unconditionally. The result is true exactly when the old-to-new edge is in the transition table. |
| Rooms.GuestCycleScenario | ConsoleApp/Program.cs:158-182 | A new room taken through Occupied, Vacant and Available succeeds at every step and ends Available. |
| Rooms.RepeatedCheckOutScenario | ConsoleApp/Program.cs:163-180 | A repeated check-out reports failure, yet the room is Vacant. An illegal request from Available reports failure and still leaves the room in Repair. |
| Names.DigitChar | ConsoleApp/Program.cs:114 | A digit's character is a decimal digit whose code is that digit's offset from '0'. |
| Names.NatToString | ConsoleApp/Program.cs:114 | A natural number renders as a non-empty string of decimal digits. |
| Names.IntToString | ConsoleApp/Program.cs:114 | The rendering of an integer is non-empty and starts with '-' exactly when the integer is negative. |
| Names.ParseNatToString | ConsoleApp/Program.cs:114 | Parsing the decimal rendering of n gives back n. |
| Names.NatToStringInjective | ConsoleApp/Program.cs:114 | Two naturals render alike exactly when they are equal. |
| Names.IntToStringInjective | ConsoleApp/Program.cs:114 | Two integers render alike exactly when they are equal. |
| Names.RoomName | ConsoleApp/Program.cs:114 | The name is the floor's decimal rendering followed by the room's character: at least two characters, ending in that character. |
| Names.RoomNameInjective | ConsoleApp/Program.cs:114 | Two room names are equal exactly when their floors and their characters are equal. |
| Floors.FirstMatch | ConsoleApp/Program.cs:119-127 | `Array.Find`: absent exactly when the value does not occur. Otherwise the lowest position holding it. |
| Floors.AvailableIndices | ConsoleApp/Program.cs:102 | `Array.FindAll` on Available: increasing positions that are all Available, covering every Available position. It keeps every room exactly when all are Available. |
| Floors.FirstAvailableIsHead | ConsoleApp/Program.cs:123-127 | Find on Available is absent exactly when FindAll keeps nothing. Otherwise it returns the first position FindAll keeps. |
| Floors.Rate | ConsoleApp/Program.cs:105 | The share of rooms not Available, in percent, lies in 0..100. It is 0 exactly when all rooms are Available and 100 exactly when none is. |
| Floors.NoneAvailable | ConsoleApp/Program.cs:104 | No Available room is counted exactly when no room is Available. |
| Floors.RoomCharInjective | ConsoleApp/Program.cs:111-116 | On a buildable floor, two room positions get the same character exactly when they are the same position. |
| Floors.LayoutNames | ConsoleApp/Program.cs:110-117 | A floor of n rooms has n names. |
| Floors.LayoutNamesDistinct | ConsoleApp/Program.cs:111-117 | Room names on one floor are pairwise distinct. |
| Floors.Floor.constructor | ConsoleApp/Program.cs:107-118 | Builds `numberOfRooms` new Available rooms named floor + character, stepping from 'A' up or from 'E' down. It requires that every character code the loop steps through converts. |
| Floors.Floor.AvailableRooms | ConsoleApp/Program.cs:102 | Exactly the floor's Available rooms, in array order: every element is an Available room of the floor, and every Available room is included. |
| Floors.Floor.NumberOfTotalRooms | ConsoleApp/Program.cs:103 | The floor's number of rooms: the array's length, one per room name. |
| Floors.Floor.NumberOfAvailableRooms | ConsoleApp/Program.cs:103-104 | At most the number of rooms. Equal to it exactly when every room is Available. |
| Floors.Floor.OccupancyRate | ConsoleApp/Program.cs:105 | The rate of the floor's states: in 0..100, 0 exactly when every room is Available, 100 exactly when none is. |
| Floors.Floor.FindRoomByName | ConsoleApp/Program.cs:119-122 | Null exactly when no room has the name. Otherwise the lowest-position room with that name. |
| Floors.Floor.FindFirstAvailableRoom | ConsoleApp/Program.cs:123-127 | Null exactly when no room is Available. Otherwise the lowest-position Available room. |
| Hotels.FirstAvailableCell | ConsoleApp/Program.cs:52-62 | Absent exactly when no room in the hotel is Available. Otherwise the first Available room in floor-then-room order. |
| Hotels.FirstAvailableCellUnique | ConsoleApp/Program.cs:52-62 | Any room that is Available with no Available room before it is the one found. |
| Hotels.SetCellChangesOnlyThatRoom | ConsoleApp/Program.cs:58 | Changing one room's state leaves every other room's state as it was. |
| Hotels.AssignNeverRepeats | ConsoleApp/Program.cs:49-64 | After an assignment, the next assignment finds either nothing or a later room. |
| Hotels.UpdateAll | ConsoleApp/Program.cs:73-83 | Updating by name keeps the shape of the hotel. |
| Hotels.UpdateSetsEveryMatch | ConsoleApp/Program.cs:73-83 | When names on each floor are distinct, every room with the name takes the new state and every other room keeps its state. |
| Hotels.UpdateTouchesOneRoom | ConsoleApp/Program.cs:73-83 | When names are unique in the hotel, updating room (i, j)'s name changes exactly that room. |
| Hotels.UpdateUnknownNameIsNoOp | ConsoleApp/Program.cs:73-83 | Updating a name no room has changes nothing. |
| Hotels.HotelLayout | ConsoleApp/Program.cs:43-47 | One row of `roomsPerFloor` names per floor. |
| Hotels.HotelLayoutDistinct | ConsoleApp/Program.cs:41-118 | No two rooms of the built hotel share a name: floors differ by their number `i + 1` in the name's prefix, and rooms of one floor by their character. |
| Hotels.SameNameSameCell | ConsoleApp/Program.cs:114 | Equal names at two positions of the layout mean the same floor and the same room. |
| Hotels.SumRates | ConsoleApp/Program.cs:31-40 | The sum of the floors' rates, floor by floor. It lies between 0 and 100 times the number of floors. |
| Hotels.SumRatesAllAvailable | ConsoleApp/Program.cs:31-40 | A hotel with every room Available totals 0. |
| Hotels.SumRatesNoneAvailable | ConsoleApp/Program.cs:31-40 | A hotel with no room Available totals 100 times the number of floors. |
| Hotels.RateOneTaken | ConsoleApp/Program.cs:105 | A floor whose only unavailable room is the first has rate 100 / rooms. |
| Hotels.FirstAssignmentOnFreshGrid | ConsoleApp/Program.cs:31-64 | On an all-Available hotel, assignment picks floor 1's first room, and the total becomes 100 / rooms per floor. |
| Hotels.BuildFloors | ConsoleApp/Program.cs:44-47 | Floor index k is a new floor numbered k + 1, named by the layout and descending exactly when k is odd. Its rooms are all new and Available. |
| Hotels.Hotel.constructor | ConsoleApp/Program.cs:41-48 | Builds `floors` new floors. The room names are the layout and every room is Available. |
| Hotels.Hotel.TotalOccupancyRate | ConsoleApp/Program.cs:31-40 | The sum of the floors' rates. Between 0 and 100 times the number of floors. |
| Hotels.Hotel.AssignRoom | ConsoleApp/Program.cs:49-64 | If no room is Available: returns "" and changes nothing. Otherwise: returns the name of the first Available room and makes exactly that room Occupied. |
| Hotels.Hotel.TrySetRoomStateAt | ConsoleApp/Program.cs:80 | Setting one room's state, seen from the hotel: that room takes the new state and every other room keeps its own. Success is judged by the transition table. |
| Hotels.Hotel.UpdateOnFloor | ConsoleApp/Program.cs:77-81 | On one floor, the first room with the name takes the new state, or nothing changes when there is none. |
| Hotels.Hotel.UpdateRoom | ConsoleApp/Program.cs:73-83 | Every room with the name, on every floor, takes the new state; all other rooms keep theirs. Names never change. |
| Hotels.Hotel.CheckOut | ConsoleApp/Program.cs:84-87 | UpdateRoom with Vacant: every room with the name, on every floor, becomes Vacant, and every other room keeps its state. |
| Hotels.Hotel.CleanRoom | ConsoleApp/Program.cs:88-91 | UpdateRoom with Available: every room with the name, on every floor, becomes Available, and every other room keeps its state. |
| Hotels.Hotel.RoomTagAsRepair | ConsoleApp/Program.cs:92-95 | UpdateRoom with Repair: every room with the name, on every floor, becomes Repair, and every other room keeps its state. |
| Hotels.TwoFloorLayout | ConsoleApp/Program.cs:41-48 | A two-floor hotel of three rooms per floor is named 1A 1B 1C / 2E 2D 2C. |
| Hotels.NoRoomOnOtherFloor | ConsoleApp/Program.cs:114 | No room has a name whose floor number is outside 1..floors. |
| Hotels.FirstRoomName | ConsoleApp/Program.cs:111-114 | The first room of floor 1 is named "1A". |
| Hotels.FreshTotalScenario | ConsoleApp/Program.cs:18-19 | A new hotel reports total occupancy 0. |
| Hotels.FirstAssignment | ConsoleApp/Program.cs:18-21 | On a new hotel, the first assignment returns "1A". The sum of rates becomes 100 / rooms per floor. |
| Hotels.AssignmentScenario | ConsoleApp/Program.cs:18-22 | After that first assignment, TotalOccupancyRate reports 100 / rooms per floor (20 with the default 5 rooms). |
| Hotels.CheckOutScenario | ConsoleApp/Program.cs:84-87 | Checking out the never-occupied second room of floor 2 leaves it Vacant despite the refused transition. Its neighbour stays Available. |
| Hotels.UnknownCheckOutScenario | ConsoleApp/Program.cs:73-87 | Checking out a name on a floor the hotel does not have leaves room 1A Available. |

## Left out

- Main, ListAvailableRooms and PrintAvailableRoomsOnFloor (Program.cs:16-25, 65-71, 128-136) only write to the console, so they are not modelled. The scenarios above prove what Main's two occupancy figures are.
- AssignRoom's console message (Program.cs:59) and TrySetRoomState's unreachable `default` branch with its message (Program.cs:176-178) are console output. The enum has only the four cases, so the `match` has no default.
- Room's PrevRoom/NextRoom properties and the constructor's optional arguments (Program.cs:142-154) are never set by the program (always null), so they are not modelled.
- `float` is modelled as exact `real` arithmetic: the model has no rounding.
- Floors.Floor.OccupancyRate: requires at least one room. The source computes 0·100/0 = NaN for an empty floor, and the model has no NaN.
- Hotels.Hotel.TotalOccupancyRate: requires rooms per floor ≥ 1 when there are floors, for the same NaN reason.
- Floors.Floor.constructor: requires that every character code the loop steps through converts, including the code after the last room. Going down from 'E', the code would turn negative beyond 69 rooms. Going up from 'A', it steps by one and would reach the surrogate range (0xD800) before any higher code, where `char.ConvertFromUtf32` throws. A negative room count throws on allocation. The exception paths are not modelled.
- Hotels.Hotel.constructor: requires Buildable for the same reason. A negative floor count throws on allocation in the source.
- Floor and room counts are unbounded integers in the model, while the source's are 32-bit `int`. The floor number `i + 1` cannot overflow there, because `i < floors`.
- Room names are compared by exact string equality (`string.Equals`, ordinal), as sequences of characters.
