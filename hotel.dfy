/** The hotel: an array of floors, the aggregate occupancy, first-available assignment
    and the name-based state updates behind check-out, cleaning and repair tagging.
    The specification works on grids: `g[i][j]` is the state (or name) of room `j` on
    the floor at index `i`. */
module Hotels {
  import opened Wrappers
  import opened Names
  import opened Rooms
  import opened Floors

  type Grid = seq<seq<RoomState>>

  predicate InGrid<T>(g: seq<seq<T>>, i: int, j: int)
  {
    0 <= i < |g| && 0 <= j < |g[i]|
  }

  predicate SameShape<A, B>(g: seq<seq<A>>, h: seq<seq<B>>)
  {
    |g| == |h| && forall i | 0 <= i < |g| :: |g[i]| == |h[i]|
  }

  ghost predicate AllAvailable(g: Grid)
  {
    forall i, j | InGrid(g, i, j) :: g[i][j] == Available
  }

  predicate NoEmptyFloor(g: Grid)
  {
    forall i | 0 <= i < |g| :: |g[i]| >= 1
  }

  /** Two grids of the same shape that agree on every cell are equal. */
  lemma GridExtensionality(g: Grid, h: Grid)
    requires SameShape(g, h)
    requires forall i, j | InGrid(g, i, j) :: g[i][j] == h[i][j]
    ensures g == h
  {
    forall i | 0 <= i < |g| ensures g[i] == h[i] {
      assert forall j | 0 <= j < |g[i]| :: g[i][j] == h[i][j];
    }
  }

  // ---------------------------------------------------------------------------
  // Assignment

  /** The first Available room in floor-then-room order. */
  function FirstAvailableCell(g: Grid): (r: Option<(nat, nat)>)
    ensures r.None? <==> AllUnavailable(g)
    ensures r.Some? ==> IsFirstAvailable(g, r.value.0, r.value.1)
  {
    if g == [] then None
    else match FirstMatch(g[0], Available)
      case Some(j) => Some((0, j))
      case None =>
        match FirstAvailableCell(g[1..])
        case None => None
        case Some((i, j)) => Some((i + 1, j))
  }

  ghost predicate AllUnavailable(g: Grid)
  {
    forall i, j | InGrid(g, i, j) :: g[i][j] != Available
  }

  /** Cell (i, j) is Available and no room before it, in floor-then-room order, is. */
  ghost predicate IsFirstAvailable(g: Grid, i: int, j: int)
  {
    InGrid(g, i, j) && g[i][j] == Available &&
    (forall i2, j2 | 0 <= i2 < i && 0 <= j2 < |g[i2]| :: g[i2][j2] != Available) &&
    (forall j2 | 0 <= j2 < j :: g[i][j2] != Available)
  }

  /** There is only one first Available room. */
  lemma FirstAvailableCellUnique(g: Grid, i: int, j: int)
    requires IsFirstAvailable(g, i, j)
    ensures FirstAvailableCell(g) == Some((i, j))
  {
    var r := FirstAvailableCell(g);
    assert r.Some?;
    var (i2, j2) := r.value;
    assert IsFirstAvailable(g, i2, j2);
  }

  function SetCell(g: Grid, i: int, j: int, s: RoomState): Grid
    requires InGrid(g, i, j)
  {
    g[i := g[i][j := s]]
  }

  /** Setting one cell changes that room and no other. */
  lemma SetCellChangesOnlyThatRoom(g: Grid, i: int, j: int, s: RoomState)
    requires InGrid(g, i, j)
    ensures SameShape(SetCell(g, i, j, s), g)
    ensures forall i2, j2 | InGrid(g, i2, j2) ::
      SetCell(g, i, j, s)[i2][j2] == if i2 == i && j2 == j then s else g[i2][j2]
  {
  }

  /** Once assigned, a room is not offered again until its state returns to Available;
      the next assignment picks a later room. */
  lemma AssignNeverRepeats(g: Grid, i: int, j: int)
    requires FirstAvailableCell(g) == Some((i, j))
    ensures match FirstAvailableCell(SetCell(g, i, j, Occupied))
      case None => true
      case Some((i2, j2)) => i < i2 || (i == i2 && j < j2)
  {
    var h := SetCell(g, i, j, Occupied);
    match FirstAvailableCell(h)
    case None =>
    case Some((i2, j2)) =>
      assert IsFirstAvailable(h, i2, j2);
      assert h[i2][j2] == Available;
  }

  // ---------------------------------------------------------------------------
  // Updates by name

  /** One floor's part of UpdateRoom: the first room with that name, if any, takes
      state `s`. */
  function UpdatedRow(row: seq<RoomState>, names: seq<string>, name: string, s: RoomState): seq<RoomState>
    requires |names| == |row|
  {
    match FirstMatch(names, name)
    case None => row
    case Some(j) => row[j := s]
  }

  /** UpdateRoom visits every floor. */
  function UpdateAll(g: Grid, names: seq<seq<string>>, name: string, s: RoomState): (r: Grid)
    requires SameShape(g, names)
    ensures SameShape(r, g)
  {
    seq(|g|, i requires 0 <= i < |g| => UpdatedRow(g[i], names[i], name, s))
  }

  /** UpdateRoom after visiting the first `n` floors. */
  function UpdateFloors(g: Grid, names: seq<seq<string>>, name: string, s: RoomState, n: int): (r: Grid)
    requires SameShape(g, names)
    ensures SameShape(r, g)
  {
    seq(|g|, i requires 0 <= i < |g| => if i < n then UpdatedRow(g[i], names[i], name, s) else g[i])
  }

  /** Visiting floor n updates at most its first room of that name. */
  lemma UpdateFloorsStep(g: Grid, names: seq<seq<string>>, name: string, s: RoomState, n: int)
    requires SameShape(g, names) && 0 <= n < |g|
    ensures match FirstMatch(names[n], name)
      case None => UpdateFloors(g, names, name, s, n + 1) == UpdateFloors(g, names, name, s, n)
      case Some(j) => UpdateFloors(g, names, name, s, n + 1) == SetCell(UpdateFloors(g, names, name, s, n), n, j, s)
  {
  }

  lemma UpdateFloorsAll(g: Grid, names: seq<seq<string>>, name: string, s: RoomState)
    requires SameShape(g, names)
    ensures UpdateFloors(g, names, name, s, |g|) == UpdateAll(g, names, name, s)
  {
  }

  ghost predicate DistinctOnEachFloor(names: seq<seq<string>>)
  {
    forall i, j, k | 0 <= i < |names| && 0 <= j < k < |names[i]| :: names[i][j] != names[i][k]
  }

  ghost predicate DistinctNames(names: seq<seq<string>>)
  {
    forall i, j, i2, j2 | InGrid(names, i, j) && InGrid(names, i2, j2) && names[i][j] == names[i2][j2] ::
      i == i2 && j == j2
  }

  /** With names distinct on each floor, the update reaches every room of that name
      and nothing else. */
  lemma UpdateSetsEveryMatch(g: Grid, names: seq<seq<string>>, name: string, s: RoomState)
    requires SameShape(g, names) && DistinctOnEachFloor(names)
    ensures forall i, j | InGrid(g, i, j) ::
      UpdateAll(g, names, name, s)[i][j] == if names[i][j] == name then s else g[i][j]
  {
    forall i, j | InGrid(g, i, j)
      ensures UpdateAll(g, names, name, s)[i][j] == if names[i][j] == name then s else g[i][j]
    {
      match FirstMatch(names[i], name)
      case None =>
      case Some(k) =>
    }
  }

  /** With names unique across the hotel, an update targets at most one room: the one
      with that name, or none at all. */
  lemma UpdateTouchesOneRoom(g: Grid, names: seq<seq<string>>, name: string, s: RoomState, i: int, j: int)
    requires SameShape(g, names) && DistinctNames(names)
    requires InGrid(names, i, j) && names[i][j] == name
    ensures UpdateAll(g, names, name, s) == SetCell(g, i, j, s)
  {
    assert DistinctOnEachFloor(names) by {
      forall i1, j1, k1 | 0 <= i1 < |names| && 0 <= j1 < k1 < |names[i1]|
        ensures names[i1][j1] != names[i1][k1]
      {
        if names[i1][j1] == names[i1][k1] {
          assert InGrid(names, i1, j1) && InGrid(names, i1, k1);
        }
      }
    }
    UpdateSetsEveryMatch(g, names, name, s);
    forall i2, j2 | InGrid(g, i2, j2)
      ensures UpdateAll(g, names, name, s)[i2][j2] == SetCell(g, i, j, s)[i2][j2]
    {
      if names[i2][j2] == name {
        assert InGrid(names, i2, j2);
      }
    }
    GridExtensionality(UpdateAll(g, names, name, s), SetCell(g, i, j, s));
  }

  /** An update for a name no room has changes nothing. */
  lemma UpdateUnknownNameIsNoOp(g: Grid, names: seq<seq<string>>, name: string, s: RoomState)
    requires SameShape(g, names)
    requires forall i, j | InGrid(names, i, j) :: names[i][j] != name
    ensures UpdateAll(g, names, name, s) == g
  {
    forall i | 0 <= i < |g| ensures UpdateAll(g, names, name, s)[i] == g[i] {
      assert name !in names[i];
    }
  }

  // ---------------------------------------------------------------------------
  // Layout

  /** A hotel of `floors` floors with `roomsPerFloor` rooms each can be built: both
      the ascending first floor and (from two floors on) a descending floor. */
  predicate Buildable(floors: int, roomsPerFloor: int)
  {
    0 <= floors &&
    (floors >= 1 ==> Constructible(roomsPerFloor, false)) &&
    (floors >= 2 ==> Constructible(roomsPerFloor, true))
  }

  /** The names the constructor gives: floor index i is number i + 1, and its letters
      run downwards exactly when i is odd. */
  function HotelLayout(floors: int, roomsPerFloor: int): (names: seq<seq<string>>)
    requires Buildable(floors, roomsPerFloor)
    ensures |names| == floors && forall i | 0 <= i < floors :: |names[i]| == roomsPerFloor
  {
    seq(floors, i requires 0 <= i < floors => LayoutNames(i + 1, roomsPerFloor, i % 2 != 0))
  }

  /** No two rooms of the hotel share a name. */
  lemma HotelLayoutDistinct(floors: int, roomsPerFloor: int)
    requires Buildable(floors, roomsPerFloor)
    ensures DistinctNames(HotelLayout(floors, roomsPerFloor))
  {
    var names := HotelLayout(floors, roomsPerFloor);
    forall i, j, i2, j2 | InGrid(names, i, j) && InGrid(names, i2, j2) && names[i][j] == names[i2][j2]
      ensures i == i2 && j == j2
    {
      SameNameSameCell(floors, roomsPerFloor, i, j, i2, j2);
    }
  }

  lemma SameNameSameCell(floors: int, roomsPerFloor: int, i: nat, j: nat, i2: nat, j2: nat)
    requires Buildable(floors, roomsPerFloor) && i < floors && i2 < floors && j < roomsPerFloor && j2 < roomsPerFloor
    requires HotelLayout(floors, roomsPerFloor)[i][j] == HotelLayout(floors, roomsPerFloor)[i2][j2]
    ensures i == i2 && j == j2
  {
    var c := LayoutCell(floors, roomsPerFloor, i, j);
    var c2 := LayoutCell(floors, roomsPerFloor, i2, j2);
    RoomNameInjective(i + 1, c, i2 + 1, c2);
    RoomCharInjective(j, j2, roomsPerFloor, i % 2 != 0);
  }

  /** The name at floor index i, room index j, and the character it ends with. */
  lemma LayoutCell(floors: int, roomsPerFloor: int, i: nat, j: nat) returns (c: char)
    requires Buildable(floors, roomsPerFloor) && i < floors && j < roomsPerFloor
    ensures Constructible(roomsPerFloor, i % 2 != 0)
    ensures c == RoomChar(j, roomsPerFloor, i % 2 != 0)
    ensures HotelLayout(floors, roomsPerFloor)[i][j] == RoomName(i + 1, c)
  {
    c := RoomChar(j, roomsPerFloor, i % 2 != 0);
  }

  // ---------------------------------------------------------------------------
  // Occupancy

  /** The sum (not the average) of the floors' occupancy rates: each floor adds
      between 0 and 100. */
  function SumRates(g: Grid): (r: real)
    requires NoEmptyFloor(g)
    ensures 0.0 <= r <= 100.0 * |g| as real
  {
    if g == [] then 0.0 else SumRates(g[..|g| - 1]) + Rate(g[|g| - 1])
  }

  /** One more floor adds its own rate to the running sum. */
  lemma SumRatesStep(g: Grid, i: int)
    requires NoEmptyFloor(g) && 0 <= i < |g|
    ensures NoEmptyFloor(g[..i]) && NoEmptyFloor(g[..i + 1])
    ensures SumRates(g[..i + 1]) == SumRates(g[..i]) + Rate(g[i])
  {
    assert g[..i + 1][..i] == g[..i];
  }

  /** A hotel with every room Available has total occupancy 0. */
  lemma {:induction false} SumRatesAllAvailable(g: Grid)
    requires NoEmptyFloor(g) && AllAvailable(g)
    ensures SumRates(g) == 0.0
  {
    if g != [] {
      var last := g[|g| - 1];
      assert forall j | 0 <= j < |last| :: last[j] == Available;
      SumRatesAllAvailable(g[..|g| - 1]);
    }
  }

  /** A hotel with no room Available has total occupancy 100 times the number of
      floors: the figure is a sum of percentages, not a percentage. */
  lemma {:induction false} SumRatesNoneAvailable(g: Grid)
    requires NoEmptyFloor(g) && AllUnavailable(g)
    ensures SumRates(g) == 100.0 * |g| as real
  {
    if g != [] {
      var last := g[|g| - 1];
      assert forall j | 0 <= j < |last| :: last[j] != Available;
      SumRatesNoneAvailable(g[..|g| - 1]);
    }
  }

  /** The first `n` rooms of a floor whose only unavailable room is the first: n - 1
      of them are Available. */
  lemma {:induction false} AvailableAfterFirst(s: seq<RoomState>, n: int)
    requires 1 <= n <= |s| && s[0] != Available && forall j | 1 <= j < |s| :: s[j] == Available
    ensures NumberOfAvailable(s[..n]) == n - 1
  {
    if n > 1 {
      AvailableAfterFirst(s, n - 1);
      assert s[..n][..n - 1] == s[..n - 1];
    }
  }

  /** One unavailable room out of `|s|` is 100 / |s| percent. */
  lemma RateOneTaken(s: seq<RoomState>)
    requires |s| >= 1 && s[0] != Available && forall j | 1 <= j < |s| :: s[j] == Available
    ensures Rate(s) == 100.0 / |s| as real
  {
    AvailableAfterFirst(s, |s|);
    assert s[..|s|] == s;
  }

  /** A grid whose only unavailable room is the first of floor 1 sums to that floor's
      rate, over any non-empty prefix of its floors. */
  lemma {:induction false} SumRatesOneTaken(g: Grid, n: int)
    requires NoEmptyFloor(g) && 1 <= n <= |g|
    requires g[0][0] != Available && forall j | 1 <= j < |g[0]| :: g[0][j] == Available
    requires forall i, j | 1 <= i < |g| && 0 <= j < |g[i]| :: g[i][j] == Available
    ensures NoEmptyFloor(g[..n]) && SumRates(g[..n]) == 100.0 / |g[0]| as real
  {
    assert NoEmptyFloor(g[..n]);
    if n == 1 {
      assert g[..1][..0] == [];
      RateOneTaken(g[0]);
    } else {
      SumRatesOneTaken(g, n - 1);
      assert g[..n][..n - 1] == g[..n - 1];
      var last := g[n - 1];
      assert forall j | 0 <= j < |last| :: last[j] == Available;
    }
  }

  /** On a grid with every room Available, the first assignment picks the first room
      of floor 1, and the sum of rates becomes one room's share of that floor. */
  lemma FirstAssignmentOnFreshGrid(g: Grid)
    requires AllAvailable(g) && NoEmptyFloor(g) && |g| >= 1
    ensures FirstAvailableCell(g) == Some((0, 0))
    ensures NoEmptyFloor(SetCell(g, 0, 0, Occupied))
    ensures SumRates(SetCell(g, 0, 0, Occupied)) == 100.0 / |g[0]| as real
  {
    assert IsFirstAvailable(g, 0, 0);
    FirstAvailableCellUnique(g, 0, 0);
    var h := SetCell(g, 0, 0, Occupied);
    assert forall i, j | 1 <= i < |h| && 0 <= j < |h[i]| :: h[i][j] == Available by {
      assert forall i | 1 <= i < |h| :: h[i] == g[i];
    }
    SumRatesOneTaken(h, |h|);
    assert h[..|h|] == h;
  }

  /** The constructor's loop: floor i + 1 for each index i, descending exactly when i
      is odd, every room new and Available. */
  method BuildFloors(floors: int, roomsPerFloor: int) returns (built: seq<Floor>)
    requires Buildable(floors, roomsPerFloor)
    ensures |built| == floors
    ensures forall k | 0 <= k < floors :: fresh(built[k].rooms) && built[k].number == k + 1
    ensures forall k | 0 <= k < floors :: built[k].Names() == LayoutNames(k + 1, roomsPerFloor, k % 2 != 0)
    ensures forall k, j | 0 <= k < floors && 0 <= j < built[k].rooms.Length ::
      fresh(built[k].rooms[j]) && built[k].rooms[j].state == Available
  {
    built := [];
    var i := 0;
    while i < floors
      invariant 0 <= i <= floors && |built| == i
      invariant forall k | 0 <= k < i :: fresh(built[k].rooms) && built[k].number == k + 1
      invariant forall k | 0 <= k < i :: built[k].Names() == LayoutNames(k + 1, roomsPerFloor, k % 2 != 0)
      invariant forall k, j | 0 <= k < i && 0 <= j < built[k].rooms.Length ::
        fresh(built[k].rooms[j]) && built[k].rooms[j].state == Available
    {
      var floor := new Floor(i + 1, roomsPerFloor, i % 2 != 0);
      built := built + [floor];
      i := i + 1;
    }
  }

  class Hotel {
    const floors: array<Floor>
    /** The constructor's room count, kept for the specification. */
    ghost const roomsPerFloor: int

    ghost function Arrays(): set<array<Room>>
      reads floors
    {
      set i | 0 <= i < floors.Length :: floors[i].rooms
    }

    ghost function AllRooms(): set<Room>
      reads floors, Arrays()
    {
      set i, j | 0 <= i < floors.Length && 0 <= j < floors[i].rooms.Length :: floors[i].rooms[j]
    }

    ghost function Names(): seq<seq<string>>
      reads floors, Arrays()
    {
      seq(floors.Length, i requires 0 <= i < floors.Length reads floors, Arrays() => floors[i].Names())
    }

    ghost function States(): Grid
      reads floors, Arrays(), AllRooms()
    {
      seq(floors.Length, i requires 0 <= i < floors.Length reads floors, Arrays(), AllRooms() => floors[i].States())
    }

    /** Floors are numbered from 1 and named as the constructor names them. */
    ghost predicate Valid()
      reads floors, Arrays()
    {
      Buildable(floors.Length, roomsPerFloor) &&
      (forall i | 0 <= i < floors.Length :: floors[i].number == i + 1) &&
      Names() == HotelLayout(floors.Length, roomsPerFloor)
    }

    /** Rooms at different positions are different objects (their names differ). */
    lemma RoomsDistinct()
      requires Valid()
      ensures forall i, j, i2, j2 |
          0 <= i < floors.Length && 0 <= j < floors[i].rooms.Length &&
          0 <= i2 < floors.Length && 0 <= j2 < floors[i2].rooms.Length &&
          floors[i].rooms[j] == floors[i2].rooms[j2] ::
        i == i2 && j == j2
    {
      HotelLayoutDistinct(floors.Length, roomsPerFloor);
      forall i, j, i2, j2 |
          0 <= i < floors.Length && 0 <= j < floors[i].rooms.Length &&
          0 <= i2 < floors.Length && 0 <= j2 < floors[i2].rooms.Length &&
          floors[i].rooms[j] == floors[i2].rooms[j2]
        ensures i == i2 && j == j2
      {
        assert Names()[i][j] == Names()[i2][j2];
        assert InGrid(Names(), i, j) && InGrid(Names(), i2, j2);
      }
    }

    /** The room at (i, j) is no other position's room. */
    lemma OtherRoomsDiffer(i: int, j: int)
      requires Valid() && 0 <= i < floors.Length && 0 <= j < floors[i].rooms.Length
      ensures forall i2, j2 | 0 <= i2 < floors.Length && 0 <= j2 < floors[i2].rooms.Length && (i2 != i || j2 != j) ::
        floors[i2].rooms[j2] != floors[i].rooms[j]
    {
      RoomsDistinct();
    }

    lemma NamesDistinctOnEachFloor()
      requires Valid()
      ensures DistinctOnEachFloor(Names())
    {
      var names := Names();
      HotelLayoutDistinct(floors.Length, roomsPerFloor);
      forall i, j, k | 0 <= i < |names| && 0 <= j < k < |names[i]|
        ensures names[i][j] != names[i][k]
      {
        assert InGrid(names, i, j) && InGrid(names, i, k);
      }
    }

    /** Each floor has the constructor's number of rooms. */
    lemma FloorSizes()
      requires Valid()
      ensures |States()| == floors.Length
      ensures forall i | 0 <= i < floors.Length :: floors[i].rooms.Length == roomsPerFloor == |States()[i]|
    {
      forall i | 0 <= i < floors.Length ensures floors[i].rooms.Length == roomsPerFloor {
        assert |Names()[i]| == roomsPerFloor;
      }
    }

    /** Builds `floors` floors of `roomsPerFloor` Available rooms; the floor at index i
        is number i + 1 and has descending letters exactly when i is odd. */
    constructor (floors: int, roomsPerFloor: int := 5)
      requires Buildable(floors, roomsPerFloor)
      ensures Valid() && this.floors.Length == floors && this.roomsPerFloor == roomsPerFloor
      ensures AllAvailable(States())
      ensures fresh(this.floors) && fresh(Arrays()) && fresh(AllRooms())
    {
      var built := BuildFloors(floors, roomsPerFloor);
      this.roomsPerFloor := roomsPerFloor;
      this.floors := new Floor[floors](k requires 0 <= k < floors => built[k]);
      new;
      assert forall k | 0 <= k < floors :: this.floors[k] == built[k];
      assert Names() == HotelLayout(floors, roomsPerFloor) by {
        forall k | 0 <= k < floors ensures Names()[k] == HotelLayout(floors, roomsPerFloor)[k] {
          assert Names()[k] == built[k].Names();
        }
      }
      assert AllAvailable(States()) by {
        forall k, j | InGrid(States(), k, j) ensures States()[k][j] == Available {
          assert States()[k] == built[k].States();
        }
      }
    }

    /** The sum of the floors' occupancy rates, accumulated floor by floor. */
    method TotalOccupancyRate() returns (total: real)
      requires Valid() && (floors.Length == 0 || roomsPerFloor >= 1)
      ensures NoEmptyFloor(States()) && total == SumRates(States())
      ensures 0.0 <= total <= 100.0 * floors.Length as real
    {
      ghost var g := States();
      FloorSizes();
      assert NoEmptyFloor(g);
      total := 0.0;
      var i := 0;
      while i < floors.Length
        invariant 0 <= i <= floors.Length
        invariant NoEmptyFloor(g[..i]) && total == SumRates(g[..i])
      {
        assert g[i] == floors[i].States();
        SumRatesStep(g, i);
        total := total + floors[i].OccupancyRate();
        i := i + 1;
      }
      assert g[..i] == g;
      assert total == SumRates(g);
      assert States() == g;
    }

    /** Occupies the first Available room in floor-then-room order and returns its
        name; returns "" and changes nothing when no room is Available. */
    method AssignRoom() returns (name: string)
      requires Valid()
      modifies AllRooms()
      ensures Valid()
      ensures FirstAvailableCell(old(States())).None? ==> name == "" && States() == old(States())
      ensures FirstAvailableCell(old(States())).Some? ==>
        var (i, j) := FirstAvailableCell(old(States())).value;
        name == Names()[i][j] && States() == SetCell(old(States()), i, j, Occupied)
    {
      name := "";
      var i := 0;
      while i < floors.Length
        invariant 0 <= i <= floors.Length
        invariant States() == old(States())
        invariant forall i2, j2 | 0 <= i2 < i && 0 <= j2 < |States()[i2]| :: States()[i2][j2] != Available
      {
        var firstAvailableRoom := floors[i].FindFirstAvailableRoom();
        if firstAvailableRoom != null {
          ghost var g := States();
          ghost var j := FirstMatch(floors[i].States(), Available).value;
          assert IsFirstAvailable(g, i, j);
          FirstAvailableCellUnique(g, i, j);
          name := firstAvailableRoom.name;
          var ok := TrySetRoomStateAt(firstAvailableRoom, i, j, Occupied);
          break;
        }
        i := i + 1;
      }
    }

    /** Room.TrySetRoomState on the room at position (i, j), seen from the hotel: that
        cell of the grid takes the new state and every other cell keeps its own. */
    method TrySetRoomStateAt(room: Room, ghost i: int, ghost j: int, newState: RoomState) returns (success: bool)
      requires Valid() && 0 <= i < floors.Length && 0 <= j < floors[i].rooms.Length && room == floors[i].rooms[j]
      modifies room
      ensures Valid()
      ensures success == Legal(old(room.state), newState)
      ensures InGrid(old(States()), i, j) && States() == SetCell(old(States()), i, j, newState)
    {
      ghost var g := States();
      OtherRoomsDiffer(i, j);
      success := room.TrySetRoomState(newState);
      assert forall i2, j2 | InGrid(g, i2, j2) :: States()[i2][j2] == SetCell(g, i, j, newState)[i2][j2];
      GridExtensionality(States(), SetCell(g, i, j, newState));
    }

    /** One step of UpdateRoom's loop: the first room named `roomName` on floor i, if
        any, is given `newState`. */
    method UpdateOnFloor(i: int, roomName: string, newState: RoomState)
      requires Valid() && 0 <= i < floors.Length
      modifies AllRooms()
      ensures Valid() && Names() == old(Names())
      ensures match FirstMatch(Names()[i], roomName)
        case None => States() == old(States())
        case Some(j) => States() == SetCell(old(States()), i, j, newState)
    {
      FloorSizes();
      assert Names()[i] == floors[i].Names();
      var room := floors[i].FindRoomByName(roomName);
      if room != null {
        ghost var j := FirstMatch(floors[i].Names(), roomName).value;
        var ok := TrySetRoomStateAt(room, i, j, newState);
      }
    }

    /** Every room named `roomName`, on every floor, is given `newState` (the outcome of
        each transition is discarded); all other rooms keep their state. */
    method UpdateRoom(roomName: string, newState: RoomState)
      requires Valid()
      modifies AllRooms()
      ensures Valid()
      ensures States() == UpdateAll(old(States()), Names(), roomName, newState)
      ensures forall i, j | InGrid(States(), i, j) ::
        States()[i][j] == if Names()[i][j] == roomName then newState else old(States())[i][j]
    {
      ghost var names := Names();
      var i := 0;
      while i < floors.Length
        invariant 0 <= i <= floors.Length && Names() == names
        invariant States() == UpdateFloors(old(States()), names, roomName, newState, i)
      {
        UpdateFloorsStep(old(States()), names, roomName, newState, i);
        UpdateOnFloor(i, roomName, newState);
        i := i + 1;
      }
      assert States() == UpdateAll(old(States()), names, roomName, newState) by {
        UpdateFloorsAll(old(States()), names, roomName, newState);
      }
      assert DistinctOnEachFloor(names) by {
        NamesDistinctOnEachFloor();
      }
      UpdateSetsEveryMatch(old(States()), names, roomName, newState);
    }

    method CheckOut(roomName: string)
      requires Valid()
      modifies AllRooms()
      ensures Valid()
      ensures States() == UpdateAll(old(States()), Names(), roomName, Vacant)
      ensures forall i, j | InGrid(States(), i, j) ::
        States()[i][j] == if Names()[i][j] == roomName then Vacant else old(States())[i][j]
    {
      UpdateRoom(roomName, Vacant);
    }

    method CleanRoom(roomName: string)
      requires Valid()
      modifies AllRooms()
      ensures Valid()
      ensures States() == UpdateAll(old(States()), Names(), roomName, Available)
      ensures forall i, j | InGrid(States(), i, j) ::
        States()[i][j] == if Names()[i][j] == roomName then Available else old(States())[i][j]
    {
      UpdateRoom(roomName, Available);
    }

    method RoomTagAsRepair(roomName: string)
      requires Valid()
      modifies AllRooms()
      ensures Valid()
      ensures States() == UpdateAll(old(States()), Names(), roomName, Repair)
      ensures forall i, j | InGrid(States(), i, j) ::
        States()[i][j] == if Names()[i][j] == roomName then Repair else old(States())[i][j]
    {
      UpdateRoom(roomName, Repair);
    }
  }

  /** The names of a two-floor hotel with three rooms per floor. */
  lemma TwoFloorLayout()
    ensures HotelLayout(2, 3) == [["1A", "1B", "1C"], ["2E", "2D", "2C"]]
  {
    assert DigitChar(1) == '1' && DigitChar(2) == '2';
    assert IntToString(1) == "1" && IntToString(2) == "2";
    var low, high := LayoutNames(1, 3, false), LayoutNames(2, 3, true);
    assert low[0] == RoomName(1, 'A') == "1A";
    assert low[1] == RoomName(1, 'B') == "1B";
    assert low[2] == RoomName(1, 'C') == "1C";
    assert high[0] == RoomName(2, 'E') == "2E";
    assert high[1] == RoomName(2, 'D') == "2D";
    assert high[2] == RoomName(2, 'C') == "2C";
    assert low == ["1A", "1B", "1C"] && high == ["2E", "2D", "2C"];
    assert HotelLayout(2, 3)[0] == low && HotelLayout(2, 3)[1] == high;
  }

  /** The name a floor number outside 1..floors would give is no room's name. */
  lemma NoRoomOnOtherFloor(floors: int, roomsPerFloor: int, floor: int, c: char)
    requires Buildable(floors, roomsPerFloor) && !(1 <= floor <= floors)
    ensures forall i, j | InGrid(HotelLayout(floors, roomsPerFloor), i, j) ::
      HotelLayout(floors, roomsPerFloor)[i][j] != RoomName(floor, c)
  {
    var names := HotelLayout(floors, roomsPerFloor);
    forall i, j | InGrid(names, i, j) ensures names[i][j] != RoomName(floor, c) {
      var c1 := LayoutCell(floors, roomsPerFloor, i, j);
      RoomNameInjective(i + 1, c1, floor, c);
    }
  }

  /** The first room of floor 1 is 1A, whatever the size of the hotel. */
  lemma FirstRoomName(floors: int, roomsPerFloor: int)
    requires Buildable(floors, roomsPerFloor) && floors >= 1 && roomsPerFloor >= 1
    ensures HotelLayout(floors, roomsPerFloor)[0][0] == "1A"
  {
    assert HotelLayout(floors, roomsPerFloor)[0][0] == RoomName(1, RoomChar(0, roomsPerFloor, false));
    assert DigitChar(1) == '1';
  }

  /** A new hotel reports a total occupancy of 0. */
  method FreshTotalScenario(floors: int, roomsPerFloor: int) returns (total: real)
    requires Buildable(floors, roomsPerFloor) && roomsPerFloor >= 1
    ensures total == 0.0
  {
    var hotel := new Hotel(floors, roomsPerFloor);
    hotel.FloorSizes();
    ghost var start := hotel.States();
    label Built:
    total := hotel.TotalOccupancyRate();
    assert hotel.States() == start by {
      forall i, j | InGrid(start, i, j) ensures hotel.States()[i][j] == start[i][j] {
        assert hotel.floors[i].rooms[j].state == old@Built(hotel.floors[i].rooms[j].state);
      }
      GridExtensionality(hotel.States(), start);
    }
    SumRatesAllAvailable(start);
  }

  /** On a new hotel the first assignment takes 1A, and the total becomes that one room
      as a share of floor 1, the other floors adding nothing. */
  method FirstAssignment(floors: int, roomsPerFloor: int) returns (hotel: Hotel, first: string)
    requires Buildable(floors, roomsPerFloor) && floors >= 1 && roomsPerFloor >= 1
    ensures fresh(hotel) && hotel.Valid() && hotel.floors.Length == floors && hotel.roomsPerFloor == roomsPerFloor
    ensures first == "1A"
    ensures NoEmptyFloor(hotel.States()) && SumRates(hotel.States()) == 100.0 / roomsPerFloor as real
  {
    hotel := new Hotel(floors, roomsPerFloor);
    hotel.FloorSizes();
    ghost var start := hotel.States();
    FirstAssignmentOnFreshGrid(start);
    first := hotel.AssignRoom();
    FirstRoomName(floors, roomsPerFloor);
  }

  /** The figure TotalOccupancyRate reports after that first assignment. */
  method AssignmentScenario(floors: int, roomsPerFloor: int) returns (first: string, total: real)
    requires Buildable(floors, roomsPerFloor) && floors >= 1 && roomsPerFloor >= 1
    ensures first == "1A" && total == 100.0 / roomsPerFloor as real
  {
    var hotel;
    hotel, first := FirstAssignment(floors, roomsPerFloor);
    hotel.FloorSizes();
    ghost var after := hotel.States();
    label Assigned:
    total := hotel.TotalOccupancyRate();
    assert hotel.States() == after by {
      forall i, j | InGrid(after, i, j) ensures hotel.States()[i][j] == after[i][j] {
        assert hotel.floors[i].rooms[j].state == old@Assigned(hotel.floors[i].rooms[j].state);
      }
      GridExtensionality(hotel.States(), after);
    }
  }

  /** On a new hotel of at least two floors of three rooms, checking out the second
      room of floor 2, which was never occupied, still leaves it Vacant (the failed
      transition is not undone) and its neighbour Available. */
  method CheckOutScenario(floors: int, roomsPerFloor: int) returns (checkedOut: RoomState, neighbour: RoomState)
    requires Buildable(floors, roomsPerFloor) && floors >= 2 && roomsPerFloor >= 3
    ensures checkedOut == Vacant && neighbour == Available
  {
    var hotel := new Hotel(floors, roomsPerFloor);
    hotel.FloorSizes();
    var name := hotel.floors[1].rooms[1].name;
    ghost var start := hotel.States();
    ghost var names := hotel.Names();
    assert start[1][1] == Available && start[1][2] == Available;
    assert UpdateAll(start, names, name, Vacant) == SetCell(start, 1, 1, Vacant) by {
      HotelLayoutDistinct(floors, roomsPerFloor);
      assert names[1] == hotel.floors[1].Names();
      UpdateTouchesOneRoom(start, names, name, Vacant, 1, 1);
    }
    hotel.CheckOut(name);
    ghost var after := hotel.States();
    assert hotel.Names() == names;
    assert after == SetCell(start, 1, 1, Vacant);
    assert after[1][1] == Vacant && after[1][2] == Available;
    assert after[1] == hotel.floors[1].States();
    checkedOut := hotel.floors[1].rooms[1].state;
    neighbour := hotel.floors[1].rooms[2].state;
  }

  /** Checking out a name on a floor the hotel does not have changes nothing: room 1A
      of a new hotel is still Available. */
  method UnknownCheckOutScenario(floors: int, roomsPerFloor: int) returns (untouched: RoomState)
    requires Buildable(floors, roomsPerFloor) && floors >= 1 && roomsPerFloor >= 1
    ensures untouched == Available
  {
    var hotel := new Hotel(floors, roomsPerFloor);
    hotel.FloorSizes();
    ghost var start := hotel.States();
    ghost var names := hotel.Names();
    assert start[0][0] == Available;
    var unknown := RoomName(floors + 1, 'A');
    assert UpdateAll(start, names, unknown, Vacant) == start by {
      NoRoomOnOtherFloor(floors, roomsPerFloor, floors + 1, 'A');
      UpdateUnknownNameIsNoOp(start, names, unknown, Vacant);
    }
    hotel.CheckOut(unknown);
    assert hotel.Names() == names;
    assert hotel.States() == start;
    assert start[0] == hotel.floors[0].States();
    untouched := hotel.floors[0].rooms[0].state;
  }
}
