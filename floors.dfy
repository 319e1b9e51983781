/** A floor: a fixed, ordered array of rooms, with the availability and occupancy views
    derived from the rooms' states and the first-match lookups. The views are stated
    over snapshots (the sequence of the rooms' states or names) so that the hotel's
    specification can use them too. */
module Floors {
  import opened Wrappers
  import opened Names
  import opened Rooms

  /** Array.Find with an equality test: the lowest position holding `x`, if any. */
  function FirstMatch<T(==)>(s: seq<T>, x: T): (r: Option<nat>)
    ensures r.None? <==> x !in s
    ensures r.Some? ==> r.value < |s| && s[r.value] == x && forall k | 0 <= k < r.value :: s[k] != x
  {
    if s == [] then None
    else if s[0] == x then Some(0)
    else match FirstMatch(s[1..], x)
      case None => None
      case Some(k) => Some(k + 1)
  }

  /** Array.FindAll on "is Available", as the positions it keeps: exactly the Available
      positions, in increasing order. */
  function AvailableIndices(s: seq<RoomState>): (r: seq<nat>)
    ensures |r| <= |s|
    ensures forall k | 0 <= k < |r| :: r[k] < |s| && s[r[k]] == Available
    ensures forall k, m | 0 <= k < m < |r| :: r[k] < r[m]
    ensures forall i | 0 <= i < |s| && s[i] == Available :: i in r
    ensures |r| == |s| <==> forall i | 0 <= i < |s| :: s[i] == Available
  {
    if s == [] then []
    else
      var rest := AvailableIndices(s[..|s| - 1]);
      assert forall i | 0 <= i < |s| - 1 :: s[..|s| - 1][i] == s[i];
      rest + (if s[|s| - 1] == Available then [|s| - 1] else [])
  }

  /** The first match of Array.Find is the head of what Array.FindAll keeps. */
  lemma FirstAvailableIsHead(s: seq<RoomState>)
    ensures FirstMatch(s, Available).None? <==> AvailableIndices(s) == []
    ensures FirstMatch(s, Available).Some? ==> FirstMatch(s, Available).value == AvailableIndices(s)[0]
  {
    var r := AvailableIndices(s);
    match FirstMatch(s, Available)
    case None =>
    case Some(j) =>
      assert j in r;
      assert s[r[0]] == Available;
  }

  function NumberOfAvailable(s: seq<RoomState>): nat
  {
    |AvailableIndices(s)|
  }

  /** The number of rooms not Available, as a percentage of all the floor's rooms. */
  function Rate(s: seq<RoomState>): (r: real)
    requires |s| >= 1
    ensures 0.0 <= r <= 100.0
    ensures r == 0.0 <==> forall i | 0 <= i < |s| :: s[i] == Available
    ensures r == 100.0 <==> forall i | 0 <= i < |s| :: s[i] != Available
  {
    var total, available := |s|, NumberOfAvailable(s);
    NoneAvailable(s);
    PercentBounds(total - available, total);
    (total - available) as real * 100.0 / total as real
  }

  lemma NoneAvailable(s: seq<RoomState>)
    ensures NumberOfAvailable(s) == 0 <==> forall i | 0 <= i < |s| :: s[i] != Available
  {
    if NumberOfAvailable(s) != 0 {
      assert s[AvailableIndices(s)[0]] == Available;
    }
  }

  lemma PercentBounds(part: int, whole: int)
    requires 0 <= part <= whole && whole >= 1
    ensures var r := part as real * 100.0 / whole as real;
      0.0 <= r <= 100.0 && (r == 0.0 <==> part == 0) && (r == 100.0 <==> part == whole)
  {
    var p, w := part as real, whole as real;
    var r := p * 100.0 / w;
    assert r * w == p * 100.0;
  }

  /** The character code of room `j` when letters start at 'A' upwards, or at 'E'
      downwards. */
  function RoomCode(j: int, reversed: bool): int
  {
    if reversed then 'E' as int - j else 'A' as int + j
  }

  /** A floor of `n` rooms can be built: every code the constructor steps through,
      including the one after the last room, converts to a character (beyond 69 rooms
      on a descending floor the code goes negative; beyond 55230 rooms on an ascending
      one it reaches the surrogate range). */
  predicate Constructible(n: int, reversed: bool)
  {
    0 <= n && 0 <= RoomCode(n, reversed) < 0xD800
  }

  /** Every code from the first room's up to the one after the last room converts. */
  lemma CodeInRange(j: int, n: int, reversed: bool)
    requires Constructible(n, reversed) && 0 <= j <= n
    ensures 0 <= RoomCode(j, reversed) < 0xD800
  {
  }

  function RoomChar(j: nat, n: int, reversed: bool): char
    requires Constructible(n, reversed) && j < n
  {
    RoomCode(j, reversed) as char
  }

  /** Different rooms of a floor get different characters. */
  lemma RoomCharInjective(j: nat, k: nat, n: int, reversed: bool)
    requires Constructible(n, reversed) && j < n && k < n
    ensures RoomChar(j, n, reversed) == RoomChar(k, n, reversed) <==> j == k
  {
    assert RoomChar(j, n, reversed) as int == RoomCode(j, reversed);
    assert RoomChar(k, n, reversed) as int == RoomCode(k, reversed);
  }

  /** The names the constructor gives the rooms of floor `floor`. */
  function LayoutNames(floor: int, n: int, reversed: bool): (names: seq<string>)
    requires Constructible(n, reversed)
    ensures |names| == n
  {
    seq(n, j requires 0 <= j < n => RoomName(floor, RoomChar(j, n, reversed)))
  }

  /** Room names on a floor are pairwise distinct. */
  lemma LayoutNamesDistinct(floor: int, n: int, reversed: bool)
    requires Constructible(n, reversed)
    ensures forall j, k | 0 <= j < k < n :: LayoutNames(floor, n, reversed)[j] != LayoutNames(floor, n, reversed)[k]
  {
    forall j, k | 0 <= j < k < n
      ensures LayoutNames(floor, n, reversed)[j] != LayoutNames(floor, n, reversed)[k]
    {
      RoomNameInjective(floor, RoomChar(j, n, reversed), floor, RoomChar(k, n, reversed));
    }
  }

  /** The elements of `s` at the positions `idx`, in that order. */
  function Pick<T>(s: seq<T>, idx: seq<nat>): (r: seq<T>)
    requires forall k | 0 <= k < |idx| :: idx[k] < |s|
    ensures |r| == |idx| && forall k | 0 <= k < |idx| :: r[k] == s[idx[k]]
    ensures forall k | 0 <= k < |idx| :: s[idx[k]] in r
  {
    seq(|idx|, k requires 0 <= k < |idx| => s[idx[k]])
  }

  class Floor {
    const number: int
    const rooms: array<Room>

    function Names(): (names: seq<string>)
      reads rooms
      ensures |names| == rooms.Length
    {
      seq(rooms.Length, j requires 0 <= j < rooms.Length reads rooms => rooms[j].name)
    }

    function States(): (states: seq<RoomState>)
      reads rooms, rooms[..]
      ensures |states| == rooms.Length
    {
      seq(rooms.Length, j requires 0 <= j < rooms.Length reads rooms, rooms[..] => rooms[j].state)
    }

    /** Builds `numberOfRooms` new Available rooms named `floor` followed by 'A', 'B', ...
        or, when `reverseOrder`, by 'E', 'D', ... */
    constructor (floor: int, numberOfRooms: int, reverseOrder: bool := false)
      requires Constructible(numberOfRooms, reverseOrder)
      ensures number == floor && rooms.Length == numberOfRooms
      ensures fresh(rooms) && forall j | 0 <= j < numberOfRooms :: fresh(rooms[j])
      ensures Names() == LayoutNames(floor, numberOfRooms, reverseOrder)
      ensures forall j | 0 <= j < numberOfRooms :: rooms[j].state == Available
    {
      var built: seq<Room> := [];
      var temp: char := if reverseOrder then 'E' else 'A';
      var i := 0;
      while i < numberOfRooms
        invariant 0 <= i <= numberOfRooms && |built| == i
        invariant temp as int == RoomCode(i, reverseOrder)
        invariant forall j | 0 <= j < i :: fresh(built[j]) && built[j].state == Available
        invariant forall j | 0 <= j < i :: built[j].name == LayoutNames(floor, numberOfRooms, reverseOrder)[j]
      {
        assert RoomName(floor, temp) == LayoutNames(floor, numberOfRooms, reverseOrder)[i];
        var room := new Room(RoomName(floor, temp));
        built := built + [room];
        CodeInRange(i + 1, numberOfRooms, reverseOrder);
        temp := if reverseOrder then (temp as int - 1) as char else (temp as int + 1) as char;
        i := i + 1;
      }
      number := floor;
      rooms := new Room[numberOfRooms](j requires 0 <= j < numberOfRooms => built[j]);
    }

    /** The Available rooms, in floor order. */
    function AvailableRooms(): (r: seq<Room>)
      reads rooms, rooms[..]
      ensures forall k | 0 <= k < |r| :: r[k] in rooms[..] && r[k].state == Available
      ensures forall j | 0 <= j < rooms.Length && rooms[j].state == Available :: rooms[j] in r
      ensures |r| == NumberOfAvailable(States())
      ensures forall k | 0 <= k < |r| :: r[k] == rooms[AvailableIndices(States())[k]]
    {
      var states := States();
      assert forall j | 0 <= j < rooms.Length :: states[j] == rooms[j].state;
      Pick(rooms[..], AvailableIndices(states))
    }

    function NumberOfTotalRooms(): (n: nat)
      ensures n == rooms.Length && n == |Names()|
    {
      rooms.Length
    }

    function NumberOfAvailableRooms(): (n: nat)
      reads rooms, rooms[..]
      ensures n <= NumberOfTotalRooms()
      ensures n == NumberOfTotalRooms() <==> forall j | 0 <= j < rooms.Length :: rooms[j].state == Available
    {
      var states := States();
      assert forall j | 0 <= j < rooms.Length :: states[j] == rooms[j].state;
      assert |AvailableIndices(states)| == |states| <==> forall j | 0 <= j < |states| :: states[j] == Available;
      |AvailableRooms()|
    }

    /** The share of rooms not Available, in percent: 0 exactly when every room is
        Available, 100 exactly when none is. */
    function OccupancyRate(): (r: real)
      requires NumberOfTotalRooms() >= 1
      reads rooms, rooms[..]
      ensures r == Rate(States())
      ensures 0.0 <= r <= 100.0
      ensures r == 0.0 <==> NumberOfAvailableRooms() == NumberOfTotalRooms()
      ensures r == 100.0 <==> NumberOfAvailableRooms() == 0
    {
      var states := States();
      assert forall j | 0 <= j < rooms.Length :: states[j] == rooms[j].state;
      assert NumberOfAvailableRooms() == NumberOfAvailable(states);
      NoneAvailable(states);
      Rate(states)
    }

    /** The lowest-position room named `name`, or null. */
    function FindRoomByName(name: string): (r: Room?)
      reads rooms
      ensures r == null <==> name !in Names()
      ensures r != null ==> r.name == name
      ensures match FirstMatch(Names(), name)
        case None => r == null
        case Some(j) => r == rooms[j]
    {
      match FirstMatch(Names(), name)
      case None => null
      case Some(j) => rooms[j]
    }

    /** The lowest-position Available room, or null. */
    function FindFirstAvailableRoom(): (r: Room?)
      reads rooms, rooms[..]
      ensures r == null <==> forall j | 0 <= j < rooms.Length :: rooms[j].state != Available
      ensures r != null ==> r.state == Available
      ensures match FirstMatch(States(), Available)
        case None => r == null
        case Some(j) => r == rooms[j]
    {
      assert forall j | 0 <= j < rooms.Length :: States()[j] == rooms[j].state;
      match FirstMatch(States(), Available)
      case None => null
      case Some(j) => rooms[j]
    }
  }
}
