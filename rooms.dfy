/** One hotel room: a fixed name and a four-state lifecycle whose transitions are
    checked against a fixed table. */
module Rooms {

  datatype RoomState = Available | Occupied | Vacant | Repair

  /** The transitions the room accepts as successful, as a table of edges. */
  const LegalTransitions: set<(RoomState, RoomState)> :=
    {(Available, Occupied), (Occupied, Vacant), (Repair, Vacant), (Vacant, Repair), (Vacant, Available)}

  /** A legal move always changes the state, and only cleaning a vacated room makes
      it Available again. */
  predicate Legal(from: RoomState, to: RoomState)
    ensures Legal(from, to) ==> from != to
    ensures Legal(from, to) && to == Available ==> from == Vacant
  {
    (from, to) in LegalTransitions
  }

  /** The targets each state accepts. Staying put is never a success, and only a
      vacated room offers a choice. */
  lemma LegalTargets(from: RoomState, to: RoomState)
    ensures Legal(from, to) <==>
      match from
      case Available => to == Occupied
      case Occupied => to == Vacant
      case Repair => to == Vacant
      case Vacant => to == Repair || to == Available
    ensures Legal(from, to) ==> from != to
  {
  }

  /** The guest cycle (assign, check out, clean) reports success at every step and
      ends where it began; checking out a room twice fails the second time. */
  lemma GuestCycle()
    ensures Legal(Available, Occupied) && Legal(Occupied, Vacant) && Legal(Vacant, Available)
    ensures !Legal(Vacant, Vacant)
  {
  }

  class Room {
    const name: string
    var state: RoomState

    /** A new room is Available. */
    constructor (name: string)
      ensures this.name == name && state == Available
    {
      this.name := name;
      state := Available;
    }

    /** Reports whether moving to `newState` is legal, and moves there in any case. */
    method TrySetRoomState(newState: RoomState) returns (success: bool)
      modifies this
      ensures state == newState
      ensures success == Legal(old(state), newState)
    {
      success := false;
      match state {
        case Available =>
          success := newState == Occupied;
        case Occupied =>
          success := newState == Vacant;
        case Repair =>
          success := newState == Vacant;
        case Vacant =>
          success := newState == Repair || newState == Available;
      }
      state := newState;
    }
  }

  /** A fresh room taken round the guest cycle: every step succeeds and the room is
      Available again at the end. */
  method GuestCycleScenario() returns (checkedIn: bool, checkedOut: bool, cleaned: bool, last: RoomState)
    ensures checkedIn && checkedOut && cleaned && last == Available
  {
    var room := new Room("1A");
    checkedIn := room.TrySetRoomState(Occupied);
    checkedOut := room.TrySetRoomState(Vacant);
    cleaned := room.TrySetRoomState(Available);
    last := room.state;
  }

  /** Checking out twice: the second request fails, yet the room is (still) Vacant;
      an illegal request from an Available room still overwrites the state. */
  method RepeatedCheckOutScenario() returns (first: bool, second: bool, afterSecond: RoomState,
                                             illegal: bool, afterIllegal: RoomState)
    ensures first && !second && afterSecond == Vacant
    ensures !illegal && afterIllegal == Repair
  {
    var room := new Room("2C");
    var _ := room.TrySetRoomState(Occupied);
    first := room.TrySetRoomState(Vacant);
    second := room.TrySetRoomState(Vacant);
    afterSecond := room.state;
    var other := new Room("2D");
    illegal := other.TrySetRoomState(Repair);
    afterIllegal := other.state;
  }
}
