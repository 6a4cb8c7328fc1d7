/** rooms.php: adding a room, overriding a room's status, and the room list. */
module RoomsPage {
  import opened Common
  import opened Tables
  import opened Schema
  import opened Hospital
  import opened Config
  import opened Text
  import opened Sorting

  /** UPDATE rooms SET status = ? WHERE room_id = ?: the one room's status
      becomes the given string, whatever its occupancy; nothing else changes. */
  function SetStatus(rooms: Table<Room>, roomId: int, status: string): (r: Table<Room>)
    requires rooms.Valid()
    ensures r.Valid() && r.next == rooms.next && r.rows.Keys == rooms.rows.Keys
    ensures forall id :: id in rooms.rows && id != roomId ==> r.rows[id] == rooms.rows[id]
    ensures roomId in rooms.rows ==>
              && r.rows[roomId].status == status
              && r.rows[roomId].occupied == rooms.rows[roomId].occupied
              && r.rows[roomId].(status := "") == rooms.rows[roomId].(status := "")
    ensures roomId !in rooms.rows ==> r == rooms
  {
    if roomId in rooms.rows then Replace(rooms, roomId, rooms.rows[roomId].(status := status)) else rooms
  }

  /** action 'add': one INSERT of the sanitised number and type and the
      integer-cast capacity and floor; status and occupied take the column
      defaults. No try/catch: a throwing statement ends the request. */
  method AddRoom(db: Database, env: Env, roomNumber: string, roomType: string, capacity: int,
                 floorNumber: int, fault: Fault) returns (r: Response)
    modifies db`rooms
    ensures r == if fault.Aborts(1) then Fatal else Shown
    ensures db.rooms
            == if fault.Persists(1)
               then Insert(old(db.rooms), Room(SanitizeInput(roomNumber, env.quotes), SanitizeInput(roomType, env.quotes),
                                               capacity, floorNumber, db.defaults.roomOccupied, db.defaults.roomStatus))
               else old(db.rooms)
  {
    var number := SanitizeInput(roomNumber, env.quotes);
    var kind := SanitizeInput(roomType, env.quotes);
    if fault == Throws(1) {
      return Fatal;
    }
    if fault != ReturnsFalse(1) {
      db.rooms := Insert(db.rooms, Room(number, kind, capacity, floorNumber, db.defaults.roomOccupied, db.defaults.roomStatus));
    }
    return Shown;
  }

  /** action 'update': the posted status, sanitised, replaces the room's
      status. The three-option select is only in the browser; the server takes
      any string and does not look at the occupancy. */
  method UpdateRoomStatus(db: Database, env: Env, roomId: int, status: string, fault: Fault) returns (r: Response)
    modifies db`rooms
    ensures r == if fault.Aborts(1) then Fatal else Shown
    ensures db.rooms
            == if fault.Persists(1) then SetStatus(old(db.rooms), roomId, SanitizeInput(status, env.quotes)) else old(db.rooms)
  {
    var newStatus := SanitizeInput(status, env.quotes);
    if fault == Throws(1) {
      return Fatal;
    }
    if fault != ReturnsFalse(1) {
      db.rooms := SetStatus(db.rooms, roomId, newStatus);
    }
    return Shown;
  }

  /** The override can mark a room holding patients Available: its count stays
      as it was. */
  lemma OverrideIgnoresOccupancy(rooms: Table<Room>, roomId: int)
    requires rooms.Valid() && roomId in rooms.rows && rooms.rows[roomId].occupied > 0
    ensures SetStatus(rooms, roomId, Available).rows[roomId].status == Available
    ensures SetStatus(rooms, roomId, Available).rows[roomId].occupied > 0
  {
  }

  datatype RoomPost =
    | PostAdd(roomNumber: string, roomType: string, capacity: int, floorNumber: int)
    | PostUpdate(roomId: int, status: string)
    | NoPost

  /** The page's POST handling: check_session, then the switch on `action`. */
  method HandlePost(db: Database, session: Session, env: Env, post: RoomPost, fault: Fault) returns (r: Response)
    modifies db`rooms
    ensures !session.LoggedIn() ==> r == Redirect(LoginUrl) && unchanged(db)
    ensures session.LoggedIn() && post.NoPost? ==> r == Shown && unchanged(db)
    ensures session.LoggedIn() && post.PostUpdate? && fault == NoFault ==>
              db.rooms == SetStatus(old(db.rooms), post.roomId, SanitizeInput(post.status, env.quotes))
  {
    var guard := CheckSession(session);
    if guard.Some? {
      return guard.value;
    }
    match post {
      case PostAdd(number, kind, capacity, floor) =>
        r := AddRoom(db, env, number, kind, capacity, floor, fault);
      case PostUpdate(roomId, status) =>
        r := UpdateRoomStatus(db, env, roomId, status, fault);
      case NoPost =>
        r := Shown;
    }
  }

  // ------------------------------------------------------------ the room list

  /** ORDER BY floor_number, room_number (room numbers compared code unit by
      code unit). */
  predicate RoomOrder(a: (int, Room), b: (int, Room))
  {
    a.1.floorNumber < b.1.floorNumber
    || (a.1.floorNumber == b.1.floorNumber && LexLe(a.1.roomNumber, b.1.roomNumber))
  }

  lemma RoomOrderIsTotal()
    ensures TotalPreorder(RoomOrder)
  {
    forall a: (int, Room), b: (int, Room) ensures RoomOrder(a, b) || RoomOrder(b, a) {
      LexLeTotal(a.1.roomNumber, b.1.roomNumber);
    }
    forall a: (int, Room), b: (int, Room), c: (int, Room) | RoomOrder(a, b) && RoomOrder(b, c)
      ensures RoomOrder(a, c)
    {
      if a.1.floorNumber == b.1.floorNumber == c.1.floorNumber {
        LexLeTransitive(a.1.roomNumber, b.1.roomNumber, c.1.roomNumber);
      }
    }
  }

  /** SELECT * FROM rooms ORDER BY floor_number, room_number: every room once,
      ordered by floor and then by number. */
  function RoomListing(rooms: Table<Room>): (listing: seq<(int, Room)>)
    requires rooms.Valid()
    ensures Sorted(listing, RoomOrder)
    ensures multiset(listing) == multiset(Scan(rooms))
    ensures forall i :: 0 <= i < |listing| ==> listing[i].0 in rooms.rows && rooms.rows[listing[i].0] == listing[i].1
  {
    RoomOrderIsTotal();
    var listing := SortBy(Scan(rooms), RoomOrder);
    assert forall i :: 0 <= i < |listing| ==> listing[i] in multiset(Scan(rooms));
    listing
  }

  /** Every stored room appears in the list. */
  lemma ListingHasEveryRoom(rooms: Table<Room>, roomId: int)
    requires rooms.Valid() && roomId in rooms.rows
    ensures (roomId, rooms.rows[roomId]) in RoomListing(rooms)
  {
    ScanCovers(rooms, roomId);
    var i :| 0 <= i < |Scan(rooms)| && Scan(rooms)[i] == (roomId, rooms.rows[roomId]);
    assert (roomId, rooms.rows[roomId]) in multiset(Scan(rooms));
    assert (roomId, rooms.rows[roomId]) in multiset(RoomListing(rooms));
  }

  /** A room on a lower floor is listed before any room on a higher one. */
  lemma ListingByFloor(rooms: Table<Room>, i: nat, j: nat)
    requires rooms.Valid() && i < |RoomListing(rooms)| && j < |RoomListing(rooms)|
    requires RoomListing(rooms)[i].1.floorNumber < RoomListing(rooms)[j].1.floorNumber
    ensures i < j
  {
  }
}
