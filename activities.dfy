/**
 * Rooms, activities and scheduled activities: the capacity an activity
 * takes from its rooms, the override-then-default resolution of a scheduled
 * activity's sponsors, rooms and capacity, and the presign window.
 */
module Activities {
  import opened Wrappers
  import Blocks

  type SponsorId = int
  type ActivityId = int

  /** EighthRoom: a room's capacity defaults to -1. */
  datatype Room = Room(name: string, capacity: int)

  const DefaultRoomCapacity: int := -1

  /** The capacity value that means "no limit". */
  const Unlimited: int := -1

  /** How many days before its block a presign activity opens. */
  const PresignDays: int := 2

  /**
   * EighthActivity. Sponsors and rooms are the rows of the many-to-many
   * relations, in whatever order the database returns them.
   */
  datatype Activity = Activity(
    name: string,
    description: string,
    sponsors: seq<SponsorId>,
    rooms: seq<Room>,
    restricted: bool,
    presign: bool,
    oneADay: bool,
    bothBlocks: bool,
    sticky: bool,
    special: bool,
    deleted: bool)

  /**
   * EighthScheduledActivity: an activity placed in a block. `sponsors`,
   * `rooms` and `capacity` override the activity's defaults.
   */
  datatype ScheduledActivity = ScheduledActivity(
    block: Blocks.BlockId,
    activity: ActivityId,
    comments: string,
    sponsors: seq<SponsorId>,
    rooms: seq<Room>,
    capacity: Option<int>,
    attendanceTaken: bool,
    cancelled: bool)

  // ---------------------------------------------------------------------
  // EighthActivity.capacity

  /** The sum of the rooms' capacities. */
  function RoomsTotal(rooms: seq<Room>): int {
    if rooms == [] then 0 else RoomsTotal(rooms[..|rooms| - 1]) + rooms[|rooms| - 1].capacity
  }

  /** -1 (unlimited) without rooms, otherwise the rooms' total. */
  function ActivityCapacity(a: Activity): int {
    if |a.rooms| == 0 then Unlimited else RoomsTotal(a.rooms)
  }

  /** EighthActivity.capacity: accumulates the room capacities in a loop. */
  method Capacity(a: Activity) returns (capacity: int)
    ensures capacity == ActivityCapacity(a)
  {
    if |a.rooms| == 0 {
      return Unlimited;
    }
    capacity := 0;
    for i := 0 to |a.rooms|
      invariant capacity == RoomsTotal(a.rooms[..i])
    {
      assert a.rooms[..i + 1][..i] == a.rooms[..i];
      capacity := capacity + a.rooms[i].capacity;
    }
    assert a.rooms[..|a.rooms|] == a.rooms;
  }

  lemma {:induction false} RoomsTotalAppend(a: seq<Room>, b: seq<Room>)
    ensures RoomsTotal(a + b) == RoomsTotal(a) + RoomsTotal(b)
    decreases |b|
  {
    if b == [] {
      assert a + b == a;
    } else {
      var b' := b[..|b| - 1];
      assert (a + b)[..|a + b| - 1] == a + b';
      RoomsTotalAppend(a, b');
    }
  }

  /** The capacity does not depend on the order in which the rooms come back. */
  lemma {:induction false} RoomsTotalPermutation(a: seq<Room>, b: seq<Room>)
    requires multiset(a) == multiset(b)
    ensures RoomsTotal(a) == RoomsTotal(b)
    decreases |a|
  {
    if a == [] {
      assert |b| == |multiset(b)| == 0;
    } else {
      var last := a[|a| - 1];
      var a' := a[..|a| - 1];
      assert a == a' + [last];
      assert multiset(a') == multiset(a) - multiset{last};
      assert last in multiset(b);
      var k :| 0 <= k < |b| && b[k] == last;
      var b' := b[..k] + b[k + 1..];
      MultisetRemove(b, k);
      assert multiset(b') == multiset(b) - multiset{last};
      RoomsTotalPermutation(a', b');
      RoomsTotalRemove(b, k);
    }
  }

  lemma MultisetRemove<T>(s: seq<T>, k: nat)
    requires k < |s|
    ensures multiset(s) == multiset(s[..k] + s[k + 1..]) + multiset{s[k]}
  {
    assert s == s[..k] + [s[k]] + s[k + 1..];
  }

  /** Taking one room out lowers the total by that room's capacity. */
  lemma RoomsTotalRemove(b: seq<Room>, k: nat)
    requires k < |b|
    ensures RoomsTotal(b) == RoomsTotal(b[..k] + b[k + 1..]) + b[k].capacity
  {
    var pre := b[..k];
    var one := [b[k]];
    var post := b[k + 1..];
    assert b == pre + (one + post);
    RoomsTotalAppend(pre, one + post);
    RoomsTotalAppend(one, post);
    RoomsTotalAppend(pre, post);
    assert RoomsTotal(one) == b[k].capacity by {
      assert one[..0] == [];
    }
  }

  /**
   * Rooms left at their default capacity of -1 add up to minus the number of
   * rooms, so two such rooms give -2, which is not the unlimited value.
   */
  lemma {:induction false} DefaultRoomsCapacity(a: Activity)
    requires |a.rooms| > 0
    requires forall r :: r in a.rooms ==> r.capacity == DefaultRoomCapacity
    ensures ActivityCapacity(a) == -|a.rooms|
  {
    DefaultRoomsTotal(a.rooms);
  }

  lemma {:induction false} DefaultRoomsTotal(rooms: seq<Room>)
    requires forall r :: r in rooms ==> r.capacity == DefaultRoomCapacity
    ensures RoomsTotal(rooms) == -|rooms|
  {
    if rooms != [] {
      assert rooms[|rooms| - 1] in rooms;
      assert forall r :: r in rooms[..|rooms| - 1] ==> r in rooms;
      DefaultRoomsTotal(rooms[..|rooms| - 1]);
    }
  }

  /** With rooms of non-negative capacity the activity is limited. */
  lemma {:induction false} RoomsTotalNonNegative(rooms: seq<Room>)
    requires forall r :: r in rooms ==> r.capacity >= 0
    ensures RoomsTotal(rooms) >= 0
  {
    if rooms != [] {
      assert rooms[|rooms| - 1] in rooms;
      assert forall r :: r in rooms[..|rooms| - 1] ==> r in rooms;
      RoomsTotalNonNegative(rooms[..|rooms| - 1]);
    }
  }

  // ---------------------------------------------------------------------
  // EighthScheduledActivity.get_true_sponsors / get_true_rooms / get_true_capacity

  /** The override sponsors when there are any, else the activity's. */
  function TrueSponsors(sa: ScheduledActivity, act: Activity): (r: seq<SponsorId>)
    ensures r == sa.sponsors || r == act.sponsors
    ensures |sa.sponsors| > 0 ==> r == sa.sponsors
    ensures |r| == 0 <==> |sa.sponsors| == 0 && |act.sponsors| == 0
  {
    if |sa.sponsors| > 0 then sa.sponsors else act.sponsors
  }

  /** The override rooms when there are any, else the activity's. */
  function TrueRooms(sa: ScheduledActivity, act: Activity): (r: seq<Room>)
    ensures r == sa.rooms || r == act.rooms
    ensures |sa.rooms| > 0 ==> r == sa.rooms
    ensures |r| == 0 <==> |sa.rooms| == 0 && |act.rooms| == 0
  {
    if |sa.rooms| > 0 then sa.rooms else act.rooms
  }

  /**
   * The override capacity when one is set (including an explicit -1), else
   * the activity's capacity, which is taken from the activity's own rooms.
   */
  function TrueCapacity(sa: ScheduledActivity, act: Activity): int {
    match sa.capacity
    case Some(c) => c
    case None => ActivityCapacity(act)
  }

  /**
   * The effective capacity is unlimited exactly when the override is -1, or
   * there is no override and the activity either has no rooms or rooms
   * adding up to -1.
   */
  lemma TrueCapacityUnlimited(sa: ScheduledActivity, act: Activity)
    ensures TrueCapacity(sa, act) == Unlimited <==>
      sa.capacity == Some(Unlimited) ||
      (sa.capacity.None? && (|act.rooms| == 0 || RoomsTotal(act.rooms) == Unlimited))
  {
  }

  /**
   * Overriding the rooms of a scheduled activity does not change its
   * capacity: without a capacity override the activity's default rooms count.
   */
  lemma TrueCapacityIgnoresRoomOverride(sa: ScheduledActivity, act: Activity, rooms: seq<Room>)
    ensures TrueCapacity(sa.(rooms := rooms), act) == TrueCapacity(sa, act)
  {
  }

  // ---------------------------------------------------------------------
  // EighthScheduledActivity.is_too_early_to_signup

  /** `now` is before midnight of the block's date minus the presign period. */
  predicate IsTooEarlyToSignup(blockDate: int, now: int) {
    now < blockDate * Blocks.SecondsPerDay - PresignDays * Blocks.SecondsPerDay
  }

  /** Once the presign window is open it stays open. */
  lemma PresignWindow(blockDate: int, now: int, later: int)
    requires now <= later
    ensures !IsTooEarlyToSignup(blockDate, now) ==> !IsTooEarlyToSignup(blockDate, later)
  {
  }

  /**
   * By calendar day: at any time of day `day` it is too early exactly when
   * `day` is more than two days before the block's date.
   */
  lemma PresignOpensByDay(blockDate: int, day: int, seconds: int)
    requires 0 <= seconds < Blocks.SecondsPerDay
    ensures IsTooEarlyToSignup(blockDate, day * Blocks.SecondsPerDay + seconds) <==> day < blockDate - PresignDays
  {
    if day >= blockDate - PresignDays {
      assert day * Blocks.SecondsPerDay >= (blockDate - PresignDays) * Blocks.SecondsPerDay;
    } else {
      assert day * Blocks.SecondsPerDay + Blocks.SecondsPerDay <= (blockDate - PresignDays) * Blocks.SecondsPerDay;
    }
  }
}
