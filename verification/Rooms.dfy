/**
 The room directory as values: creation, lookup, entering, leaving, games and disconnects.
 A disconnect deletes a player and leaves its pointer in the room.
 */
module Rooms {
  import opened Wrappers
  import opened Registry

  const ROOMS_PER_PAGE: nat := 8
  const ROOM_MAX_PLAYER: nat := 2

  // An entry of a room's player list: a player by session index, or what is left of a
  // player who disconnected.
  datatype Member = Playing(session: int) | Gone

  datatype RoomRec = RoomRec(index: int, maxCount: nat, members: seq<Member>, playing: bool)

  datatype Directory = Directory(rooms: seq<RoomRec>, next: int)

  datatype RoomInfo = RoomInfo(maxPlayerCnt: int, roomIndex: int, currentPlayerCnt: int, isPlaying: bool)

  const NO_ROOM := RoomInfo(0, 0, 0, false)

  const EMPTY_DIRECTORY := Directory([], 1)

  // ---------------------------------------------------------------- directory operations

  function Create(d: Directory): Directory {
    Directory(d.rooms + [RoomRec(d.next, ROOM_MAX_PLAYER, [], false)], d.next + 1)
  }

  // Position of the first room with the index, or the number of rooms.
  function Position(rooms: seq<RoomRec>, index: int): (i: nat)
    ensures i <= |rooms|
    ensures i < |rooms| ==> rooms[i].index == index
    ensures forall j :: 0 <= j < i ==> rooms[j].index != index
  {
    if rooms == [] || rooms[0].index == index then 0 else 1 + Position(rooms[1..], index)
  }

  function Find(d: Directory, index: int): (r: Option<RoomRec>)
    ensures r.Some? ==> r.value.index == index
  {
    var i := Position(d.rooms, index);
    if i < |d.rooms| then Some(d.rooms[i]) else None
  }

  function Remove(d: Directory, index: int): Directory {
    var i := Position(d.rooms, index);
    if i < |d.rooms| then d.(rooms := d.rooms[..i] + d.rooms[i + 1..]) else d
  }

  // A room that changed, put back in its place.
  function Replace(d: Directory, r: RoomRec): Directory {
    var i := Position(d.rooms, r.index);
    if i < |d.rooms| then d.(rooms := d.rooms[i := r]) else d
  }

  // A full room takes no one, and says nothing; any other one looks at every member.
  function AddMember(r: RoomRec, session: int): Outcome<RoomRec> {
    if |r.members| >= r.maxCount then Done(r)
    else if Gone in r.members then Failed(DeletedPlayer)
    else Done(r.(members := r.members + [Playing(session)]))
  }

  // Position of the first entry of the player, or the number of entries.
  function FirstOf(members: seq<Member>, session: int): (o: Outcome<nat>)
    ensures o.Done? ==> o.value <= |members|
    ensures o.Done? ==> forall j :: 0 <= j < o.value ==> members[j].Playing? && members[j] != Playing(session)
    ensures o.Done? && o.value < |members| ==> members[o.value] == Playing(session)
    ensures o.Failed? ==> o.fault == DeletedPlayer && Gone in members
  {
    if members == [] || members[0] == Playing(session) then Done(0)
    else if members[0].Gone? then Failed(DeletedPlayer)
    else
      match FirstOf(members[1..], session)
      case Done(i) => Done(i + 1)
      case Failed(f) => Failed(f)
  }

  lemma {:induction false} FirstOfIs(members: seq<Member>, session: int, i: nat)
    requires i <= |members|
    requires forall j :: 0 <= j < i ==> members[j].Playing? && members[j] != Playing(session)
    ensures i == |members| || members[i] == Playing(session) ==> FirstOf(members, session) == Done(i)
    ensures i < |members| && members[i].Gone? ==> FirstOf(members, session) == Failed(DeletedPlayer)
  {
    if i > 0 {
      FirstOfIs(members[1..], session, i - 1);
    }
  }

  lemma ListedFirst(members: seq<Member>, session: int)
    requires FirstOf(members, session).Done?
    ensures FirstOf(members, session).value < |members| <==> Playing(session) in members
  {
  }

  // A notice to one player that another one is in the room.
  datatype Notice = Notice(to: int, about: int)

  // What is sent when a player is put on a list: every member hears of the player, and the
  // player of every member.
  function Notices(members: seq<Member>, session: int): seq<Notice> {
    if members == [] then [] else
      var i := |members| - 1;
      Notices(members[..i], session)
      + match members[i]
        case Playing(k) => [Notice(k, session), Notice(session, k)]
        case Gone => []
  }

  // The members other than one player, in the order of the list.
  function Others(members: seq<Member>, session: int): seq<int> {
    if members == [] then [] else
      var i := |members| - 1;
      Others(members[..i], session)
      + if members[i].Playing? && members[i].session != session then [members[i].session] else []
  }

  lemma {:induction false} OthersAreMembers(members: seq<Member>, session: int, k: int)
    ensures k in Others(members, session) <==> Playing(k) in members && k != session
  {
    if members != [] {
      var i := |members| - 1;
      OthersAreMembers(members[..i], session, k);
      assert members == members[..i] + [members[i]];
    }
  }

  // A member told once for every entry: with one entry of the player, at i, the others in order.
  lemma {:induction false} OthersInOrder(members: seq<Member>, session: int, i: nat)
    requires Gone !in members && i < |members| && members[i] == Playing(session)
    requires forall j :: 0 <= j < |members| && j != i ==> members[j] != Playing(session)
    ensures var told := Others(members, session);
            && |told| == |members| - 1
            && (forall j :: 0 <= j < i ==> told[j] == members[j].session)
            && (forall j :: i < j < |members| ==> told[j - 1] == members[j].session)
  {
    var n := |members| - 1;
    assert members[n] in members;
    if i < n {
      OthersInOrder(members[..n], session, i);
    } else {
      OthersOfStrangers(members[..n], session);
    }
  }

  lemma {:induction false} OthersOfStrangers(members: seq<Member>, session: int)
    requires Gone !in members && Playing(session) !in members
    ensures |Others(members, session)| == |members|
    ensures forall j :: 0 <= j < |members| ==> Others(members, session)[j] == members[j].session
  {
    if members != [] {
      assert members[|members| - 1] in members;
      OthersOfStrangers(members[..|members| - 1], session);
    }
  }

  lemma {:induction false} NoticesAt(members: seq<Member>, session: int, i: nat)
    requires Gone !in members && i < |members|
    ensures var ns := Notices(members, session);
            && |ns| == 2 * |members|
            && ns[2 * i] == Notice(members[i].session, session)
            && ns[2 * i + 1] == Notice(session, members[i].session)
  {
    var n := |members| - 1;
    assert members[i] in members && members[n] in members;
    if i < n {
      NoticesAt(members[..n], session, i);
    } else if n > 0 {
      NoticesAt(members[..n], session, 0);
    }
  }

  function WithoutEntry(r: RoomRec, i: nat): (l: RoomRec)
    requires i <= |r.members|
    ensures l.index == r.index && l.maxCount == r.maxCount && |r.members| - 1 <= |l.members| <= |r.members|
    ensures forall m <- l.members :: m in r.members
    ensures forall m <- r.members :: m in l.members || (i < |r.members| && m == r.members[i])
  {
    if i < |r.members| then
      var members := r.members[..i] + r.members[i + 1..];
      assert r.members == r.members[..i] + [r.members[i]] + r.members[i + 1..];
      r.(members := members)
    else r
  }

  lemma NothingTaken(r: RoomRec)
    ensures WithoutEntry(r, |r.members|) == r
  {
  }

  function DropMember(r: RoomRec, session: int): Outcome<RoomRec> {
    match FirstOf(r.members, session)
    case Failed(f) => Failed(f)
    case Done(i) => Done(WithoutEntry(r, i))
  }

  // The directory and the players' own record of the room they are in; 0 is no room.
  datatype World = World(dir: Directory, roomOf: map<int, int>)

  const EMPTY_WORLD := World(EMPTY_DIRECTORY, map[])

  function RoomOf(w: World, session: int): int {
    if session in w.roomOf then w.roomOf[session] else 0
  }

  function Enter(w: World, session: int, index: int): Outcome<World> {
    match Find(w.dir, index)
    case None => Done(w)
    case Some(r) =>
      if |r.members| >= r.maxCount then Done(w) else
        match AddMember(r, session)
        case Failed(f) => Failed(f)
        case Done(entered) => Done(World(Replace(w.dir, entered), w.roomOf[session := r.index]))
  }

  // What becomes of a room that a player left: an emptied room goes.
  function Settle(d: Directory, left: RoomRec): Directory {
    if left.members == [] then Remove(Replace(d, left), left.index) else Replace(d, left)
  }

  function Leave(w: World, session: int): Outcome<World> {
    match Find(w.dir, RoomOf(w, session))
    case None => Done(w)
    case Some(r) =>
      match DropMember(r, session)
      case Failed(f) => Failed(f)
      case Done(left) =>
        Done(World(Settle(w.dir, left),
                   if Playing(session) in r.members then w.roomOf[session := 0] else w.roomOf))
  }

  // A game starts or stops in the player's room, with a look at every member.
  function Play(w: World, session: int, on: bool): Outcome<World> {
    match Find(w.dir, RoomOf(w, session))
    case None => Failed(LogicFailed)
    case Some(r) =>
      if Gone in r.members then Failed(DeletedPlayer)
      else Done(w.(dir := Replace(w.dir, r.(playing := on))))
  }

  function MarkGone(r: RoomRec, session: int): (m: RoomRec)
    ensures m.index == r.index && m.maxCount == r.maxCount && |m.members| == |r.members|
    ensures forall i :: 0 <= i < |r.members| ==>
              m.members[i] == if r.members[i] == Playing(session) then Gone else r.members[i]
  {
    r.(members := seq(|r.members|, i requires 0 <= i < |r.members| =>
      if r.members[i] == Playing(session) then Gone else r.members[i]))
  }

  // The player is deleted, and no room is told.
  function Disconnect(w: World, session: int): World {
    World(w.dir.(rooms := seq(|w.dir.rooms|, i requires 0 <= i < |w.dir.rooms| => MarkGone(w.dir.rooms[i], session))),
          w.roomOf - {session})
  }

  // ---------------------------------------------------------------- lookups after updates

  ghost predicate Sorted(d: Directory) {
    && 1 <= d.next
    && (forall i :: 0 <= i < |d.rooms| ==> 1 <= d.rooms[i].index < d.next)
    && (forall i, j :: 0 <= i < j < |d.rooms| ==> d.rooms[i].index < d.rooms[j].index)
  }

  lemma FindAt(d: Directory, i: nat)
    requires Sorted(d) && i < |d.rooms|
    ensures Position(d.rooms, d.rooms[i].index) == i && Find(d, d.rooms[i].index) == Some(d.rooms[i])
  {
    assert Position(d.rooms, d.rooms[i].index) <= i;
  }

  lemma FindMissing(d: Directory, index: int)
    requires forall i :: 0 <= i < |d.rooms| ==> d.rooms[i].index != index
    ensures Find(d, index) == None
  {
  }

  lemma AfterCreate(d: Directory, index: int)
    requires Sorted(d)
    ensures Sorted(Create(d))
    ensures Find(Create(d), index)
            == if index == d.next then Some(RoomRec(d.next, ROOM_MAX_PLAYER, [], false)) else Find(d, index)
  {
    var t := Create(d);
    hide Position;
    if index == d.next {
      FindAt(t, |d.rooms|);
    } else if Find(d, index).Some? {
      FindAt(t, Position(d.rooms, index));
    } else {
      FindMissing(t, index);
    }
  }

  lemma AfterReplace(d: Directory, r: RoomRec, index: int)
    requires Sorted(d) && Find(d, r.index).Some?
    ensures Sorted(Replace(d, r)) && Replace(d, r).next == d.next
    ensures Find(Replace(d, r), index) == if index == r.index then Some(r) else Find(d, index)
  {
    var t, p := Replace(d, r), Position(d.rooms, r.index);
    assert t.rooms == d.rooms[p := r] && Sorted(t);
    hide Sorted, Replace, Position;
    if index == r.index {
      FindAt(t, p);
    } else if Find(d, index).Some? {
      FindAt(t, Position(d.rooms, index));
    } else {
      FindMissing(t, index);
    }
  }

  lemma ErasedRooms(d: Directory, p: nat)
    requires Sorted(d) && p < |d.rooms|
    ensures var rooms := d.rooms[..p] + d.rooms[p + 1..];
            && |rooms| == |d.rooms| - 1
            && (forall j :: 0 <= j < p ==> rooms[j] == d.rooms[j])
            && (forall j :: p <= j < |rooms| ==> rooms[j] == d.rooms[j + 1])
            && Sorted(d.(rooms := rooms))
            && (forall j :: 0 <= j < |rooms| ==> rooms[j].index != d.rooms[p].index)
  {
  }

  lemma AfterRemove(d: Directory, gone: int, index: int)
    requires Sorted(d) && Find(d, gone).Some?
    ensures Sorted(Remove(d, gone)) && Remove(d, gone).next == d.next
    ensures Find(Remove(d, gone), index) == if index == gone then None else Find(d, index)
  {
    var t, p, q := Remove(d, gone), Position(d.rooms, gone), Position(d.rooms, index);
    ErasedRooms(d, p);
    assert t == d.(rooms := d.rooms[..p] + d.rooms[p + 1..]);
    hide Sorted, Remove, Position;
    if index == gone {
      FindMissing(t, index);
    } else if q < |d.rooms| {
      FindAt(t, if q < p then q else q - 1);
    } else {
      StillMissing(d, t, p, index);
    }
  }

  lemma StillMissing(d: Directory, t: Directory, p: nat, index: int)
    requires p < |d.rooms| && t.rooms == d.rooms[..p] + d.rooms[p + 1..]
    requires forall j :: 0 <= j < |d.rooms| ==> d.rooms[j].index != index
    ensures Find(t, index) == None
  {
    FindMissing(t, index);
  }

  lemma ReplaceAt(d: Directory, i: nat, r: RoomRec)
    requires Sorted(d) && i < |d.rooms| && r.index == d.rooms[i].index
    ensures Replace(d, r) == d.(rooms := d.rooms[i := r])
    ensures Sorted(d.(rooms := d.rooms[i := r]))
    ensures forall j :: 0 <= j < |d.rooms| && j != i ==> d.rooms[j].index != r.index
  {
    FindAt(d, i);
  }

  lemma RemoveAt(d: Directory, i: nat)
    requires Sorted(d) && i < |d.rooms|
    ensures Remove(d, d.rooms[i].index) == d.(rooms := d.rooms[..i] + d.rooms[i + 1..])
    ensures Sorted(d.(rooms := d.rooms[..i] + d.rooms[i + 1..]))
  {
    FindAt(d, i);
    ErasedRooms(d, i);
  }

  lemma AfterSettle(d: Directory, left: RoomRec, index: int)
    requires Sorted(d) && Find(d, left.index).Some?
    ensures Sorted(Settle(d, left)) && Settle(d, left).next == d.next
    ensures Find(Settle(d, left), index)
            == if index != left.index then Find(d, index)
               else if left.members == [] then None
               else Some(left)
  {
    AfterReplace(d, left, index);
    AfterReplace(d, left, left.index);
    if left.members == [] {
      AfterRemove(Replace(d, left), left.index, index);
    }
  }

  lemma AfterDisconnect(w: World, session: int, index: int)
    requires Sorted(w.dir)
    ensures var d, t := w.dir, Disconnect(w, session).dir;
            && Sorted(t) && t.next == d.next
            && Find(t, index) == if Find(d, index).Some? then Some(MarkGone(Find(d, index).value, session)) else None
  {
    var d, t := w.dir, Disconnect(w, session).dir;
    hide MarkGone, Position;
    assert forall i :: 0 <= i < |d.rooms| ==> t.rooms[i].index == d.rooms[i].index;
    if Find(d, index).Some? {
      FindAt(t, Position(d.rooms, index));
    } else {
      FindMissing(t, index);
    }
  }

  // ---------------------------------------------------------------- runs

  datatype Event =
    | CreateRoom
    | EnterRoom(session: int, index: int)
    | LeaveRoom(session: int)
    | PlayGame(session: int, on: bool)
    | Disconnected(session: int)

  function Step(w: World, e: Event): Outcome<World> {
    match e
    case CreateRoom => Done(w.(dir := Create(w.dir)))
    case EnterRoom(session, index) => Enter(w, session, index)
    case LeaveRoom(session) => Leave(w, session)
    case PlayGame(session, on) => Play(w, session, on)
    case Disconnected(session) => Done(Disconnect(w, session))
  }

  function Run(w: World, es: seq<Event>): Outcome<World>
    decreases |es|
  {
    if es == [] then Done(w) else
      match Step(w, es[0])
      case Failed(f) => Failed(f)
      case Done(t) => Run(t, es[1..])
  }

  // Whether an entry by the player at this index would put it on the list.
  predicate Admits(d: Directory, index: int) {
    var r := Find(d, index);
    r.Some? && |r.value.members| < r.value.maxCount
  }

  // What a completed step makes of the room at an index.
  function Becomes(w: World, e: Event, x: int): Option<RoomRec>
    requires Step(w, e).Done?
  {
    var found := Find(w.dir, x);
    match e
    case CreateRoom =>
      if x == w.dir.next then Some(RoomRec(x, ROOM_MAX_PLAYER, [], false)) else found
    case EnterRoom(session, at) =>
      if x == at && Admits(w.dir, at)
      then Some(found.value.(members := found.value.members + [Playing(session)])) else found
    case LeaveRoom(session) =>
      if x == RoomOf(w, session) && found.Some? then
        var left := DropMember(found.value, session).value;
        if left.members == [] then None else Some(left)
      else found
    case PlayGame(session, on) =>
      if x == RoomOf(w, session) then Some(found.value.(playing := on)) else found
    case Disconnected(session) =>
      if found.Some? then Some(MarkGone(found.value, session)) else None
  }

  lemma StepFinds(w: World, e: Event, x: int)
    requires Sorted(w.dir) && Step(w, e).Done?
    ensures var t := Step(w, e).value.dir;
            Sorted(t) && w.dir.next <= t.next && Find(t, x) == Becomes(w, e, x)
  {
    hide Sorted, Replace, Settle, MarkGone, WithoutEntry, FirstOf;
    match e
    case CreateRoom => AfterCreate(w.dir, x);
    case EnterRoom(session, at) =>
      if Admits(w.dir, at) {
        AfterReplace(w.dir, AddMember(Find(w.dir, at).value, session).value, x);
      }
    case LeaveRoom(session) =>
      var r := Find(w.dir, RoomOf(w, session));
      if r.Some? {
        AfterSettle(w.dir, DropMember(r.value, session).value, x);
      }
    case PlayGame(session, on) =>
      AfterReplace(w.dir, Find(w.dir, RoomOf(w, session)).value.(playing := on), x);
    case Disconnected(session) =>
      AfterDisconnect(w, session, x);
  }

  // A start or a stop of a game sets the flag of the player's room, and changes nothing else.
  lemma PlaySetsFlag(w: World, session: int, on: bool, x: int)
    requires Sorted(w.dir) && Play(w, session, on).Done?
    ensures var t, room := Play(w, session, on).value, RoomOf(w, session);
            && t.roomOf == w.roomOf && Find(w.dir, room).Some?
            && Find(t.dir, x)
               == if x != room then Find(w.dir, x)
                  else var r := Find(w.dir, room).value; Some(RoomRec(room, r.maxCount, r.members, on))
  {
    hide Sorted, Replace;
    AfterReplace(w.dir, Find(w.dir, RoomOf(w, session)).value.(playing := on), x);
  }

  // One step keeps the order, and finds at an old index only a room that was found there.
  lemma StepKeepsSorted(w: World, e: Event, index: int)
    requires Sorted(w.dir) && Step(w, e).Done?
    ensures var t := Step(w, e).value.dir;
            && Sorted(t) && w.dir.next <= t.next
            && (index < w.dir.next && Find(w.dir, index) == None ==> Find(t, index) == None)
  {
    hide Find, Sorted;
    StepFinds(w, e, index);
  }

  // In every run the list stays strictly sorted with indices below the next one, and an
  // index that is gone is never found again.
  lemma {:induction false} IndexNeverReused(w: World, es: seq<Event>, index: int)
    requires Sorted(w.dir) && Run(w, es).Done?
    ensures var t := Run(w, es).value.dir;
            && Sorted(t) && w.dir.next <= t.next
            && (index < w.dir.next && Find(w.dir, index) == None ==> Find(t, index) == None)
    decreases |es|
  {
    if es != [] {
      StepKeepsSorted(w, es[0], index);
      IndexNeverReused(Step(w, es[0]).value, es[1..], index);
    }
  }

  // ---------------------------------------------------------------- players and rooms

  predicate Lists(d: Directory, index: int, session: int) {
    var r := Find(d, index);
    r.Some? && Playing(session) in r.value.members
  }

  // A room index that a player remembers names an existing room that lists the player, and
  // no room holds more players than it may.
  ghost predicate Consistent(w: World) {
    && Sorted(w.dir)
    && (forall k :: RoomOf(w, k) != 0 ==> Lists(w.dir, RoomOf(w, k), k))
    && (forall x :: Fits(w.dir, x))
  }

  predicate Fits(d: Directory, index: int) {
    var r := Find(d, index);
    r.Some? ==> |r.value.members| <= r.value.maxCount == ROOM_MAX_PLAYER
  }

  lemma StepKeepsConsistent(w: World, e: Event)
    requires Consistent(w) && Step(w, e).Done?
    ensures Consistent(Step(w, e).value)
  {
    var t := Step(w, e).value;
    hide Step, Fits, Lists, Find, Sorted;
    StepFinds(w, e, 0);
    forall k | RoomOf(t, k) != 0 ensures Lists(t.dir, RoomOf(t, k), k) {
      RememberedRoom(w, e, k);
    }
    forall x ensures Fits(t.dir, x) {
      StepKeepsFits(w, e, x);
    }
  }

  lemma StepKeepsFits(w: World, e: Event, x: int)
    requires Consistent(w) && Step(w, e).Done?
    ensures Fits(Step(w, e).value.dir, x)
  {
    assert Fits(w.dir, x);
    StepFinds(w, e, x);
    hide Find, Sorted, Create, Settle, Replace, FirstOf, WithoutEntry, MarkGone;
  }

  lemma RememberedRoom(w: World, e: Event, k: int)
    requires Consistent(w) && Step(w, e).Done? && RoomOf(Step(w, e).value, k) != 0
    ensures Lists(Step(w, e).value.dir, RoomOf(Step(w, e).value, k), k)
  {
    var index := RoomOf(Step(w, e).value, k);
    StepFinds(w, e, index);
    ListedAfter(w, e, index, k);
    assert RoomOf(w, k) != 0 ==> Lists(w.dir, RoomOf(w, k), k);
    hide Find, Sorted, Create, Settle, Replace, FirstOf, WithoutEntry, Becomes;
  }

  predicate Keeps(r: Option<RoomRec>, m: Member) {
    r.Some? && m in r.value.members
  }

  // A player gets on a room's list by an entry, and off it by nothing but a leave or a
  // disconnect.
  lemma ListedAfter(w: World, e: Event, x: int, k: int)
    requires Sorted(w.dir) && Step(w, e).Done?
    ensures e == EnterRoom(k, x) && Admits(w.dir, x) ==> Keeps(Becomes(w, e, x), Playing(k))
    ensures Keeps(Find(w.dir, x), Playing(k)) && e != LeaveRoom(k) && e != Disconnected(k)
            ==> Keeps(Becomes(w, e, x), Playing(k))
    ensures Keeps(Becomes(w, e, x), Playing(k)) ==>
              || (Keeps(Find(w.dir, x), Playing(k)) && e != Disconnected(k))
              || (e == EnterRoom(k, x) && Admits(w.dir, x))
  {
    FindMissing(w.dir, w.dir.next);
    hide Find, Replace, Settle, WithoutEntry, FirstOf, Create, Sorted;
    var r := Find(w.dir, x);
    if e.Disconnected? && r.Some? {
      MarkedOther(r.value, e.session, k);
    }
  }

  lemma MarkedOther(r: RoomRec, session: int, k: int)
    ensures Playing(k) in MarkGone(r, session).members <==> Playing(k) in r.members && k != session
  {
    var m := MarkGone(r, session);
    if Playing(k) in r.members {
      var i :| 0 <= i < |r.members| && r.members[i] == Playing(k);
      assert k != session ==> m.members[i] == Playing(k);
    }
  }

  // In every run, also one with disconnects, a remembered room index is never stale: a
  // leave always finds the room the player is in.
  lemma {:induction false} NeverStale(w: World, es: seq<Event>)
    requires Consistent(w) && Run(w, es).Done?
    ensures Consistent(Run(w, es).value)
    decreases |es|
  {
    hide Step, Consistent;
    if es != [] {
      StepKeepsConsistent(w, es[0]);
      NeverStale(Step(w, es[0]).value, es[1..]);
    }
  }

  lemma EveryRunConsistent(es: seq<Event>)
    requires Run(EMPTY_WORLD, es).Done?
    ensures Consistent(Run(EMPTY_WORLD, es).value)
  {
    NeverStale(EMPTY_WORLD, es);
  }

  // ---------------------------------------------------------------- disconnects

  // When a step dereferences a deleted player: an entry to a room with one entry that is
  // of one, a leave from a room that lists one first, a game in a room that lists one.
  lemma StepOutcome(w: World, session: int, index: int, on: bool)
    requires Consistent(w)
    ensures Enter(w, session, index).Failed?
            <==> Find(w.dir, index).Some? && Find(w.dir, index).value.members == [Gone]
    ensures Leave(w, session).Failed?
            <==> RoomOf(w, session) != 0 && Lists(w.dir, RoomOf(w, session), session)
                 && Find(w.dir, RoomOf(w, session)).value.members[0].Gone?
    ensures Play(w, session, on) == Failed(LogicFailed) <==> RoomOf(w, session) == 0
    ensures Play(w, session, on) == Failed(DeletedPlayer)
            <==> RoomOf(w, session) != 0 && HasGone(w.dir, RoomOf(w, session))
  {
    assert Fits(w.dir, index) && Fits(w.dir, RoomOf(w, session));
    assert RoomOf(w, session) != 0 ==> Lists(w.dir, RoomOf(w, session), session);
    NoRoomZero(w.dir);
    var found, room := Find(w.dir, index), Find(w.dir, RoomOf(w, session));
    hide Find, Replace, Settle, WithoutEntry;
    if found.Some? {
      OneGone(found.value.members);
    }
    if room.Some? {
      FirstGone(room.value.members, session);
    }
  }

  lemma NoRoomZero(d: Directory)
    requires Sorted(d)
    ensures Find(d, 0) == None
  {
    FindMissing(d, 0);
  }

  lemma OneGone(members: seq<Member>)
    requires |members| <= 2
    ensures |members| < 2 && Gone in members <==> members == [Gone]
  {
  }

  lemma FirstGone(members: seq<Member>, session: int)
    requires |members| <= 2 && Playing(session) in members
    ensures FirstOf(members, session).Failed? <==> members[0].Gone?
  {
    if members[0] != Playing(session) {
      assert members[1..][0] == Playing(session);
    }
  }

  predicate HasGone(d: Directory, index: int) {
    var r := Find(d, index);
    r.Some? && Gone in r.value.members
  }

  // The entry of a deleted player is never taken off, so its room is never removed.
  lemma {:induction false} GoneStays(w: World, es: seq<Event>, x: int)
    requires Sorted(w.dir) && HasGone(w.dir, x) && Run(w, es).Done?
    ensures Sorted(Run(w, es).value.dir) && HasGone(Run(w, es).value.dir, x)
    decreases |es|
  {
    hide Step, Becomes, Sorted;
    if es != [] {
      StepFinds(w, es[0], x);
      GoneAfter(w, es[0], x);
      GoneStays(Step(w, es[0]).value, es[1..], x);
    }
  }

  lemma GoneAfter(w: World, e: Event, x: int)
    requires Sorted(w.dir) && Step(w, e).Done?
    ensures Keeps(Find(w.dir, x), Gone) ==> Keeps(Becomes(w, e, x), Gone)
    ensures Keeps(Becomes(w, e, x), Gone) ==>
              Keeps(Find(w.dir, x), Gone) || (e.Disconnected? && Lists(w.dir, x, e.session))
    ensures e.Disconnected? && Lists(w.dir, x, e.session) ==> Keeps(Becomes(w, e, x), Gone)
  {
    FindMissing(w.dir, w.dir.next);
    hide Find, Replace, Settle, WithoutEntry, FirstOf, Create, Sorted;
    var r := Find(w.dir, x);
    if e.Disconnected? && r.Some? {
      MarkedGone(r.value, e.session);
    }
  }

  lemma MarkedGone(r: RoomRec, session: int)
    ensures Gone in MarkGone(r, session).members <==> Gone in r.members || Playing(session) in r.members
  {
    var m := MarkGone(r, session);
    forall i | 0 <= i < |r.members| && r.members[i] in {Gone, Playing(session)} ensures m.members[i] == Gone {
    }
  }

  // No room lists a deleted player.
  ghost predicate Clean(d: Directory) {
    forall x :: !HasGone(d, x)
  }

  ghost predicate Unlisted(d: Directory, session: int) {
    forall x :: !Lists(d, x, session)
  }

  // Every player of the run is off every room's list before the connection closes.
  ghost predicate LeavesFirst(w: World, es: seq<Event>)
    decreases |es|
  {
    es == [] ||
    ((es[0].Disconnected? ==> Unlisted(w.dir, es[0].session)) &&
     (Step(w, es[0]).Done? ==> LeavesFirst(Step(w, es[0]).value, es[1..])))
  }

  lemma CleanStep(w: World, e: Event)
    requires Sorted(w.dir) && Step(w, e).Done? && Clean(w.dir)
    ensures Sorted(Step(w, e).value.dir)
    ensures Clean(Step(w, e).value.dir) <==> (e.Disconnected? ==> Unlisted(w.dir, e.session))
  {
    var t := Step(w, e).value.dir;
    hide Find, Step, Becomes, Sorted;
    forall x ensures HasGone(t, x) <==> e.Disconnected? && Lists(w.dir, x, e.session) {
      assert !HasGone(w.dir, x);
      StepFinds(w, e, x);
      GoneAfter(w, e, x);
    }
    StepFinds(w, e, 0);
  }

  // A run that completes from clean rooms ends with clean rooms exactly when everyone left
  // before disconnecting.
  lemma {:induction false} CleanExactly(w: World, es: seq<Event>)
    requires Sorted(w.dir) && Clean(w.dir) && Run(w, es).Done?
    ensures Clean(Run(w, es).value.dir) <==> LeavesFirst(w, es)
    decreases |es|
  {
    hide Step, Sorted, HasGone, Lists;
    if es != [] {
      var t := Step(w, es[0]).value;
      CleanStep(w, es[0]);
      if Clean(t.dir) {
        CleanExactly(t, es[1..]);
      } else {
        var x :| HasGone(t.dir, x);
        GoneStays(t, es[1..], x);
      }
    }
  }

  // Such a run never dereferences a deleted player.
  lemma {:induction false} NeverDangles(w: World, es: seq<Event>)
    requires Sorted(w.dir) && Clean(w.dir) && LeavesFirst(w, es)
    ensures Run(w, es) != Failed(DeletedPlayer)
    decreases |es|
  {
    if es != [] {
      CleanFaults(w, es[0]);
      if Step(w, es[0]).Done? {
        CleanStep(w, es[0]);
        NeverDangles(Step(w, es[0]).value, es[1..]);
      }
    }
  }

  lemma CleanFaults(w: World, e: Event)
    requires Clean(w.dir)
    ensures Step(w, e) != Failed(DeletedPlayer)
  {
    hide Find, Replace, Settle, WithoutEntry;
    if e.EnterRoom? {
      assert !HasGone(w.dir, e.index);
    } else if e.LeaveRoom? || e.PlayGame? {
      assert !HasGone(w.dir, RoomOf(w, e.session));
    }
  }

  // ---------------------------------------------------------------- one room at a time

  predicate Distinct(members: seq<Member>) {
    forall i, j :: 0 <= i < j < |members| && members[i].Playing? ==> members[i] != members[j]
  }

  predicate ListsOnce(d: Directory, index: int) {
    var r := Find(d, index);
    r.Some? ==> Distinct(r.value.members)
  }

  // No list has a player twice, and every listed player remembers that room.
  ghost predicate Tight(w: World) {
    && (forall x :: ListsOnce(w.dir, x))
    && (forall x, k :: Lists(w.dir, x, k) ==> RoomOf(w, k) == x)
  }

  // Then the lists and the remembered rooms are the same relation.
  lemma TightMeans(w: World, x: int, k: int)
    requires Consistent(w) && Tight(w)
    ensures Lists(w.dir, x, k) <==> x == RoomOf(w, k) != 0
  {
    NoRoomZero(w.dir);
    hide Find;
    assert RoomOf(w, k) != 0 ==> Lists(w.dir, RoomOf(w, k), k);
  }

  // The player of an entry that is let in is in no room.
  predicate FromOutside(w: World, e: Event) {
    e.EnterRoom? && Admits(w.dir, e.index) ==> RoomOf(w, e.session) == 0
  }

  // A step keeps it exactly when it is not an entry by a player who is in a room.
  lemma StepKeepsTight(w: World, e: Event)
    requires Consistent(w) && Tight(w) && Step(w, e).Done?
    ensures Tight(Step(w, e).value) <==> FromOutside(w, e)
  {
    var t := Step(w, e).value;
    hide Step, Lists, ListsOnce, Consistent;
    if FromOutside(w, e) {
      forall x ensures ListsOnce(t.dir, x) {
        OnceAfter(w, e, x);
      }
      forall x, k | Lists(t.dir, x, k) ensures RoomOf(t, k) == x {
        ListedRemembered(w, e, x, k);
      }
    } else {
      EnteredTwice(w, e.session, e.index);
    }
  }

  lemma OnceAfter(w: World, e: Event, x: int)
    requires Consistent(w) && Tight(w) && Step(w, e).Done? && FromOutside(w, e)
    ensures ListsOnce(Step(w, e).value.dir, x)
  {
    StepFinds(w, e, x);
    assert ListsOnce(w.dir, x);
    hide Find, Sorted, Create, Settle, Replace, FirstOf, WithoutEntry, MarkGone, Distinct;
    var r := Find(w.dir, x);
    if e.EnterRoom? && r.Some? {
      TightMeans(w, x, e.session);
      DistinctMore(r.value.members, e.session);
    } else if e.LeaveRoom? && r.Some? && x == RoomOf(w, e.session) {
      DistinctLess(r.value, FirstOf(r.value.members, e.session).value);
    } else if e.Disconnected? && r.Some? {
      DistinctMarked(r.value, e.session);
    }
  }

  lemma DistinctMore(members: seq<Member>, session: int)
    requires Distinct(members)
    ensures Distinct(members + [Playing(session)]) <==> Playing(session) !in members
  {
    if Playing(session) in members {
      var i :| 0 <= i < |members| && members[i] == Playing(session);
      assert (members + [Playing(session)])[i] == (members + [Playing(session)])[|members|];
    }
  }

  lemma DistinctLess(r: RoomRec, i: nat)
    requires Distinct(r.members) && i <= |r.members|
    ensures Distinct(WithoutEntry(r, i).members)
    ensures i < |r.members| && r.members[i].Playing? ==> r.members[i] !in WithoutEntry(r, i).members
  {
  }

  lemma DistinctMarked(r: RoomRec, session: int)
    requires Distinct(r.members)
    ensures Distinct(MarkGone(r, session).members)
  {
  }

  lemma ListedRemembered(w: World, e: Event, x: int, k: int)
    requires Consistent(w) && Tight(w) && Step(w, e).Done? && FromOutside(w, e)
    requires Lists(Step(w, e).value.dir, x, k)
    ensures RoomOf(Step(w, e).value, k) == x
  {
    StepFinds(w, e, x);
    ListedAfter(w, e, x, k);
    TightMeans(w, x, k);
    assert ListsOnce(w.dir, x);
    hide Find, Sorted, Create, Settle, Replace, FirstOf, WithoutEntry, MarkGone, Distinct;
    var r := Find(w.dir, x);
    if e == LeaveRoom(k) && r.Some? && x == RoomOf(w, k) {
      DistinctLess(r.value, FirstOf(r.value.members, k).value);
    }
  }

  // A second entry leaves the player on the first list as well, or on the same one twice.
  lemma EnteredTwice(w: World, session: int, index: int)
    requires Consistent(w) && Tight(w) && Admits(w.dir, index) && RoomOf(w, session) != 0
    requires Enter(w, session, index).Done?
    ensures !Tight(Enter(w, session, index).value)
  {
    var e, y := EnterRoom(session, index), RoomOf(w, session);
    var t := Step(w, e).value;
    assert Lists(w.dir, y, session);
    assert ListsOnce(w.dir, index);
    StepFinds(w, e, y);
    ListedAfter(w, e, y, session);
    hide Find, Sorted, Replace, Distinct;
    if y == index {
      DistinctMore(Find(w.dir, y).value.members, session);
      assert !ListsOnce(t.dir, y);
    } else {
      assert Lists(t.dir, y, session) && RoomOf(t, session) == index;
    }
  }

  ghost predicate TightThroughout(w: World, es: seq<Event>)
    decreases |es|
  {
    Tight(w) && (es != [] && Step(w, es[0]).Done? ==> TightThroughout(Step(w, es[0]).value, es[1..]))
  }

  predicate AllFromOutside(w: World, es: seq<Event>)
    decreases |es|
  {
    es != [] ==>
      FromOutside(w, es[0]) && (Step(w, es[0]).Done? ==> AllFromOutside(Step(w, es[0]).value, es[1..]))
  }

  // In a run from the empty directory the lists and the remembered rooms stay in bijection
  // exactly when no player enters a room from another one.
  lemma {:induction false} TightExactly(w: World, es: seq<Event>)
    requires Consistent(w) && Tight(w) && Run(w, es).Done?
    ensures TightThroughout(w, es) <==> AllFromOutside(w, es)
    decreases |es|
  {
    hide Step, Consistent, Tight, FromOutside;
    if es != [] {
      var t := Step(w, es[0]).value;
      StepKeepsConsistent(w, es[0]);
      StepKeepsTight(w, es[0]);
      if Tight(t) {
        TightExactly(t, es[1..]);
      }
    }
  }

  lemma EveryRunTight(es: seq<Event>)
    requires Run(EMPTY_WORLD, es).Done?
    ensures TightThroughout(EMPTY_WORLD, es) <==> AllFromOutside(EMPTY_WORLD, es)
  {
    TightExactly(EMPTY_WORLD, es);
  }

  lemma RunTwo(w: World, e: Event, f: Event, es: seq<Event>)
    requires Step(w, e).Done? && Step(Step(w, e).value, f).Done?
    ensures Run(w, [e, f] + es) == Run(Step(Step(w, e).value, f).value, es)
  {
    assert ([e, f] + es)[1..] == [f] + es;
    assert ([f] + es)[1..] == es;
  }

  // Nothing stops a player from entering a second room.  Leaving takes the player off that
  // one only, and the first keeps an entry that no leave will ever find.
  lemma SecondEntry(w: World, session: int, index: int)
    requires Consistent(w) && RoomOf(w, session) !in {0, index} && Admits(w.dir, index)
    requires Enter(w, session, index).Done?
    ensures var t := Enter(w, session, index).value;
            && RoomOf(t, session) == index && Lists(t.dir, index, session) && Lists(t.dir, RoomOf(w, session), session)
            && (Leave(t, session).Done? ==>
                  && RoomOf(Leave(t, session).value, session) == 0
                  && Lists(Leave(t, session).value.dir, RoomOf(w, session), session))
  {
    var y, t := RoomOf(w, session), Enter(w, session, index).value;
    assert Lists(w.dir, y, session);
    StepKeepsConsistent(w, EnterRoom(session, index));
    StepFinds(w, EnterRoom(session, index), y);
    StepFinds(w, EnterRoom(session, index), index);
    hide Sorted, Find, Settle, FirstOf, WithoutEntry;
    if Leave(t, session).Done? {
      StepFinds(t, LeaveRoom(session), y);
    }
  }

  // Such a run: two rooms, both entered.
  lemma DoubleEntry()
    ensures var entered := Run(EMPTY_WORLD, [CreateRoom, CreateRoom, EnterRoom(7, 1), EnterRoom(7, 2)]);
            entered.Done? && Lists(entered.value.dir, 1, 7) && Lists(entered.value.dir, 2, 7)
  {
    var w := World(Create(Create(EMPTY_DIRECTORY)), map[]);
    BothEntered(w, 7);
    RunTwo(EMPTY_WORLD, CreateRoom, CreateRoom, [EnterRoom(7, 1), EnterRoom(7, 2)]);
    hide Enter, Lists;
    RunTwo(w, EnterRoom(7, 1), EnterRoom(7, 2), []);
  }

  lemma BothEntered(w: World, session: int)
    requires w.dir == Create(Create(EMPTY_DIRECTORY))
    ensures Enter(w, session, 1).Done? && Enter(Enter(w, session, 1).value, session, 2).Done?
    ensures var t := Enter(Enter(w, session, 1).value, session, 2).value;
            Lists(t.dir, 1, session) && Lists(t.dir, 2, session)
  {
    EnterAt(w, session, 0);
    var w1 := Enter(w, session, 1).value;
    EnterAt(w1, session, 1);
    hide Enter;
    FindAt(Enter(w1, session, 2).value.dir, 0);
    FindAt(Enter(w1, session, 2).value.dir, 1);
  }

  lemma EnterAt(w: World, session: int, i: nat)
    requires Sorted(w.dir) && i < |w.dir.rooms| && w.dir.rooms[i].members == []
    requires w.dir.rooms[i].maxCount == ROOM_MAX_PLAYER
    ensures var r := w.dir.rooms[i];
            Enter(w, session, r.index)
            == Done(World(w.dir.(rooms := w.dir.rooms[i := r.(members := [Playing(session)])]),
                          w.roomOf[session := r.index]))
  {
    FindAt(w.dir, i);
    var r := w.dir.rooms[i];
    assert AddMember(r, session).value.members == [Playing(session)];
  }

  // A player who disconnects in a room leaves it shut: the next entry ends the process.
  lemma Abandoned()
    ensures Run(EMPTY_WORLD, [CreateRoom, EnterRoom(1, 1), Disconnected(1), EnterRoom(2, 1)]) == Failed(DeletedPlayer)
  {
    var room := RoomRec(1, ROOM_MAX_PLAYER, [], false);
    var w1 := World(Create(EMPTY_DIRECTORY), map[]);
    assert w1.dir.rooms == [room];
    EnterAt(w1, 1, 0);
    var w2 := Enter(w1, 1, 1).value;
    var w3 := Disconnect(w2, 1);
    FindAt(w2.dir, 0);
    AfterDisconnect(w2, 1, 1);
    assert MarkGone(w2.dir.rooms[0], 1).members == [Gone];
    RunTwo(EMPTY_WORLD, CreateRoom, EnterRoom(1, 1), [Disconnected(1), EnterRoom(2, 1)]);
    assert [Disconnected(1), EnterRoom(2, 1)][1..] == [EnterRoom(2, 1)];
    assert [CreateRoom, EnterRoom(1, 1)] + [Disconnected(1), EnterRoom(2, 1)]
           == [CreateRoom, EnterRoom(1, 1), Disconnected(1), EnterRoom(2, 1)];
  }

  // Entering a room and leaving it again undoes the entry, except that a room that was
  // empty before goes.
  lemma EnterThenLeave(w: World, session: int, index: int)
    requires Sorted(w.dir) && Admits(w.dir, index) && !Lists(w.dir, index, session)
    requires Enter(w, session, index).Done?
    ensures var r, o := Find(w.dir, index).value, Leave(Enter(w, session, index).value, session);
            && o.Done? && RoomOf(o.value, session) == 0
            && o.value.dir == if r.members == [] then Remove(w.dir, index) else w.dir
  {
    var r, p := Find(w.dir, index).value, Position(w.dir.rooms, index);
    var entered := Enter(w, session, index).value;
    var r1 := AddMember(r, session).value;
    AfterReplace(w.dir, r1, index);
    FindAt(entered.dir, p);
    LastEntry(r, session);
    assert Replace(entered.dir, r) == w.dir;
  }

  lemma LastEntry(r: RoomRec, session: int)
    requires Gone !in r.members && Playing(session) !in r.members
    ensures DropMember(r.(members := r.members + [Playing(session)]), session) == Done(r)
  {
    var r1 := r.(members := r.members + [Playing(session)]);
    assert forall j :: 0 <= j < |r.members| ==> r1.members[j] == r.members[j] && r.members[j] in r.members;
    assert r1.members[|r.members|] == Playing(session);
    assert r1.members[..|r.members|] + r1.members[|r.members| + 1..] == r.members;
    assert Gone !in r1.members;
  }
}
