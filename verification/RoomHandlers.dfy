/**
 The room request handlers.  One handler object serves all requests of its kind and keeps
 its reply from one request to the next; a field that the logic does not assign is sent
 again as it was.
 */
module RoomHandlers {
  import opened Wrappers
  import opened Integers
  import opened Registry
  import opened Rooms
  import opened RoomPages
  import opened RegistryObjects
  import opened RoomObjects

  // The persistent replies of the five handlers.
  datatype Replies = Replies(
    createResult: ResultID, newRoomIndex: int,
    enterResult: ResultID, enterSessionIndex: int,
    canEnterResult: ResultID,
    leaveResult: ResultID,
    listResult: ResultID, page: seq<RoomInfo>)

  const FIRST_REPLIES := Replies(FAILED, 0, FAILED, 0, FAILED, FAILED, FAILED, Padding(ROOMS_PER_PAGE))

  datatype Request =
    | CreateReq
    | EnterReq(session: int, index: int)
    | CanEnterReq(index: int)
    | LeaveReq(session: int)
    | ListReq(page: int)

  datatype Reply =
    | CreateRes(result: ResultID, newRoomIndex: int)
    | EnterRes(result: ResultID, enterSessionIndex: int)
    | CanEnterRes(result: ResultID)
    | LeaveRes(result: ResultID)
    | ListRes(result: ResultID, rooms: seq<RoomInfo>)

  // Besides the room requests, games start and stop and connections close.
  datatype Event =
    | Handle(request: Request)
    | Game(session: int, on: bool)
    | Closed(session: int)

  datatype Service = Service(world: World, replies: Replies)

  const START := Service(EMPTY_WORLD, FIRST_REPLIES)

  function CanEnter(d: Directory, index: int): ResultID {
    match Find(d, index)
    case None => ROOM_NOT_FOUND
    case Some(r) =>
      if |r.members| >= r.maxCount then ROOM_MAX_PLAYER
      else if r.playing then ROOM_IS_PLAYING
      else SUCCESS
  }

  // The four answers, in terms of the list of rooms.
  lemma CanEnterExactly(d: Directory, index: int)
    requires Sorted(d)
    ensures CanEnter(d, index) == ROOM_NOT_FOUND <==> forall r <- d.rooms :: r.index != index
    ensures forall i :: 0 <= i < |d.rooms| && d.rooms[i].index == index ==>
              var r := d.rooms[i];
              && (CanEnter(d, index) == ROOM_MAX_PLAYER <==> |r.members| >= r.maxCount)
              && (CanEnter(d, index) == ROOM_IS_PLAYING <==> |r.members| < r.maxCount && r.playing)
              && (CanEnter(d, index) == SUCCESS <==> |r.members| < r.maxCount && !r.playing)
  {
    forall i | 0 <= i < |d.rooms| && d.rooms[i].index == index ensures Find(d, index) == Some(d.rooms[i]) {
      FindAt(d, i);
    }
  }

  // From the start of a game to its stop nobody may enter its room.
  lemma GameClosesRoom(w: World, session: int)
    requires Sorted(w.dir) && RoomOf(w, session) != 0
    ensures Play(w, session, true).Done? ==>
              CanEnter(Play(w, session, true).value.dir, RoomOf(w, session)) in {ROOM_MAX_PLAYER, ROOM_IS_PLAYING}
    ensures Play(w, session, false).Done? ==>
              CanEnter(Play(w, session, false).value.dir, RoomOf(w, session)) in {ROOM_MAX_PLAYER, SUCCESS}
  {
    if Play(w, session, true).Done? {
      PlaySetsFlag(w, session, true, RoomOf(w, session));
    }
    if Play(w, session, false).Done? {
      PlaySetsFlag(w, session, false, RoomOf(w, session));
    }
  }

  // The loop that copies a page entry by entry over the previous one.
  function Overwrite(before: seq<RoomInfo>, infos: seq<RoomInfo>): seq<RoomInfo>
    requires |infos| <= |before|
  {
    infos + before[|infos|..]
  }

  predicate Ready(s: Service) {
    |s.world.dir.rooms| < TWO_31 && |s.replies.page| == ROOMS_PER_PAGE
  }

  // A changed world beside the replies, or the end of the process.
  function In(o: Outcome<World>, replies: Replies): Outcome<Service> {
    match o
    case Failed(f) => Failed(f)
    case Done(w) => Done(Service(w, replies))
  }

  function Serve(s: Service, r: Request): Outcome<Service>
    requires Ready(s)
  {
    match r
    case CreateReq =>
      Done(Service(s.world.(dir := Create(s.world.dir)), s.replies.(newRoomIndex := s.world.dir.next)))
    case EnterReq(session, index) =>
      if Find(s.world.dir, index) == None
      then Done(s.(replies := s.replies.(enterResult := ROOM_NOT_FOUND)))
      else In(Enter(s.world, session, index), s.replies.(enterSessionIndex := session))
    case CanEnterReq(index) =>
      Done(s.(replies := s.replies.(canEnterResult := CanEnter(s.world.dir, index))))
    case LeaveReq(session) =>
      In(Leave(s.world, session), s.replies)
    case ListReq(page) =>
      Done(s.(replies := s.replies.(listResult := SUCCESS,
                                    page := Overwrite(s.replies.page, Page(s.world.dir.rooms, page)))))
  }

  // What the client is sent.
  function ReplyTo(s: Service, r: Request): Reply
    requires Ready(s) && Serve(s, r).Done?
  {
    var h := Serve(s, r).value.replies;
    match r
    case CreateReq => CreateRes(h.createResult, h.newRoomIndex)
    case EnterReq(_, _) => EnterRes(h.enterResult, h.enterSessionIndex)
    case CanEnterReq(_) => CanEnterRes(h.canEnterResult)
    case LeaveReq(_) => LeaveRes(h.leaveResult)
    case ListReq(_) => ListRes(h.listResult, h.page)
  }

  // ---------------------------------------------------------------- fresh replies

  // A page list, a may-enter answer and a new room index depend on the request and the
  // directory only, never on what the shared handler sent before.
  lemma FreshReplies(s: Service, t: Service, r: Request)
    requires Ready(s) && Ready(t) && s.world.dir == t.world.dir
    ensures r.ListReq? ==> ReplyTo(s, r) == ReplyTo(t, r) == ListRes(SUCCESS, Page(s.world.dir.rooms, r.page))
    ensures r.CanEnterReq? ==> ReplyTo(s, r) == ReplyTo(t, r)
    ensures r.CreateReq? ==> ReplyTo(s, r).newRoomIndex == ReplyTo(t, r).newRoomIndex
    ensures r.EnterReq? && Find(s.world.dir, r.index).Some? && Serve(s, r).Done? ==>
              ReplyTo(s, r).enterSessionIndex == r.session
  {
    if r.ListReq? {
      var infos := Page(s.world.dir.rooms, r.page);
      assert Overwrite(s.replies.page, infos) == infos == Overwrite(t.replies.page, infos);
    }
  }

  // The reply to a creation names a room that was not there before and is empty now.
  lemma CreatedRoom(s: Service)
    requires Ready(s) && Sorted(s.world.dir)
    ensures var index := ReplyTo(s, CreateReq).newRoomIndex;
            && Find(s.world.dir, index) == None
            && Find(Serve(s, CreateReq).value.world.dir, index)
               == Some(RoomRec(index, Rooms.ROOM_MAX_PLAYER, [], false))
  {
    FindMissing(s.world.dir, s.world.dir.next);
    AfterCreate(s.world.dir, s.world.dir.next);
  }

  // An entry right after a positive may-enter answer puts the player on the list, unless
  // the room lists a deleted player, which the answer does not tell: then the entry ends
  // the process.
  lemma CanEnterThenEnter(s: Service, session: int, index: int)
    requires Ready(s) && Sorted(s.world.dir)
    requires ReplyTo(s, CanEnterReq(index)).result == SUCCESS
    ensures var t := Serve(s, CanEnterReq(index)).value;
            var o := Serve(t, EnterReq(session, index));
            && (o.Failed? <==> HasGone(s.world.dir, index))
            && (o.Done? ==>
                  && Lists(o.value.world.dir, index, session) && RoomOf(o.value.world, session) == index
                  && ReplyTo(t, EnterReq(session, index)).enterSessionIndex == session)
  {
    var r := Find(s.world.dir, index).value;
    if !HasGone(s.world.dir, index) {
      AfterReplace(s.world.dir, AddMember(r, session).value, index);
      assert AddMember(r, session).value.members[|r.members|] == Playing(session);
    }
  }

  // ---------------------------------------------------------------- runs

  function StepOf(s: Service, e: Event): Outcome<Service>
    requires Ready(s)
  {
    match e
    case Handle(r) => Serve(s, r)
    case Game(session, on) => In(Play(s.world, session, on), s.replies)
    case Closed(session) => Done(s.(world := Disconnect(s.world, session)))
  }

  function Run(s: Service, es: seq<Event>): Outcome<Service>
    requires Ready(s) && |s.world.dir.rooms| + |es| < TWO_31
    decreases |es|
  {
    if es == [] then Done(s) else
      match StepOf(s, es[0])
      case Failed(f) => Failed(f)
      case Done(t) =>
        StepKeepsReady(s, es[0]);
        Run(t, es[1..])
  }

  lemma StepKeepsReady(s: Service, e: Event)
    requires Ready(s) && |s.world.dir.rooms| + 1 < TWO_31 && StepOf(s, e).Done?
    ensures var t := StepOf(s, e).value;
            Ready(t) && |t.world.dir.rooms| <= |s.world.dir.rooms| + 1
  {
    hide Find, WithoutEntry, MarkGone, FirstOf;
  }

  // What an event does to the rooms, if anything.
  function RoomEvent(e: Event): Option<Rooms.Event> {
    match e
    case Handle(CreateReq) => Some(CreateRoom)
    case Handle(EnterReq(session, index)) => Some(EnterRoom(session, index))
    case Handle(LeaveReq(session)) => Some(LeaveRoom(session))
    case Handle(_) => None
    case Game(session, on) => Some(PlayGame(session, on))
    case Closed(session) => Some(Disconnected(session))
  }

  function RoomEvents(es: seq<Event>): seq<Rooms.Event> {
    if es == [] then []
    else (match RoomEvent(es[0]) case None => [] case Some(e) => [e]) + RoomEvents(es[1..])
  }

  // The handlers take the rooms through the run of the room events, so everything that is
  // true of every such run is true of the rooms that the handlers leave.
  lemma {:induction false} HandlersRunRooms(s: Service, es: seq<Event>)
    requires Ready(s) && |s.world.dir.rooms| + |es| < TWO_31
    ensures Rooms.Run(s.world, RoomEvents(es))
            == match Run(s, es) case Failed(f) => Failed(f) case Done(t) => Done(t.world)
    decreases |es|
  {
    hide Enter, Leave, Play, Disconnect, Create;
    if es != [] {
      RoomStep(s, es[0]);
      var o := StepOf(s, es[0]);
      assert RoomEvents(es) == if RoomEvent(es[0]).Some? then [RoomEvent(es[0]).value] + RoomEvents(es[1..])
                               else RoomEvents(es[1..]);
      if o.Done? {
        StepKeepsReady(s, es[0]);
        HandlersRunRooms(o.value, es[1..]);
      }
    }
  }

  lemma RoomStep(s: Service, e: Event)
    requires Ready(s)
    ensures match RoomEvent(e)
            case None => StepOf(s, e).Done? && StepOf(s, e).value.world == s.world
            case Some(re) => Step(s.world, re)
                             == match StepOf(s, e) case Failed(f) => Failed(f) case Done(t) => Done(t.world)
  {
  }

  // ---------------------------------------------------------------- stale replies

  // Some request to enter in the run named a room that was not there.
  predicate AnyMissed(s: Service, es: seq<Event>)
    requires Ready(s) && |s.world.dir.rooms| + |es| < TWO_31
    decreases |es|
  {
    if es == [] then false else
      || (es[0].Handle? && es[0].request.EnterReq? && Find(s.world.dir, es[0].request.index) == None)
      || match StepOf(s, es[0])
         case Failed(_) => false
         case Done(t) =>
           StepKeepsReady(s, es[0]);
           AnyMissed(t, es[1..])
  }

  // In a run of requests from the start, every reply to a creation or a leave says failed;
  // a reply to an entry says "not found" once any entry by anyone has missed, and failed
  // before that.  None of the three ever says success.
  lemma {:induction false} StaleResults(s: Service, es: seq<Event>)
    requires Ready(s) && |s.world.dir.rooms| + |es| < TWO_31 && Run(s, es).Done?
    ensures Ready(Run(s, es).value)
    ensures var t := Run(s, es).value.replies;
            && t.createResult == s.replies.createResult
            && t.leaveResult == s.replies.leaveResult
            && t.enterResult == if AnyMissed(s, es) then ROOM_NOT_FOUND else s.replies.enterResult
    decreases |es|
  {
    hide Enter, Leave, Play, Disconnect, Create;
    if es != [] {
      StepKeepsReady(s, es[0]);
      StaleResults(StepOf(s, es[0]).value, es[1..]);
    }
  }

  lemma NeverSuccess(es: seq<Event>, r: Request)
    requires |es| + 1 < TWO_31 && (r.CreateReq? || r.EnterReq? || r.LeaveReq?)
    requires Ready(START) && Run(START, es).Done?
    ensures Ready(Run(START, es).value)
    ensures Serve(Run(START, es).value, r).Done? ==> ReplyTo(Run(START, es).value, r).result != SUCCESS
    ensures r.EnterReq? && Serve(Run(START, es).value, r).Done? ==>
              (ReplyTo(Run(START, es).value, r).result == ROOM_NOT_FOUND
               <==> AnyMissed(START, es) || Find(Run(START, es).value.world.dir, r.index) == None)
  {
    StaleResults(START, es);
  }

  // ---------------------------------------------------------------- the handler objects

  class ReqRoomList {
    var result: ResultID
    const roomInfo: array<RoomInfo>

    constructor ()
      ensures result == FAILED && roomInfo[..] == Padding(ROOMS_PER_PAGE)
    {
      result := FAILED;
      roomInfo := new RoomInfo[ROOMS_PER_PAGE](_ => NO_ROOM);
      new;
      assert roomInfo[..] == Padding(ROOMS_PER_PAGE);
    }

    // The array has eight entries and the list never has more.
    method Logic(roomManager: RoomManager, roomPage: int)
      requires roomManager.Valid() && |roomManager.rooms| < TWO_31
      requires roomInfo.Length == ROOMS_PER_PAGE
      modifies this`result, roomInfo
      ensures result == SUCCESS && roomInfo[..] == Page(roomManager.world.dir.rooms, roomPage)
    {
      var roomInfos := roomManager.GetRoomList(roomPage);
      for i := 0 to |roomInfos|
        invariant roomInfo[..i] == roomInfos[..i]
      {
        roomInfo[i] := roomInfos[i];
      }
      assert roomInfo[..] == roomInfos;
      result := SUCCESS;
    }
  }

  class ReqRoomCanEnter {
    var result: ResultID

    constructor ()
      ensures result == FAILED
    {
      result := FAILED;
    }

    method Logic(roomManager: RoomManager, roomIndex: int)
      requires roomManager.Valid()
      modifies this
      ensures result == CanEnter(roomManager.world.dir, roomIndex)
      ensures result == ROOM_NOT_FOUND <==> forall r <- roomManager.rooms :: r.roomIndex != roomIndex
    {
      var roomInfo, at := roomManager.FindRoom(roomIndex);
      forall i | 0 <= i < |roomManager.rooms|
        ensures roomManager.rooms[i].Is(roomManager.world.dir.rooms[i])
      {
        assert roomManager.RoomAt(roomManager.world.dir, i);
      }
      CanEnterExactly(roomManager.world.dir, roomIndex);
      if roomInfo == null {
        result := ROOM_NOT_FOUND;
      } else {
        result := roomInfo.CanEnterPlayer();
      }
    }
  }

  class ReqRoomCreate {
    var newRoomIndex: int

    constructor ()
      ensures newRoomIndex == 0
    {
      newRoomIndex := 0;
    }

    method Logic(roomManager: RoomManager)
      requires roomManager.Valid()
      modifies this, roomManager
      ensures roomManager.Valid() && newRoomIndex == old(roomManager.world).dir.next
      ensures Step(old(roomManager.world), CreateRoom) == Done(roomManager.world)
    {
      newRoomIndex := roomManager.CreateRoom();
    }
  }

  lemma OtherRoom(roomManager: RoomManager, d: Directory, i: nat, at: nat)
    requires |roomManager.rooms| == |d.rooms| && i < |d.rooms| && at < |d.rooms| && i != at
    requires roomManager.rooms[i].roomIndex == d.rooms[i].index != d.rooms[at].index
    requires roomManager.rooms[at].roomIndex == d.rooms[at].index
    ensures roomManager.rooms[i] != roomManager.rooms[at]
  {
  }

  // The requests to start and to stop a game in the player's room.
  class ReqGame {
    const on: bool

    constructor (on: bool)
      ensures this.on == on
    {
      this.on := on;
    }

    method PlayIn(roomManager: RoomManager, room: Room, player: Player, ghost at: nat)
      returns (told: seq<int>, fault: Option<Fault>)
      requires roomManager.Valid() && at < |roomManager.rooms| && room == roomManager.rooms[at]
      modifies roomManager`world, room`isPlaying
      ensures at < |old(roomManager.world).dir.rooms|
      ensures var w, r := old(roomManager.world), old(roomManager.world).dir.rooms[at];
              && (Gone in r.members ==> fault == Some(DeletedPlayer))
              && (Gone !in r.members ==>
                    && fault.None? && roomManager.Valid() && told == Others(r.members, player.sessionIndex)
                    && roomManager.world == w.(dir := Replace(w.dir, r.(playing := on))))
    {
      hide Sorted, Replace, Others;
      ghost var w := roomManager.world;
      ghost var d, r := w.dir, w.dir.rooms[at];
      ghost var played := r.(playing := on);
      assert roomManager.RoomAt(d, at);
      if on {
        told, fault := room.GameStart(player.sessionIndex, r);
      } else {
        told, fault := room.GameStop(player.sessionIndex, r);
      }
      if fault.Some? {
        return;
      }
      ReplaceAt(d, at, played);
      roomManager.world := w.(dir := Replace(d, played));
      assert room.Is(played);
      hide Room.Is;
      ghost var t := roomManager.world.dir;
      forall i | 0 <= i < |d.rooms| ensures roomManager.RoomAt(t, i) {
        assert old(roomManager.RoomAt(d, i) && roomManager.RoomAt(d, at));
        if i != at {
          OtherRoom(roomManager, d, i, at);
          roomManager.rooms[i].IsKept(d.rooms[i]);
        }
      }
    }

    method Logic(roomManager: RoomManager, player: Player) returns (told: seq<int>, fault: Option<Fault>)
      requires roomManager.Valid() && player in roomManager.known && !player.deleted
      modifies roomManager`world, roomManager.rooms`isPlaying
      ensures var o := Play(old(roomManager.world), player.sessionIndex, on);
              && (o.Failed? ==> fault == Some(o.fault))
              && (o.Done? ==> fault.None? && roomManager.Valid() && roomManager.world == o.value)
    {
      var room, at := roomManager.FindRoom(player.roomIndex);
      if room == null {
        return [], Some(LogicFailed);
      }
      ghost var w := roomManager.world;
      assert Find(w.dir, RoomOf(w, player.sessionIndex)) == Some(w.dir.rooms[at]);
      hide RoomManager.Valid, Replace, Find;
      told, fault := PlayIn(roomManager, room, player, at);
    }
  }

  class ReqRoomEnter {
    var result: ResultID
    var enterSessionIndex: int

    constructor ()
      ensures result == FAILED && enterSessionIndex == 0
    {
      result, enterSessionIndex := FAILED, 0;
    }

    // The player is let into the room at a position, if it has space.
    method PutIn(roomManager: RoomManager, room: Room, player: Player, ghost at: nat)
      returns (notices: seq<Notice>, fault: Option<Fault>)
      requires roomManager.Valid() && at < |roomManager.rooms| && room == roomManager.rooms[at]
      requires player in roomManager.known && !player.deleted
      modifies roomManager`world, room`players, player`roomIndex
      ensures at < |old(roomManager.world).dir.rooms|
      ensures var r := old(roomManager.world).dir.rooms[at];
              var o := Enter(old(roomManager.world), player.sessionIndex, r.index);
              && (o.Failed? ==> fault == Some(o.fault))
              && (o.Done? ==> fault.None? && roomManager.Valid() && roomManager.world == o.value)
              && (fault.None? ==>
                    notices == if |r.members| < r.maxCount then Notices(r.members, player.sessionIndex) else [])
    {
      hide Sorted, Notices;
      ghost var w := roomManager.world;
      ghost var d, r := w.dir, w.dir.rooms[at];
      ghost var o := Enter(w, player.sessionIndex, r.index);
      assert roomManager.RoomAt(d, at);
      FindAt(d, at);
      notices, fault := room.AddPlayer(player, r);
      if fault.Some? {
        return;
      }
      ghost var entered := AddMember(r, player.sessionIndex).value;
      ReplaceAt(d, at, entered);
      roomManager.world := o.value;
      assert roomManager.world.dir.rooms == d.rooms[at := entered];
      hide Room.Is, AddMember;
      forall i | 0 <= i < |d.rooms| ensures roomManager.RoomAt(roomManager.world.dir, i) {
        assert old(roomManager.RoomAt(d, i));
        if i != at {
          assert roomManager.rooms[i] != room;
          roomManager.rooms[i].IsKept(d.rooms[i]);
        }
      }
    }

    method Logic(roomManager: RoomManager, player: Player, roomIndex: int)
      returns (notices: seq<Notice>, fault: Option<Fault>)
      requires roomManager.Valid() && player in roomManager.known && !player.deleted
      modifies this, roomManager`world, roomManager.rooms`players, player`roomIndex
      ensures var o := Enter(old(roomManager.world), player.sessionIndex, roomIndex);
              && (o.Failed? ==> fault == Some(o.fault))
              && (o.Done? ==> fault.None? && roomManager.Valid() && roomManager.world == o.value)
      ensures fault.None? ==>
                match Find(old(roomManager.world).dir, roomIndex)
                case None => result == ROOM_NOT_FOUND && enterSessionIndex == old(enterSessionIndex) && notices == []
                case Some(r) =>
                  && result == old(result) && enterSessionIndex == player.sessionIndex
                  && notices == if |r.members| < r.maxCount then Notices(r.members, player.sessionIndex) else []
    {
      notices, fault := [], None;
      var roomInfo, at := roomManager.FindRoom(roomIndex);
      if roomInfo == null {
        result := ROOM_NOT_FOUND;
        return;
      }
      notices, fault := PutIn(roomManager, roomInfo, player, at);
      if fault.None? {
        enterSessionIndex := player.sessionIndex;
      }
    }
  }

  // The world after a player is off the list of the room, which is still there.
  function TakenOff(w: World, r: RoomRec, left: RoomRec, session: int): World {
    World(Replace(w.dir, left), if Playing(session) in r.members then w.roomOf[session := 0] else w.roomOf)
  }

  lemma LeaveInSteps(w: World, session: int, r: RoomRec)
    requires Find(w.dir, RoomOf(w, session)) == Some(r)
    ensures match DropMember(r, session)
            case Failed(f) => Leave(w, session) == Failed(f)
            case Done(left) =>
              var t := TakenOff(w, r, left, session);
              Leave(w, session) == Done(t.(dir := if |left.members| == 0 then Remove(t.dir, r.index) else t.dir))
  {
  }

  class ReqRoomLeave {
    constructor () {}

    // The player is taken off the list of the room at a position.
    method TakeOff(roomManager: RoomManager, room: Room, player: Player, ghost at: nat)
      returns (fault: Option<Fault>)
      requires roomManager.Valid() && at < |roomManager.rooms| && room == roomManager.rooms[at]
      requires player in roomManager.known && !player.deleted
      modifies roomManager`world, room`players, roomManager.known`roomIndex
      ensures at < |old(roomManager.world).dir.rooms|
      ensures var w, r := old(roomManager.world), old(roomManager.world).dir.rooms[at];
              var o := DropMember(r, player.sessionIndex);
              && (o.Failed? ==> fault == Some(o.fault))
              && (o.Done? ==>
                    && fault.None? && roomManager.Valid() && |room.players| == |o.value.members|
                    && roomManager.world == TakenOff(w, r, o.value, player.sessionIndex))
    {
      hide Sorted, FirstOf, WithoutEntry, Replace;
      ghost var w, session := roomManager.world, player.sessionIndex;
      ghost var d, r := w.dir, w.dir.rooms[at];
      assert roomManager.RoomAt(d, at);
      if FirstOf(r.members, session).Done? {
        ListedFirst(r.members, session);
      }
      fault := room.RemovePlayer(player.sessionIndex, r);
      if fault.Some? {
        return;
      }
      ghost var left := DropMember(r, session).value;
      ReplaceAt(d, at, left);
      roomManager.world := TakenOff(w, r, left, session);
      assert room.Is(left);
      hide Room.Is;
      ghost var t := roomManager.world.dir;
      forall i | 0 <= i < |d.rooms| ensures roomManager.RoomAt(t, i) {
        assert old(roomManager.RoomAt(d, i) && roomManager.RoomAt(d, at));
        if i != at {
          OtherRoom(roomManager, d, i, at);
          roomManager.rooms[i].IsKept(d.rooms[i]);
        }
      }
      ghost var entry := FirstOf(r.members, session).value;
      if entry < |r.members| {
        assert old(MemberOf(room.players[entry])) == Playing(session);
        assert old(room.players)[entry] == player;
      }
      assert roomManager.PlayersAre(roomManager.world);
    }

    // A room without players goes.
    method RemoveEmptied(roomManager: RoomManager, room: Room)
      requires roomManager.Valid()
      modifies roomManager`rooms, roomManager`world
      ensures roomManager.Valid()
      ensures var w := old(roomManager.world);
              roomManager.world == w.(dir := if |room.players| == 0 then Remove(w.dir, room.roomIndex) else w.dir)
    {
      hide RoomManager.RoomsAre, Remove;
      if |room.players| == 0 {
        var targetRoomIndex := room.roomIndex;
        ghost var w := roomManager.world;
        roomManager.RemoveRoom(targetRoomIndex, w.dir);
        roomManager.world := w.(dir := Remove(w.dir, targetRoomIndex));
      }
    }

    method Logic(roomManager: RoomManager, player: Player) returns (fault: Option<Fault>)
      requires roomManager.Valid() && player in roomManager.known && !player.deleted
      modifies roomManager`rooms, roomManager`world, roomManager.rooms`players, roomManager.known`roomIndex
      ensures var o := Leave(old(roomManager.world), old(player.sessionIndex));
              && (o.Failed? ==> fault == Some(o.fault))
              && (o.Done? ==> fault.None? && roomManager.Valid() && roomManager.world == o.value)
    {
      var roomInfo, at := roomManager.FindRoom(player.roomIndex);
      if roomInfo == null {
        return None;
      }
      ghost var w := roomManager.world;
      assert roomManager.RoomAt(w.dir, at);
      LeaveInSteps(w, player.sessionIndex, w.dir.rooms[at]);
      hide RoomManager.Valid, DropMember, TakenOff, Remove, Leave;
      fault := TakeOff(roomManager, roomInfo, player, at);
      if fault.None? {
        RemoveEmptied(roomManager, roomInfo);
      }
    }
  }
}
