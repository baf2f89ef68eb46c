/**
 The room objects and their manager.  A room points to its players; the players are tied to
 the value of the room directory by their own room index.
 */
module RoomObjects {
  import opened Wrappers
  import opened Integers
  import opened Registry
  import opened Rooms
  import opened RoomPages
  import opened RegistryObjects

  datatype ResultID = SUCCESS | FAILED | ROOM_MAX_PLAYER | ROOM_NOT_FOUND | ROOM_IS_PLAYING

  function MemberOf(p: Player): Member
    reads p
  {
    if p.deleted then Gone else Playing(p.sessionIndex)
  }

  class Room {
    const roomIndex: int
    const maxPlayerCnt: nat
    var isPlaying: bool
    var players: seq<Player>

    constructor (index: int, max: nat)
      ensures roomIndex == index && maxPlayerCnt == max && players == [] && !isPlaying
    {
      roomIndex, maxPlayerCnt := index, max;
      isPlaying, players := false, [];
    }

    // The room has the value r.
    ghost predicate Is(r: RoomRec)
      reads this, players
    {
      && r.index == roomIndex && r.maxCount == maxPlayerCnt && r.playing == isPlaying
      && |r.members| == |players|
      && forall i :: 0 <= i < |players| ==> MemberOf(players[i]) == r.members[i]
    }

    // Only the list itself and what its entries stand for matter for the value.
    twostate lemma IsKept(r: RoomRec)
      requires old(Is(r)) && unchanged(this)
      requires forall p <- players :: MemberOf(p) == old(MemberOf(p))
      ensures Is(r)
    {
    }

    // A full room refuses, playing or not; then a playing one does.
    method CanEnterPlayer() returns (result: ResultID)
      ensures result == ROOM_MAX_PLAYER <==> |players| >= maxPlayerCnt
      ensures result == ROOM_IS_PLAYING <==> |players| < maxPlayerCnt && isPlaying
      ensures result == SUCCESS <==> |players| < maxPlayerCnt && !isPlaying
    {
      if |players| >= maxPlayerCnt {
        return ROOM_MAX_PLAYER;
      } else if isPlaying {
        return ROOM_IS_PLAYING;
      }
      return SUCCESS;
    }

    method GameStart(sessionIndex: int, ghost r: RoomRec) returns (told: seq<int>, fault: Option<Fault>)
      requires Is(r)
      modifies this`isPlaying
      ensures isPlaying && Is(r.(playing := true))
      ensures fault == if Gone in r.members then Some(DeletedPlayer) else None
      ensures fault.None? ==> told == Others(r.members, sessionIndex)
    {
      isPlaying := true;
      told, fault := TellOthers(sessionIndex, r.(playing := true));
    }

    method GameStop(sessionIndex: int, ghost r: RoomRec) returns (told: seq<int>, fault: Option<Fault>)
      requires Is(r)
      modifies this`isPlaying
      ensures !isPlaying && Is(r.(playing := false))
      ensures fault == if Gone in r.members then Some(DeletedPlayer) else None
      ensures fault.None? ==> told == Others(r.members, sessionIndex)
    {
      isPlaying := false;
      told, fault := TellOthers(sessionIndex, r.(playing := false));
    }

    // The loop that tells every member but one, and dereferences every entry.
    method TellOthers(sessionIndex: int, ghost r: RoomRec) returns (told: seq<int>, fault: Option<Fault>)
      requires Is(r)
      ensures fault == if Gone in r.members then Some(DeletedPlayer) else None
      ensures fault.None? ==> told == Others(r.members, sessionIndex)
    {
      told := [];
      for i := 0 to |players|
        invariant forall j :: 0 <= j < i ==> r.members[j].Playing?
        invariant told == Others(r.members[..i], sessionIndex)
      {
        assert MemberOf(players[i]) == r.members[i];
        if players[i].deleted {
          return told, Some(DeletedPlayer);
        }
        assert r.members[..i + 1][..i] == r.members[..i];
        if players[i].sessionIndex != sessionIndex {
          told := told + [players[i].sessionIndex];
        }
      }
      assert r.members[..|players|] == r.members;
      return told, None;
    }

    // The members and the player hear of each other, and the player is put on the list.
    // The loop dereferences every entry.
    method AddPlayer(enterUser: Player, ghost r: RoomRec) returns (notices: seq<Notice>, fault: Option<Fault>)
      requires Is(r) && !enterUser.deleted
      modifies this`players, enterUser`roomIndex
      ensures var o := AddMember(r, enterUser.sessionIndex);
              && (o.Failed? ==> fault == Some(o.fault))
              && (o.Done? ==> fault.None? && Is(o.value))
      ensures fault.None? && |r.members| < r.maxCount ==>
                && enterUser.roomIndex == roomIndex && players == old(players) + [enterUser]
                && notices == Notices(r.members, enterUser.sessionIndex)
      ensures |r.members| >= r.maxCount ==>
                enterUser.roomIndex == old(enterUser.roomIndex) && players == old(players) && notices == []
    {
      notices, fault := [], None;
      if |players| >= maxPlayerCnt {
        return;
      }
      for i := 0 to |players|
        invariant forall j :: 0 <= j < i ==> r.members[j].Playing?
        invariant notices == Notices(r.members[..i], enterUser.sessionIndex)
      {
        if players[i].deleted {
          assert r.members[i] == Gone;
          return notices, Some(DeletedPlayer);
        }
        assert r.members[i] == Playing(players[i].sessionIndex);
        assert r.members[..i + 1][..i] == r.members[..i];
        notices := notices + [Notice(players[i].sessionIndex, enterUser.sessionIndex),
                              Notice(enterUser.sessionIndex, players[i].sessionIndex)];
      }
      assert r.members[..|players|] == r.members;
      enterUser.roomIndex := roomIndex;
      players := players + [enterUser];
    }

    // The player at a position forgets the room and is taken off the list.
    method TakeOut(target: Player, i: nat, ghost r: RoomRec)
      requires Is(r) && i < |players| && target == players[i]
      modifies this`players, target`roomIndex
      ensures i < |r.members| && Is(WithoutEntry(r, i)) && target.roomIndex == 0
      ensures players == old(players)[..i] + old(players)[i + 1..]
    {
      target.roomIndex := 0;
      players := players[..i] + players[i + 1..];
    }

    // The first player with the session index forgets the room and is taken off the list.
    // The search dereferences the entries before it.
    method RemovePlayer(sessionIndex: int, ghost r: RoomRec) returns (fault: Option<Fault>)
      requires Is(r)
      modifies this`players, players`roomIndex
      ensures var o := FirstOf(r.members, sessionIndex);
              && (o.Failed? ==> fault == Some(o.fault))
              && (o.Done? ==>
                    && fault.None? && Is(WithoutEntry(r, o.value))
                    && (forall p <- old(players) ::
                          p.roomIndex == if o.value < |r.members| && p == old(players)[o.value] then 0
                                         else old(p.roomIndex))
                    && players == if o.value < |r.members| then old(players)[..o.value] + old(players)[o.value + 1..]
                                  else old(players))
    {
      hide FirstOf, WithoutEntry;
      for i := 0 to |players|
        invariant players == old(players) && Is(r)
        invariant forall p <- players :: unchanged(p)
        invariant forall j :: 0 <= j < i ==> r.members[j].Playing? && r.members[j] != Playing(sessionIndex)
      {
        FirstOfIs(r.members, sessionIndex, i);
        assert MemberOf(players[i]) == r.members[i];
        if players[i].deleted {
          return Some(DeletedPlayer);
        }
        if players[i].sessionIndex == sessionIndex {
          TakeOut(players[i], i, r);
          return None;
        }
      }
      FirstOfIs(r.members, sessionIndex, |r.members|);
      NothingTaken(r);
      return None;
    }
  }

  class RoomManager {
    var rooms: seq<Room>
    var roomIndex: int
    // The value of the directory and of the players' room indices, and all players who were
    // ever connected; `Valid` ties them to the objects.
    ghost var world: World
    ghost var known: set<Player>

    ghost predicate RoomAt(d: Directory, i: nat)
      requires i < |rooms| && i < |d.rooms|
      reads this`rooms, this`known, rooms, known
    {
      (forall p <- rooms[i].players :: p in known) && rooms[i].Is(d.rooms[i])
    }

    ghost predicate RoomsAre(d: Directory)
      reads this`rooms, this`roomIndex, this`known, rooms, known
    {
      && roomIndex == d.next && Sorted(d)
      && |rooms| == |d.rooms|
      && forall i :: 0 <= i < |rooms| ==> RoomAt(d, i)
    }

    // The connected players have different session indices, and each one's room index is
    // the one on record.  There is no other record.
    ghost predicate PlayersAre(w: World)
      reads this`known, known
    {
      && (forall p <- known :: !p.deleted ==> p.roomIndex == RoomOf(w, p.sessionIndex))
      && (forall p <- known, q <- known :: !p.deleted && !q.deleted && p.sessionIndex == q.sessionIndex ==> p == q)
      && (forall s <- w.roomOf :: exists p <- known :: !p.deleted && p.sessionIndex == s)
    }

    ghost predicate Valid()
      reads this, rooms, known
    {
      RoomsAre(world.dir) && PlayersAre(world)
    }

    constructor ()
      ensures Valid() && world == EMPTY_WORLD && known == {}
    {
      rooms, roomIndex := [], 1;
      world := EMPTY_WORLD;
      known := {};
    }

    // A new player has no room, and a session index that no connected player has.
    ghost method Meet(player: Player)
      requires Valid() && !player.deleted && player.roomIndex == 0
      requires forall p <- known :: !p.deleted ==> p.sessionIndex != player.sessionIndex
      modifies this`known
      ensures Valid() && known == old(known) + {player}
    {
      known := known + {player};
      forall i | 0 <= i < |rooms| ensures RoomAt(world.dir, i) {
        assert old(RoomAt(world.dir, i));
      }
      forall s | s in world.roomOf ensures exists p <- known :: !p.deleted && p.sessionIndex == s {
        var q :| q in old(known) && !q.deleted && q.sessionIndex == s;
        assert q in known;
      }
    }

    // The end of a connection: the player's object is deleted, and no room is told.
    method DeletePlayer(player: Player)
      requires Valid() && player in known && !player.deleted
      modifies this`world, player`sessionIndex, player`deleted
      ensures Valid() && world == Disconnect(old(world), old(player.sessionIndex))
    {
      ghost var w, session := world, player.sessionIndex;
      AfterDisconnect(w, session, 0);
      player.sessionIndex := 0;
      player.deleted := true;
      world := Disconnect(w, session);
      hide Sorted;
      forall i | 0 <= i < |rooms| ensures RoomAt(world.dir, i) {
        assert old(RoomAt(w.dir, i));
        var r := MarkGone(w.dir.rooms[i], session);
        forall j | 0 <= j < |rooms[i].players| ensures MemberOf(rooms[i].players[j]) == r.members[j] {
          var p := rooms[i].players[j];
          assert p in rooms[i].players && old(MemberOf(p)) == w.dir.rooms[i].members[j];
        }
      }
      forall s | s in world.roomOf ensures exists p <- known :: !p.deleted && p.sessionIndex == s {
        var q :| q in known && old(!q.deleted) && old(q.sessionIndex) == s;
        assert q != player;
      }
    }

    method CreateRoom() returns (index: int)
      requires Valid()
      modifies this
      ensures Valid() && world == old(world).(dir := Create(old(world).dir)) && index == old(world).dir.next
      ensures known == old(known)
    {
      ghost var d := world.dir;
      var room := new Room(roomIndex, Rooms.ROOM_MAX_PLAYER);
      rooms := rooms + [room];
      index := roomIndex;
      roomIndex := roomIndex + 1;
      AfterCreate(d, 0);
      world := world.(dir := Create(d));
      assert PlayersAre(world);
      forall i | 0 <= i < |rooms| ensures RoomAt(world.dir, i) {
        assert i < |old(rooms)| ==> old(RoomAt(d, i));
      }
    }

    method FindRoom(index: int) returns (room: Room?, ghost at: nat)
      requires RoomsAre(world.dir)
      ensures at == Position(world.dir.rooms, index)
      ensures var i := Position(world.dir.rooms, index);
              room == if i < |rooms| then rooms[i] else null
    {
      for i := 0 to |rooms|
        invariant forall j :: 0 <= j < i ==> world.dir.rooms[j].index != index
      {
        assert RoomAt(world.dir, i);
        if rooms[i].roomIndex == index {
          return rooms[i], i;
        }
      }
      return null, |rooms|;
    }

    // The room at a position is taken out of the list.
    method EraseAt(i: nat, ghost d: Directory)
      requires RoomsAre(d) && i < |rooms|
      modifies this`rooms
      ensures RoomsAre(Remove(d, old(rooms)[i].roomIndex))
    {
      assert RoomAt(d, i);
      RemoveAt(d, i);
      hide Sorted, Remove, Room.Is;
      rooms := rooms[..i] + rooms[i + 1..];
      ghost var t := d.(rooms := d.rooms[..i] + d.rooms[i + 1..]);
      forall j | 0 <= j < |rooms| ensures RoomAt(t, j) {
        var k := if j < i then j else j + 1;
        assert old(RoomAt(d, k)) && rooms[j] == old(rooms)[k] && t.rooms[j] == d.rooms[k];
      }
    }

    method RemoveRoom(index: int, ghost d: Directory)
      requires RoomsAre(d)
      modifies this`rooms
      ensures RoomsAre(Remove(d, index))
    {
      for i := 0 to |rooms|
        invariant rooms == old(rooms)
        invariant forall j :: 0 <= j < i ==> d.rooms[j].index != index
      {
        assert RoomAt(d, i);
        if rooms[i].roomIndex == index {
          EraseAt(i, d);
          return;
        }
      }
    }

    method GetRoomList(roomPage: int) returns (result: seq<RoomInfo>)
      requires RoomsAre(world.dir) && |rooms| < TWO_31
      ensures result == Page(world.dir.rooms, roomPage) && |result| == ROOMS_PER_PAGE
      ensures var b, e := WindowStart(|rooms|, roomPage), WindowEnd(|rooms|, roomPage);
              forall i :: 0 <= i < ROOMS_PER_PAGE ==>
                result[i] == if b + i < e then RoomInfo(rooms[b + i].maxPlayerCnt, rooms[b + i].roomIndex,
                                                        |rooms[b + i].players|, false)
                             else RoomInfo(0, 0, 0, false)
    {
      result := [];
      var endIndex := S32(roomPage * ROOMS_PER_PAGE);
      if U64(endIndex) > |rooms| {
        endIndex := |rooms|;
      }
      var curIndex := endIndex - 8;
      if curIndex < 0 {
        curIndex := 0;
      }
      ghost var start, shown := curIndex, Infos(world.dir.rooms[curIndex..endIndex]);
      while curIndex < endIndex
        invariant start <= curIndex <= endIndex
        invariant result == shown[..curIndex - start]
      {
        assert RoomAt(world.dir, curIndex);
        var roomInfo := NO_ROOM.(currentPlayerCnt := |rooms[curIndex].players|);
        roomInfo := roomInfo.(maxPlayerCnt := rooms[curIndex].maxPlayerCnt);
        roomInfo := roomInfo.(roomIndex := rooms[curIndex].roomIndex);
        result := result + [roomInfo];
        curIndex := curIndex + 1;
      }
      assert result == shown;
      if |result| < ROOMS_PER_PAGE {
        var emptyRoomCnt := ROOMS_PER_PAGE - |result|;
        for i := 0 to emptyRoomCnt
          invariant result == shown + Padding(i)
        {
          result := result + [NO_ROOM];
        }
      }
      assert result == Page(world.dir.rooms, roomPage);
      hide Page, RoomsAre;
      PageOfObjects(roomPage);
    }

    lemma PageOfObjects(roomPage: int)
      requires RoomsAre(world.dir) && |rooms| < TWO_31
      ensures var b, e := WindowStart(|rooms|, roomPage), WindowEnd(|rooms|, roomPage);
              var page := Page(world.dir.rooms, roomPage);
              && |page| == ROOMS_PER_PAGE
              && forall i :: 0 <= i < ROOMS_PER_PAGE ==>
                   page[i] == if b + i < e then RoomInfo(rooms[b + i].maxPlayerCnt, rooms[b + i].roomIndex,
                                                         |rooms[b + i].players|, false)
                              else RoomInfo(0, 0, 0, false)
    {
      forall i | 0 <= i < |rooms| ensures rooms[i].Is(world.dir.rooms[i]) {
        assert RoomAt(world.dir, i);
      }
    }
  }
}
