/**
 The objects of the connection registry: players, connections and sessions linked by
 references, and the two managers that own the slot tables.  Each method is specified by
 the function of module `Registry` that it carries out on the views of the objects.
 */
module RegistryObjects {
  import opened Wrappers
  import opened Registry
  import opened Pipeline

  class Player {
    // Assigned once, right after allocation.
    const playerUID: nat
    var sessionIndex: int
    var roomIndex: int
    // The memory has been given back; pointers to it may remain.
    var deleted: bool

    constructor (uid: nat)
      ensures playerUID == uid && sessionIndex == 0 && roomIndex == 0 && !deleted
    {
      playerUID := uid;
      sessionIndex := 0;
      roomIndex := 0;
      deleted := false;
    }

    function View(): PlayerRec
      reads this
    {
      PlayerRec(playerUID, sessionIndex)
    }
  }

  class ClientInfo {
    // The position in the server's fixed list of connection objects, from 1.
    const clientIndex: nat
    var sessionIndex: int
    var playerUID: int
    var outbox: seq<Reply>

    constructor (index: nat)
      requires 0 < index
      ensures clientIndex == index && View() == ClientRec(0, 0) && outbox == []
    {
      clientIndex := index;
      sessionIndex, playerUID := 0, 0;
      outbox := [];
    }

    function View(): ClientRec
      reads this
    {
      ClientRec(sessionIndex, playerUID)
    }

    method SendMsg(reply: Reply)
      modifies this`outbox
      ensures outbox == old(outbox) + [reply]
    {
      outbox := outbox + [reply];
    }
  }

  class Session {
    var playerInfo: Player?
    var clientInfo: ClientInfo?
    var sessionIndex: int
    var isUse: bool

    constructor (index: int, player: Player, client: ClientInfo)
      modifies player`sessionIndex, client`sessionIndex
      ensures playerInfo == player && clientInfo == client && isUse && sessionIndex == index
      ensures player.sessionIndex == index && client.sessionIndex == index
    {
      sessionIndex := index;
      playerInfo, clientInfo := player, client;
      isUse := true;
      new;
      player.sessionIndex := index;
      client.sessionIndex := index;
    }

    function View(): SessionRec
      reads this
    {
      SessionRec(sessionIndex, isUse,
                 if playerInfo == null then None else Some(playerInfo.playerUID),
                 if clientInfo == null || clientInfo.clientIndex == 0 then None else Some(clientInfo.clientIndex - 1))
    }

    method SetSession(player: Player, client: ClientInfo)
      modifies this`playerInfo, this`clientInfo, this`isUse, player`sessionIndex, client`sessionIndex
      ensures playerInfo == player && clientInfo == client && isUse
      ensures player.sessionIndex == sessionIndex && client.sessionIndex == sessionIndex
    {
      playerInfo := player;
      clientInfo := client;
      playerInfo.sessionIndex := sessionIndex;
      clientInfo.sessionIndex := sessionIndex;
      isUse := true;
    }

    method CloseSession()
      requires playerInfo != null && clientInfo != null
      modifies this`playerInfo, this`clientInfo, this`isUse, playerInfo`sessionIndex, clientInfo`sessionIndex
      ensures playerInfo == null && clientInfo == null && !isUse
      ensures old(playerInfo).sessionIndex == 0 && old(clientInfo).sessionIndex == 0
    {
      playerInfo.sessionIndex := 0;
      clientInfo.sessionIndex := 0;
      playerInfo := null;
      clientInfo := null;
      isUse := false;
    }
  }

  // ---------------------------------------------------------------- views of the tables

  function PlayersView(players: seq<Player?>): (v: seq<Option<PlayerRec>>)
    reads players
    ensures |v| == |players|
  {
    seq(|players|, i requires 0 <= i < |players| reads players =>
      if players[i] == null then None else Some(players[i].View()))
  }

  function SessionsView(sessions: seq<Session>): (v: seq<SessionRec>)
    reads sessions
    ensures |v| == |sessions|
  {
    seq(|sessions|, i requires 0 <= i < |sessions| reads sessions => sessions[i].View())
  }

  // ---------------------------------------------------------------- the player table

  class PlayerManager {
    var players: seq<Player?>

    constructor ()
      ensures players == []
    {
      players := [];
    }

    method GetEmptyPlayer() returns (p: Player)
      modifies this
      ensures fresh(p) && p.sessionIndex == 0 && p.roomIndex == 0 && !p.deleted
      ensures p.playerUID == FirstEmpty(old(PlayersView(players)))
      ensures players == Put(old(players), p.playerUID, p)
    {
      ghost var view := PlayersView(players);
      for i := 0 to |players|
        invariant players == old(players)
        invariant forall j :: 0 <= j < i ==> view[j].Some?
      {
        if players[i] == null {
          assert view[i].None?;
          p := new Player(i);
          players := players[i := p];
          return;
        }
      }
      var newPlayerUID := |players|;
      p := new Player(newPlayerUID);
      players := players + [p];
    }

    // The search of `find_if`: it dereferences every slot that it visits.
    method Find(key: Key) returns (r: Scan)
      ensures r == FindIf(PlayersView(players), key, 0)
    {
      var i := 0;
      while i < |players|
        invariant 0 <= i <= |players|
        invariant FindIf(PlayersView(players), key, 0) == FindIf(PlayersView(players), key, i)
      {
        var slot := players[i];
        if slot == null {
          return HitNull;
        }
        if key.Matches(slot.View()) {
          return Found(i);
        }
        i := i + 1;
      }
      return Absent;
    }

    method RemovePlayer(uid: int) returns (fault: Option<Fault>)
      modifies this, players`deleted
      ensures var r := FindIf(old(PlayersView(players)), ByUID(uid), 0);
              && (fault.Some? <==> r.HitNull?) && (fault.Some? ==> fault.value == NullSlot)
              && players == (if r.Found? then old(players)[r.slot := null] else old(players))
              && forall p <- old(players) :: p != null ==>
                   p.deleted == (old(p.deleted) || (r.Found? && p == old(players)[r.slot]))
    {
      var r := Find(ByUID(uid));
      match r
      case Found(i) =>
        players[i].deleted := true;
        players := players[i := null];
        return None;
      case Absent => return None;
      case HitNull => return Some(NullSlot);
    }

    // A null result is the source's null pointer.
    method FindPlayerBySessionIndex(sessionIndex: int) returns (p: Player?, fault: Option<Fault>)
      ensures var r := FindIf(PlayersView(players), BySession(sessionIndex), 0);
              && (fault.Some? <==> r.HitNull?) && (fault.Some? ==> fault.value == NullSlot)
              && p == if r.Found? then players[r.slot] else null
    {
      var r := Find(BySession(sessionIndex));
      match r
      case Found(i) => return players[i], None;
      case Absent => return null, None;
      case HitNull => return null, Some(NullSlot);
    }
  }

  // ---------------------------------------------------------------- the session table

  class SessionManager {
    var sessions: seq<Session>

    constructor ()
      ensures sessions == []
    {
      sessions := [];
    }

    // The first free session takes the pair; a new one is appended when none is free.
    method AddSession(player: Player, client: ClientInfo) returns (ghost taken: Session)
      modifies this, sessions, player`sessionIndex, client`sessionIndex
      ensures var k := FirstUnused(old(SessionsView(sessions)));
              && sessions == Put(old(sessions), k, taken)
              && (if k < |old(sessions)|
                  then taken == old(sessions)[k] && taken.sessionIndex == old(taken.sessionIndex)
                  else fresh(taken) && taken.sessionIndex == |old(sessions)| + 1)
      ensures taken.isUse && taken.playerInfo == player && taken.clientInfo == client
      ensures player.sessionIndex == taken.sessionIndex && client.sessionIndex == taken.sessionIndex
      ensures forall s <- old(sessions) :: s != taken ==> unchanged(s)
    {
      ghost var view := SessionsView(sessions);
      for i := 0 to |sessions|
        invariant sessions == old(sessions)
        invariant forall s <- sessions :: unchanged(s)
        invariant unchanged(player) && unchanged(client)
        invariant forall j :: 0 <= j < i ==> view[j].inUse
      {
        if sessions[i].isUse == false {
          assert !view[i].inUse;
          taken := sessions[i];
          sessions[i].SetSession(player, client);
          return;
        }
      }
      var session := new Session(|sessions| + 1, player, client);
      sessions := sessions + [session];
      taken := session;
    }

    // The checked lookup: an index outside the table throws, which is the null result.
    method FindSession(sessionIndex: int) returns (s: Session?)
      ensures s == if 1 <= sessionIndex <= |sessions| then sessions[sessionIndex - 1] else null
    {
      var at := sessionIndex - 1;
      if 0 <= at < |sessions| {
        return sessions[at];
      }
      return null;
    }
  }
}
