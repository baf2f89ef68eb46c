/**
 The server object: its callbacks and its packet consumer on the heap, each proved to be
 one step of the transition system of module `Pipeline`.
 */
module Server {
  import opened Wrappers
  import opened R = Registry
  import opened Pipeline
  import opened RegistryObjects

  // One call of a handler's logic: the handler, the player object it was given as it then
  // was, and the request it had read.
  datatype LogicCall = LogicCall(packetId: nat, player: Option<PlayerRec>, req: Request)

  function PlayerView(player: Player?): Option<PlayerRec>
    reads player
  {
    if player == null then None else Some(player.View())
  }

  // The calls that the packets of a system's history stand for.
  function CallsOf(served: seq<Call>): (calls: seq<LogicCall>)
    ensures |calls| == |served|
  {
    seq(|served|, i requires 0 <= i < |served| =>
      LogicCall(served[i].info.packetId, served[i].player, served[i].info.data))
  }

  // A record of every call that any handler received, in order.
  class CallLog {
    ghost var calls: seq<LogicCall>

    constructor ()
      ensures calls == []
    {
      calls := [];
    }
  }

  // The handler object that every packet of one id shares.
  class BaseHandler {
    const packetId: nat
    var req: Request
    var res: Reply
    ghost const log: CallLog

    constructor (id: nat, ghost log: CallLog)
      ensures packetId == id && this.log == log && View() == Handler(BLANK_REQUEST, BLANK_REPLY)
    {
      packetId := id;
      this.log := log;
      req, res := BLANK_REQUEST, BLANK_REPLY;
    }

    function View(): Handler
      reads this
    {
      Handler(req, res)
    }

    method ReadReq(packet: Request)
      modifies this`req, this`res
      ensures View() == Pipeline.ReadReq(packetId, old(View()), packet)
    {
      req := packet;
      res := res.(sequence := req.sequence);
      res := res.(session := req.session);
      res := res.(packetId := req.packetId + 1);
      res := res.(length := ReplySize(packetId));
    }

    // The effect of a handler's own logic on its reply: it leaves the header alone.
    method Logic(player: Player?, answer: Answer) returns (fault: Option<Fault>)
      modifies this`res, log
      ensures log.calls == old(log.calls) + [LogicCall(packetId, PlayerView(player), req)]
      ensures fault == if answer.Crashed? then Some(LogicFailed) else None
      ensures answer.Wrote? ==> res == old(res).(result := answer.result, payload := answer.payload)
    {
      log.calls := log.calls + [LogicCall(packetId, PlayerView(player), req)];
      if answer.Crashed? {
        return Some(LogicFailed);
      }
      res := res.(result := answer.result);
      res := res.(payload := answer.payload);
      return None;
    }

    // The bytes are copied out and back again.
    method WriteResponse() returns (packet: Reply)
      modifies this`res
      ensures packet == res == old(res)
    {
      packet := res;
      res := packet;
    }

    // The logic runs for a player and leaves a reply.
    method Answered(player: Player?, answer: Answer) returns (packet: Reply, fault: Option<Fault>)
      modifies this`res, log
      ensures log.calls == old(log.calls) + [LogicCall(packetId, PlayerView(player), req)]
      ensures fault == if answer.Crashed? then Some(LogicFailed) else None
      ensures answer.Wrote? ==> packet == res == old(res).(result := answer.result, payload := answer.payload)
    {
      packet := BLANK_REPLY;
      fault := Logic(player, answer);
      if fault.None? {
        packet := WriteResponse();
      }
    }
  }

  class IOCPTetrisServer {
    const playerManager: PlayerManager
    const sessionManager: SessionManager
    const clients: seq<ClientInfo>
    // The value of the registry, which `Valid` ties to the objects.
    ghost var reg: State

    ghost predicate PlayerAt(i: nat)
      requires i < |playerManager.players| && i < |reg.players|
      reads this, playerManager, playerManager.players
    {
      var p := playerManager.players[i];
      reg.players[i] == if p == null then None else Some(p.View())
    }

    // The session object has the value and the references of its record.
    ghost predicate SessionAt(i: nat)
      requires i < |sessionManager.sessions| && i < |reg.sessions|
      reads this, playerManager, sessionManager, sessionManager.sessions
    {
      var s, r := sessionManager.sessions[i], reg.sessions[i];
      && s.sessionIndex == r.sessionIndex && s.isUse == r.inUse
      && (if r.player.None? then s.playerInfo == null
          else r.player.value < |playerManager.players|
               && s.playerInfo == playerManager.players[r.player.value] != null)
      && (if r.client.None? then s.clientInfo == null
          else r.client.value < |clients| && s.clientInfo == clients[r.client.value])
    }

    ghost predicate ClientAt(c: nat)
      requires c < |clients| && c < |reg.clients|
      reads this, clients
    {
      clients[c].clientIndex == c + 1 && reg.clients[c] == clients[c].View()
    }

    ghost predicate Tied()
      reads this, playerManager, playerManager.players, sessionManager, sessionManager.sessions, clients
    {
      && |reg.players| == |playerManager.players| && (forall i :: 0 <= i < |reg.players| ==> PlayerAt(i))
      && |reg.sessions| == |sessionManager.sessions| && (forall i :: 0 <= i < |reg.sessions| ==> SessionAt(i))
      && |reg.clients| == |clients| && (forall c :: 0 <= c < |clients| ==> ClientAt(c))
      && (forall i, j :: 0 <= i < j < |sessionManager.sessions| ==>
            sessionManager.sessions[i] != sessionManager.sessions[j])
    }

    ghost predicate Valid()
      reads this, playerManager, playerManager.players, sessionManager, sessionManager.sessions, clients
    {
      Tied() && Lockstep(reg)
    }

    constructor (n: nat)
      ensures Valid() && reg == Initial(n).reg
      ensures |clients| == n && forall c <- clients :: c.outbox == []
    {
      var players := new PlayerManager();
      var sessions := new SessionManager();
      var list := SetupClientInfos(n);
      playerManager, sessionManager, clients := players, sessions, list;
      reg := Initial(n).reg;
    }

    // The fixed list of connection objects, numbered from 1.
    static method SetupClientInfos(n: nat) returns (clients: seq<ClientInfo>)
      ensures |clients| == n && fresh(clients)
      ensures forall i :: 0 <= i < n ==> clients[i].clientIndex == i + 1 && clients[i].outbox == []
      ensures forall i :: 0 <= i < n ==> clients[i].View() == ClientRec(0, 0)
    {
      clients := [];
      for i := 0 to n
        invariant |clients| == i && fresh(clients)
        invariant forall j :: 0 <= j < i ==> clients[j].clientIndex == j + 1 && clients[j].outbox == []
        invariant forall j :: 0 <= j < i ==> clients[j].View() == ClientRec(0, 0)
      {
        var c := new ClientInfo(i + 1);
        clients := clients + [c];
      }
    }

    // A client not in the server's list is a null pointer in the source.
    method FindClientInfo(clientIndex: nat) returns (c: ClientInfo?)
      requires Valid()
      ensures c == if 1 <= clientIndex <= |clients| then clients[clientIndex - 1] else null
    {
      for i := 0 to |clients|
        invariant forall j :: 0 <= j < i ==> clients[j].clientIndex != clientIndex
      {
        assert ClientAt(i);
        if clients[i].clientIndex == clientIndex {
          return clients[i];
        }
      }
      assert 1 <= clientIndex <= |clients| ==> ClientAt(clientIndex - 1);
      return null;
    }

    lemma PlayersAgree()
      requires Tied()
      ensures PlayersView(playerManager.players) == reg.players
    {
      forall i | 0 <= i < |reg.players|
        ensures PlayersView(playerManager.players)[i] == reg.players[i]
      {
        assert PlayerAt(i);
      }
    }

    // The player that a packet of one session index is handled for.
    method FindPlayer(sessionIndex: int) returns (player: Player?, fault: Option<Fault>)
      requires Valid()
      ensures var o := PlayerFor(reg, sessionIndex);
              && (o.Failed? ==> fault == Some(o.fault))
              && (o.Done? ==> fault.None? && PlayerView(player) == o.value)
    {
      PlayersAgree();
      hide FindIf, Lockstep;
      player, fault := playerManager.FindPlayerBySessionIndex(sessionIndex);
    }

    // The first half of a connect: a player object and its UID.
    method TakePlayer(clientInfo: ClientInfo, ghost c: nat) returns (p: Player)
      requires Tied() && c < |clients| && clientInfo == clients[c]
      modifies this`reg, playerManager, clientInfo`playerUID
      ensures Tied() && fresh(p)
      ensures var i := FirstEmpty(old(reg).players);
              && i < |playerManager.players| && p == playerManager.players[i]
              && (forall j :: 0 <= j < |playerManager.players| && j != i ==> playerManager.players[j] != p)
              && reg == old(reg).(players := Put(old(reg).players, i, Some(PlayerRec(i, 0))),
                                  clients := old(reg).clients[c := old(reg).clients[c].(playerUID := i)])
    {
      PlayersAgree();
      ghost var s, i := reg, FirstEmpty(reg.players);
      p := playerManager.GetEmptyPlayer();
      clientInfo.playerUID := p.playerUID;
      reg := s.(players := Put(s.players, i, Some(PlayerRec(i, 0))),
                clients := s.clients[c := s.clients[c].(playerUID := i)]);
      hide FirstEmpty;
      forall j | 0 <= j < |reg.players| ensures PlayerAt(j) {
        assert j < |s.players| ==> old(PlayerAt(j));
      }
      forall j | 0 <= j < |reg.sessions| ensures SessionAt(j) {
        assert old(SessionAt(j));
      }
      forall d | 0 <= d < |reg.clients| ensures ClientAt(d) {
        assert old(ClientAt(d)) && old(ClientAt(c));
      }
    }

    lemma SessionsAgree()
      requires Tied()
      ensures FirstUnused(SessionsView(sessionManager.sessions)) == FirstUnused(reg.sessions)
    {
      var view := SessionsView(sessionManager.sessions);
      forall i | 0 <= i < |reg.sessions| ensures view[i].inUse == reg.sessions[i].inUse {
        assert SessionAt(i);
      }
    }

    lemma AddedSession(s: State, p: nat, c: nat)
      requires p < |s.players| && s.players[p].Some? && c < |s.clients|
      ensures var k, t := FirstUnused(s.sessions), R.AddSession(s, p, c);
              var index := if k < |s.sessions| then s.sessions[k].sessionIndex else |s.sessions| + 1;
              && |t.players| == |s.players| && |t.clients| == |s.clients|
              && |t.sessions| == (if k < |s.sessions| then |s.sessions| else k + 1)
              && (forall j :: 0 <= j < |t.players| ==>
                    t.players[j] == if j == p then Some(s.players[p].value.(sessionIndex := index)) else s.players[j])
              && (forall j :: 0 <= j < |t.sessions| ==>
                    t.sessions[j] == if j == k then SessionRec(index, true, Some(p), Some(c)) else s.sessions[j])
              && (forall d :: 0 <= d < |t.clients| ==>
                    t.clients[d] == if d == c then s.clients[c].(sessionIndex := index) else s.clients[d])
    {
    }

    // The second half of a connect: the first free session takes player p and client c.
    method BindSession(player: Player, clientInfo: ClientInfo, ghost p: nat, ghost c: nat)
      requires Tied() && c < |clients| && clientInfo == clients[c]
      requires p < |playerManager.players| && player == playerManager.players[p]
      requires forall j :: 0 <= j < |playerManager.players| && j != p ==> playerManager.players[j] != player
      modifies this`reg, sessionManager, sessionManager.sessions, player`sessionIndex, clientInfo`sessionIndex
      ensures Tied()
      ensures p < |old(reg).players| && old(reg).players[p].Some? && c < |old(reg).clients|
              && reg == AddSession(old(reg), p, c)
    {
      assert PlayerAt(p);
      SessionsAgree();
      ghost var s, t, k := reg, AddSession(reg, p, c), FirstUnused(reg.sessions);
      assert k < |s.sessions| ==> SessionAt(k);
      AddedSession(s, p, c);
      hide R.AddSession, FirstUnused, SessionsView;
      ghost var taken := sessionManager.AddSession(player, clientInfo);
      reg := t;
      forall j | 0 <= j < |reg.players| ensures PlayerAt(j) {
        assert old(PlayerAt(j));
      }
      forall j | 0 <= j < |reg.sessions| ensures SessionAt(j) {
        assert j < |s.sessions| ==> old(SessionAt(j));
        if j == k {
          assert sessionManager.sessions[j] == taken;
          assert reg.sessions[j] == SessionRec(taken.sessionIndex, true, Some(p), Some(c));
        } else {
          assert sessionManager.sessions[j] == old(sessionManager.sessions)[j];
          assert sessionManager.sessions[j] in old(sessionManager.sessions) && sessionManager.sessions[j] != taken;
        }
      }
      forall d | 0 <= d < |reg.clients| ensures ClientAt(d) {
        assert old(ClientAt(d)) && old(ClientAt(c));
      }
    }

    method OnConnect(clientInfo: ClientInfo, ghost c: nat)
      requires Valid() && c < |clients| && clientInfo == clients[c] && clientInfo.sessionIndex == 0
      modifies this`reg, playerManager, sessionManager, sessionManager.sessions
      modifies clientInfo`sessionIndex, clientInfo`playerUID
      ensures Valid() && |reg.clients| == |clients| && reg == R.OnConnect(old(reg), c)
    {
      assert ClientAt(c);
      ConnectKeepsLockstep(reg, c);
      hide Lockstep, FirstEmpty, FirstUnused;
      var newPlayer := TakePlayer(clientInfo, c);
      BindSession(newPlayer, clientInfo, FirstEmpty(old(reg).players), c);
    }

    // The session at position k lets go of its player and its connection.
    method ReleaseSession(session: Session, ghost k: nat)
      requires Tied() && k < |sessionManager.sessions| && session == sessionManager.sessions[k]
      requires reg.sessions[k].player.Some? && reg.sessions[k].client.Some?
      requires forall i, j :: 0 <= i < j < |playerManager.players| && playerManager.players[i] != null ==>
                 playerManager.players[i] != playerManager.players[j]
      modifies this`reg, session`playerInfo, session`clientInfo, session`isUse
      modifies session.playerInfo, session.clientInfo
      ensures Tied()
      ensures k < |old(reg).sessions| && Done(reg) == CloseSession(old(reg), k)
      ensures forall d <- clients :: d.outbox == old(d.outbox)
    {
      assert SessionAt(k);
      ghost var p, c := reg.sessions[k].player.value, reg.sessions[k].client.value;
      assert PlayerAt(p) && ClientAt(c);
      ghost var s, t := reg, CloseSession(reg, k).value;
      session.CloseSession();
      reg := t;
      forall j | 0 <= j < |reg.players| ensures PlayerAt(j) {
        assert old(PlayerAt(j));
      }
      forall j | 0 <= j < |reg.sessions| ensures SessionAt(j) {
        assert old(SessionAt(j));
      }
      forall d | 0 <= d < |reg.clients| ensures ClientAt(d) {
        assert old(ClientAt(d));
      }
    }

    // The slot of a player that no session refers to any more is emptied.
    method DropPlayer(uid: int) returns (fault: Option<Fault>)
      requires Tied()
      requires var r := FindIf(reg.players, ByUID(uid), 0);
               r.Found? ==> forall k :: 0 <= k < |reg.sessions| ==> reg.sessions[k].player != Some(r.slot)
      modifies this`reg, playerManager, playerManager.players`deleted
      ensures var o := R.RemovePlayer(old(reg), uid);
              && (o.Done? ==> fault.None? && Tied() && reg == o.value)
              && (o.Failed? ==> fault == Some(o.fault))
    {
      PlayersAgree();
      ghost var s, r := reg, FindIf(reg.players, ByUID(uid), 0);
      fault := playerManager.RemovePlayer(uid);
      if r.Found? {
        reg := s.(players := s.players[r.slot := None]);
      }
      forall j | 0 <= j < |reg.players| ensures PlayerAt(j) {
        assert old(PlayerAt(j));
      }
      forall j | 0 <= j < |reg.sessions| ensures SessionAt(j) {
        assert old(SessionAt(j));
      }
      forall d | 0 <= d < |reg.clients| ensures ClientAt(d) {
        assert old(ClientAt(d));
      }
    }

    lemma PlayersDistinct()
      requires Valid()
      ensures forall i, j :: 0 <= i < j < |playerManager.players| && playerManager.players[i] != null ==>
                playerManager.players[i] != playerManager.players[j]
    {
      PlayersNumbered(reg);
      hide Lockstep;
      forall i, j | 0 <= i < j < |playerManager.players| && playerManager.players[i] != null
        ensures playerManager.players[i] != playerManager.players[j]
      {
        assert PlayerAt(i) && PlayerAt(j);
      }
    }

    // A fault ends the process, so nothing is said about the state after one.
    method OnClose(clientIndex: nat) returns (fault: Option<Fault>)
      requires Valid()
      modifies this`reg, playerManager, playerManager.players, sessionManager.sessions, clients
      ensures var o := if clientIndex == 0 then Failed(NoSuchClient) else R.OnClose(old(reg), clientIndex - 1);
              && (o.Done? ==> fault.None? && Valid() && reg == o.value)
              && (o.Failed? ==> fault == Some(o.fault))
      ensures forall d <- clients :: d.outbox == old(d.outbox)
    {
      var clientInfo := FindClientInfo(clientIndex);
      if clientInfo == null {
        return Some(NoSuchClient);
      }
      ghost var c := clientIndex - 1;
      assert ClientAt(c);
      CloseOutcome(reg, c);
      var sessionIndex := clientInfo.sessionIndex;
      var session := sessionManager.FindSession(sessionIndex);
      if session == null {
        return Some(NoSession);
      }
      CloseSessionOutcome(reg, c);
      FreedKeepsLockstep(reg, c);
      PlayersDistinct();
      ghost var k := sessionIndex - 1;
      assert SessionAt(k) && PlayerAt(k);
      var playerUID := session.playerInfo.playerUID;
      hide Lockstep, FindIf;
      ReleaseSession(session, k);
      fault := DropPlayer(playerUID);
    }
  }

  // The queue between the receive threads and the one consumer, and the shared handlers.
  class PacketManager {
    const server: IOCPTetrisServer
    const handlers: map<nat, BaseHandler>
    ghost const log: CallLog
    var recvPacketQueue: seq<PacketInfo>
    // The value of the whole system, which `Valid` ties to the objects.
    ghost var system: System

    ghost predicate HandlersAre(values: map<nat, Handler>)
      reads handlers.Values
    {
      && handlers.Keys == values.Keys
      && forall id <- handlers ::
           handlers[id].packetId == id && handlers[id].log == log && handlers[id].View() == values[id]
    }

    ghost predicate OutboxesAre(outboxes: seq<seq<Reply>>)
      reads server.clients
    {
      && |outboxes| == |server.clients|
      && forall c :: 0 <= c < |server.clients| ==> server.clients[c].outbox == outboxes[c]
    }

    ghost predicate Valid()
      reads this, handlers.Values, log, server, server.playerManager, server.playerManager.players
      reads server.sessionManager, server.sessionManager.sessions, server.clients
    {
      && log.calls == CallsOf(system.served)
      && server.Valid() && server.reg == system.reg && OutboxesAre(system.outboxes)
      && recvPacketQueue == system.queue
      && HandlersAre(system.handlers) && handlers.Keys == system.handlers.Keys == REQUEST_IDS
      && |system.outboxes| == |system.reg.clients|
    }

    constructor (n: nat)
      ensures Valid() && system == Initial(n)
    {
      hide *;
      var s := new IOCPTetrisServer(n);
      var calls := new CallLog();
      var objects := InitHandlers(calls);
      server, handlers, log := s, objects, calls;
      recvPacketQueue := [];
      system := Initial(n);
      new;
      StartsValid(n);
    }

    lemma StartsBlank(n: nat)
      requires handlers.Keys == REQUEST_IDS && Blank(handlers, log)
      ensures HandlersAre(Initial(n).handlers) && Initial(n).handlers.Keys == REQUEST_IDS
    {
    }

    lemma StartsValid(n: nat)
      requires server.Valid() && server.reg == Initial(n).reg
      requires |server.clients| == n && forall c <- server.clients :: c.outbox == []
      requires handlers.Keys == REQUEST_IDS && Blank(handlers, log)
      requires log.calls == [] && recvPacketQueue == [] && system == Initial(n)
      ensures Valid()
    {
      StartsBlank(n);
      hide IOCPTetrisServer.Valid, Blank, HandlersAre;
    }

    // Every handler object is registered under its own id and has seen no packet yet.
    static ghost predicate Blank(handlers: map<nat, BaseHandler>, log: CallLog)
      reads handlers.Values
    {
      forall id <- handlers ::
        && handlers[id].packetId == id && handlers[id].log == log
        && handlers[id].View() == Handler(BLANK_REQUEST, BLANK_REPLY)
    }

    static method Register(handlers: map<nat, BaseHandler>, id: nat, ghost log: CallLog)
      returns (more: map<nat, BaseHandler>)
      requires Blank(handlers, log)
      ensures Blank(more, log) && more.Keys == handlers.Keys + {id}
    {
      var handler := new BaseHandler(id, log);
      more := handlers[id := handler];
    }

    static method RegisterCommon(handlers: map<nat, BaseHandler>, ghost log: CallLog)
      returns (more: map<nat, BaseHandler>)
      requires Blank(handlers, log)
      ensures Blank(more, log) && more.Keys == handlers.Keys + {10001}
    {
      hide Blank;
      more := Register(handlers, 10001, log);
    }

    static method RegisterInGame(handlers: map<nat, BaseHandler>, ghost log: CallLog)
      returns (more: map<nat, BaseHandler>)
      requires Blank(handlers, log)
      ensures Blank(more, log) && more.Keys == handlers.Keys + {10207} + {10205} + {10203} + {10201}
    {
      hide Blank;
      more := Register(handlers, 10207, log);
      more := Register(more, 10205, log);
      more := Register(more, 10203, log);
      more := Register(more, 10201, log);
    }

    static method RegisterRoom(handlers: map<nat, BaseHandler>, ghost log: CallLog)
      returns (more: map<nat, BaseHandler>)
      requires Blank(handlers, log)
      ensures Blank(more, log) && more.Keys == handlers.Keys + {10109} + {10101} + {10103} + {10107} + {10105}
    {
      hide Blank;
      more := Register(handlers, 10109, log);
      more := Register(more, 10101, log);
      more := Register(more, 10103, log);
      more := Register(more, 10107, log);
      more := Register(more, 10105, log);
    }

    // One handler object for each request id.
    static method InitHandlers(ghost log: CallLog) returns (handlers: map<nat, BaseHandler>)
      ensures handlers.Keys == REQUEST_IDS && Blank(handlers, log)
    {
      handlers := map[];
      assert Blank(handlers, log);
      hide Blank;
      handlers := RegisterCommon(handlers, log);
      handlers := RegisterInGame(handlers, log);
      handlers := RegisterRoom(handlers, log);
      EveryId();
    }

    static lemma EveryId()
      ensures {10001} + {10207} + {10205} + {10203} + {10201} + {10109} + {10101} + {10103} + {10107} + {10105}
              == REQUEST_IDS
    {
    }

    // A connect as a step of the whole system: for a connection without a session only.
    method ConnectClient(clientInfo: ClientInfo, ghost c: nat)
      requires Valid() && c < |server.clients| && clientInfo == server.clients[c]
      modifies this`system, server`reg, server.playerManager, server.sessionManager, server.sessionManager.sessions
      modifies clientInfo`sessionIndex, clientInfo`playerUID
      ensures Valid() && Done(system) == Step(old(system), Connect(c))
    {
      assert server.ClientAt(c);
      if clientInfo.sessionIndex == 0 {
        hide *;
        RegisterClient(clientInfo, c);
        ConnectStep(old(system), c);
      }
    }

    lemma ConnectStep(s: System, c: nat)
      requires |s.outboxes| == |s.reg.clients| && c < |s.reg.clients| && s.reg.clients[c].sessionIndex == 0
      ensures Step(s, Connect(c)) == Done(s.(reg := R.OnConnect(s.reg, c)))
    {
    }

    method RegisterClient(clientInfo: ClientInfo, ghost c: nat)
      requires Valid() && c < |server.clients| && clientInfo == server.clients[c] && clientInfo.sessionIndex == 0
      modifies this`system, server`reg, server.playerManager, server.sessionManager, server.sessionManager.sessions
      modifies clientInfo`sessionIndex, clientInfo`playerUID
      ensures Valid() && c < |old(system).reg.clients|
      ensures system == old(system).(reg := R.OnConnect(old(system).reg, c))
    {
      hide HandlersAre, IOCPTetrisServer.Valid, CallsOf, R.OnConnect;
      server.OnConnect(clientInfo, c);
      system := system.(reg := server.reg);
    }

    // A close as a step of the whole system.
    method CloseClient(clientIndex: nat) returns (fault: Option<Fault>)
      requires Valid() && 0 < clientIndex
      modifies this`system, server`reg, server.playerManager, server.playerManager.players
      modifies server.sessionManager.sessions, server.clients
      ensures var o := Step(old(system), Close(clientIndex - 1));
              && (o.Failed? ==> fault == Some(o.fault))
              && (o.Done? ==> fault.None? && Valid() && system == o.value)
    {
      hide HandlersAre, Lockstep, R.OnClose;
      fault := server.OnClose(clientIndex);
      system := system.(reg := server.reg);
    }

    // The callback of the receive threads, for a packet of connection c.
    method OnReceive(clientInfo: ClientInfo, request: Request, ghost c: nat)
      requires Valid() && c < |server.clients| && clientInfo == server.clients[c]
      modifies this`recvPacketQueue, this`system
      ensures Valid() && Done(system) == Step(old(system), Receive(c, request))
      ensures recvPacketQueue == old(recvPacketQueue)
              + [PacketInfo(clientInfo.sessionIndex, request.packetId, request.length, request)]
    {
      assert server.ClientAt(c);
      var info := PacketInfo(clientInfo.sessionIndex, request.packetId, request.length, request);
      recvPacketQueue := recvPacketQueue + [info];
      system := system.(queue := system.queue + [info]);
    }

    method DequeRecvPacket() returns (info: Option<PacketInfo>)
      modifies this`recvPacketQueue
      ensures if old(recvPacketQueue) == []
              then info.None? && recvPacketQueue == []
              else info.Some? && [info.value] + recvPacketQueue == old(recvPacketQueue)
    {
      if recvPacketQueue == [] {
        return None;
      }
      info := Some(recvPacketQueue[0]);
      recvPacketQueue := recvPacketQueue[1..];
    }

    // The reply goes to the connection of the session that is looked up again.
    method SendPacket(sessionIndex: int, reply: Reply, ghost s: System) returns (fault: Option<Fault>)
      requires server.Valid() && s.reg == server.reg && OutboxesAre(s.outboxes)
      modifies server.clients
      ensures var o := ClientFor(s.reg, sessionIndex);
              && (o.Failed? ==> fault == Some(o.fault))
              && (o.Done? ==>
                    && fault.None? && server.Valid() && o.value < |s.outboxes|
                    && OutboxesAre(s.outboxes[o.value := s.outboxes[o.value] + [reply]]))
    {
      var session := server.sessionManager.FindSession(sessionIndex);
      if session == null {
        return Some(NoSession);
      }
      assert server.SessionAt(sessionIndex - 1);
      var clientInfo := session.clientInfo;
      if clientInfo == null {
        return Some(NoSuchClient);
      }
      assert SlotAgrees(s.reg, sessionIndex - 1);
      ghost var c := s.reg.sessions[sessionIndex - 1].client.value;
      forall d | 0 <= d < |server.clients| && d != c ensures server.clients[d] != clientInfo {
        assert server.ClientAt(c) && server.ClientAt(d);
      }
      hide Lockstep;
      clientInfo.SendMsg(reply);
      forall d | 0 <= d < |server.clients| ensures server.ClientAt(d) {
        assert old(server.ClientAt(d));
      }
      return None;
    }

    // The header of the shared handler is overwritten, the player is looked up, and the
    // logic runs with that player.
    method RunHandler(info: PacketInfo, answer: Answer) returns (reply: Reply, fault: Option<Fault>)
      requires server.Valid() && server.reg == system.reg
      requires HandlersAre(system.handlers) && info.packetId in handlers
      modifies handlers[info.packetId], log
      ensures var o := PlayerFor(system.reg, info.sessionIndex);
              && (o.Failed? ==> fault == Some(o.fault))
              && (o.Done? && answer.Crashed? ==> fault == Some(LogicFailed))
              && (o.Done? && answer.Wrote? ==>
                    && fault.None? && info.packetId in system.handlers
                    && log.calls == old(log.calls) + [LogicCall(info.packetId, o.value, info.data)]
                    && HandlersAre(system.handlers[info.packetId := Handler(info.data, reply)])
                    && reply == Pipeline.ReadReq(info.packetId, system.handlers[info.packetId], info.data).res
                                .(result := answer.result, payload := answer.payload))
    {
      hide IOCPTetrisServer.Valid, PlayerFor, Lockstep, CallsOf;
      reply := BLANK_REPLY;
      var handler := handlers[info.packetId];
      handler.ReadReq(info.data);
      var player;
      player, fault := server.FindPlayer(info.sessionIndex);
      if fault.Some? {
        return;
      }
      reply, fault := handler.Answered(player, answer);
      forall id | id in handlers && id != info.packetId ensures handlers[id] != handler {
        assert handlers[id].packetId == id;
      }
    }

    // One packet of the queue, from the handler to the reply.
    method ProcessPacket(info: PacketInfo, answer: Answer) returns (fault: Option<Fault>)
      requires Valid()
      modifies this`system, handlers.Values, log, server.clients
      ensures var o := Pipeline.ProcessPacket(old(system), info, answer);
              && (o.Failed? ==> fault == Some(o.fault))
              && (o.Done? ==> fault.None? && Valid() && system == o.value)
    {
      hide Lockstep, FindIf, IOCPTetrisServer.Valid, HandlersAre, OutboxesAre, PlayerFor, ClientFor, Pipeline.ReadReq;
      if info.packetId !in handlers {
        return Some(UnknownPacket);
      }
      ghost var s := system;
      var reply;
      reply, fault := RunHandler(info, answer);
      if fault.Some? {
        return;
      }
      fault := SendPacket(info.sessionIndex, reply, system);
      if fault.Some? {
        return;
      }
      system := Pipeline.ProcessPacket(s, info, answer).value;
    }

    // One round of the consumer thread.
    method PacketThreadRound(answer: Answer) returns (fault: Option<Fault>)
      requires Valid()
      modifies this`system, this`recvPacketQueue, handlers.Values, log, server.clients
      ensures var o := Step(old(system), Process(answer));
              && (o.Failed? ==> fault == Some(o.fault))
              && (o.Done? ==> fault.None? && Valid() && system == o.value)
    {
      var info := DequeRecvPacket();
      match info
      case None => return None;
      case Some(packet) =>
        system := system.(queue := system.queue[1..]);
        fault := ProcessPacket(packet, answer);
    }
  }
}
