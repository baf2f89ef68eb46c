/**
 The server as one transition system: connections open and close, receive threads enqueue
 packets, and a single consumer dispatches them to shared handler objects whose replies go
 back through the registry.  Every callback is one atomic step.
 */
module Pipeline {
  import opened Wrappers
  import opened Registry

  type Bytes = seq<nat>

  // The header of a request and the rest of its bytes.
  datatype Request = Request(length: nat, packetId: nat, sequence: nat, session: nat, body: Bytes)

  datatype Reply = Reply(length: nat, packetId: nat, sequence: nat, session: nat, result: nat, payload: Bytes)

  // What a receive thread puts in the queue.
  datatype PacketInfo = PacketInfo(sessionIndex: int, packetId: nat, size: nat, data: Request)

  // A handler object keeps its last request and its last reply.
  datatype Handler = Handler(req: Request, res: Reply)

  // One handler call: the player it was given and the request it read.
  datatype Call = Call(player: Option<PlayerRec>, info: PacketInfo)

  datatype System = System(
    reg: State,
    queue: seq<PacketInfo>,
    handlers: map<nat, Handler>,
    outboxes: seq<seq<Reply>>,
    served: seq<Call>)

  // How the logic of a handler ends: what it leaves in the reply, or a null dereference.
  datatype Answer = Wrote(result: nat, payload: Bytes) | Crashed

  datatype Event =
    | Connect(c: nat)
    | Close(c: nat)
    | Receive(c: nat, request: Request)
    | Process(answer: Answer)

  const REQUEST_IDS: set<nat> := {10001, 10101, 10103, 10105, 10107, 10109, 10201, 10203, 10205, 10207}

  // Size in bytes of the reply structure that answers each request.
  function ReplySize(packetId: nat): nat {
    match packetId
    case 10001 => 51
    case 10101 => 18
    case 10103 => 18
    case 10105 => 118
    case 10203 => 42
    case 10205 => 74
    case 10207 => 42
    case _ => 14
  }

  // The packed fields of a reply structure.
  datatype Field = Byte | Short | Int | Many(count: nat, fields: seq<Field>)

  function SizeOf(fields: seq<Field>): nat {
    if fields == [] then 0 else
      SizeOf(fields[1..]) +
      match fields[0]
      case Byte => 1
      case Short => 2
      case Int => 4
      case Many(count, inner) => count * SizeOf(inner)
  }

  // Length, packet id, sequence index and session index, and the result.
  const BASE_PACKET: seq<Field> := [Short, Short, Int, Int] + [Short]

  // What a reply holds besides: a user name and a session index; a room index; the session
  // index of who entered; eight rooms of three numbers and a flag; fourteen shapes; thirty
  // key inputs.
  function ReplyFields(packetId: nat): seq<Field> {
    match packetId
    case 10001 => [Many(32 + 1, [Byte]), Int]
    case 10101 => [Int]
    case 10103 => [Int]
    case 10105 => [Many(8, [Int, Int, Int, Byte])]
    case 10203 => [Many(14, [Short])]
    case 10205 => [Many(30, [Short])]
    case 10207 => [Many(14, [Short])]
    case _ => []
  }

  // The length in a reply header is the size of the packed structure.
  lemma ReplyLength(packetId: nat)
    ensures ReplySize(packetId) == SizeOf(BASE_PACKET) + SizeOf(ReplyFields(packetId))
  {
    assert SizeOf([Byte]) == 1 && SizeOf([Short]) == 2;
    assert SizeOf([Int, Int, Int, Byte]) == 13 by {
      assert [Int, Int, Int, Byte][1..] == [Int, Int, Byte];
      assert [Int, Int, Byte][1..] == [Int, Byte];
      assert [Int, Byte][1..] == [Byte];
    }
    assert BASE_PACKET == [Short, Short, Int, Int, Short];
    assert BASE_PACKET[1..] == [Short, Int, Int, Short];
    assert [Short, Int, Int, Short][1..] == [Int, Int, Short];
    assert [Int, Int, Short][1..] == [Int, Short];
    assert [Int, Short][1..] == [Short];
    assert SizeOf(BASE_PACKET) == 14;
    assert ReplyFields(10001)[1..] == [Int];
  }

  const BLANK_REQUEST := Request(0, 0, 0, 0, [])
  const BLANK_REPLY := Reply(0, 0, 0, 0, 2, [])

  function Initial(n: nat): System {
    System(State([], [], seq(n, _ => ClientRec(0, 0))), [],
           map id | id in REQUEST_IDS :: Handler(BLANK_REQUEST, BLANK_REPLY),
           seq(n, _ => []), [])
  }

  // ---------------------------------------------------------------- steps

  // The handler registered under `id` overwrites its request and its reply header.
  function ReadReq(id: nat, h: Handler, r: Request): (h': Handler)
    ensures h'.req == r
  {
    Handler(r, h.res.(sequence := r.sequence, session := r.session, packetId := r.packetId + 1,
                      length := ReplySize(id)))
  }

  // The player that the lookup by session index hands to the handler.
  function PlayerFor(reg: State, sessionIndex: int): Outcome<Option<PlayerRec>> {
    match FindIf(reg.players, BySession(sessionIndex), 0)
    case Found(i) => Done(reg.players[i])
    case Absent => Done(None)
    case HitNull => Failed(NullSlot)
  }

  // The connection to which a reply for a session index is sent.
  function ClientFor(reg: State, sessionIndex: int): Outcome<nat> {
    if !(1 <= sessionIndex <= |reg.sessions|) then Failed(NoSession) else
      match reg.sessions[sessionIndex - 1].client
      case None => Failed(NoSuchClient)
      case Some(c) => if c < |reg.clients| then Done(c) else Failed(NoSuchClient)
  }

  function ProcessPacket(s: System, info: PacketInfo, answer: Answer): Outcome<System>
    requires |s.outboxes| == |s.reg.clients|
  {
    if info.packetId !in s.handlers then Failed(UnknownPacket) else
      var h := ReadReq(info.packetId, s.handlers[info.packetId], info.data);
      match PlayerFor(s.reg, info.sessionIndex)
      case Failed(f) => Failed(f)
      case Done(player) =>
        if answer.Crashed? then Failed(LogicFailed) else
          var res := h.res.(result := answer.result, payload := answer.payload);
          match ClientFor(s.reg, info.sessionIndex)
          case Failed(f) => Failed(f)
          case Done(c) =>
            Done(s.(handlers := s.handlers[info.packetId := Handler(h.req, res)],
                    outboxes := s.outboxes[c := s.outboxes[c] + [res]],
                    served := s.served + [Call(player, info)]))
  }

  function Step(s: System, e: Event): Outcome<System>
    requires |s.outboxes| == |s.reg.clients|
  {
    match e
    case Connect(c) =>
      // A connect is for a connection without a session only.
      if c >= |s.reg.clients| then Failed(NoSuchClient)
      else if s.reg.clients[c].sessionIndex != 0 then Done(s)
      else Done(s.(reg := OnConnect(s.reg, c)))
    case Close(c) =>
      (match OnClose(s.reg, c)
       case Failed(f) => Failed(f)
       case Done(reg) => Done(s.(reg := reg)))
    case Receive(c, r) =>
      if c >= |s.reg.clients| then Failed(NoSuchClient)
      else Done(s.(queue := s.queue + [PacketInfo(s.reg.clients[c].sessionIndex, r.packetId, r.length, r)]))
    case Process(answer) =>
      if s.queue == [] then Done(s)
      else ProcessPacket(s.(queue := s.queue[1..]), s.queue[0], answer)
  }

  // ---------------------------------------------------------------- runs

  ghost predicate Invariant(s: System) {
    && Lockstep(s.reg)
    && |s.outboxes| == |s.reg.clients|
    && s.handlers.Keys == REQUEST_IDS
  }

  lemma StepKeepsInvariant(s: System, e: Event)
    requires Invariant(s) && Step(s, e).Done?
    ensures Invariant(Step(s, e).value)
    ensures |Step(s, e).value.reg.clients| == |s.reg.clients|
  {
    match e
    case Connect(c) =>
      if s.reg.clients[c].sessionIndex == 0 {
        ConnectKeepsLockstep(s.reg, c);
      }
    case Close(c) =>
      CloseOutcome(s.reg, c);
      FreedKeepsLockstep(s.reg, c);
    case Receive(c, r) =>
    case Process(answer) =>
      if s.queue != [] {
        var id := s.queue[0].packetId;
        var t := Step(s, e).value;
        assert t.handlers.Keys == s.handlers.Keys + {id};
      }
  }

  function Exec(n: nat, es: seq<Event>): (o: Outcome<System>)
    ensures o.Done? ==> Invariant(o.value) && |o.value.reg.clients| == n
  {
    if es == [] then
      var s := Initial(n);
      assert s.handlers.Keys == REQUEST_IDS;
      Done(s)
    else
      match Exec(n, es[..|es| - 1])
      case Failed(f) => Failed(f)
      case Done(s) =>
        var o := Step(s, es[|es| - 1]);
        if o.Done? then
          StepKeepsInvariant(s, es[|es| - 1]);
          o
        else o
  }
}
