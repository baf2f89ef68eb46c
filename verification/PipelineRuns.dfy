/**
 What every run of the server keeps: table sizes, first-in first-out processing, and the
 routing of replies.
 */
module PipelineRuns {
  import opened Wrappers
  import opened Integers
  import opened R = Registry
  import opened Pipeline

  // ---------------------------------------------------------------- table sizes

  // The largest number of simultaneously open connections so far in a run.
  function Peak(n: nat, es: seq<Event>): nat
    requires Exec(n, es).Done?
  {
    if es == [] then 0
    else Max(Peak(n, es[..|es| - 1]), OpenCount(Exec(n, es).value.reg))
  }

  // In every run both tables are as long as the largest number of connections that were
  // open at once.
  lemma TablesArePeak(n: nat, es: seq<Event>)
    requires Exec(n, es).Done?
    ensures |Exec(n, es).value.reg.players| == Peak(n, es)
    ensures |Exec(n, es).value.reg.sessions| == Peak(n, es)
  {
    PeakAndOpen(n, es);
  }

  lemma {:induction false} PeakAndOpen(n: nat, es: seq<Event>)
    requires Exec(n, es).Done?
    ensures var reg := Exec(n, es).value.reg;
            |reg.sessions| == Peak(n, es) && CountTrue(UsedFlags(reg)) == OpenCount(reg)
  {
    if es == [] {
      NoneOpen(n, n);
    } else {
      hide Step, Invariant, OpenCount, UsedFlags;
      PeakAndOpen(n, es[..|es| - 1]);
      StepCounts(Exec(n, es[..|es| - 1]).value, es[|es| - 1]);
    }
  }

  // The tables grow in a step just to the number of open connections, or not at all.
  lemma StepCounts(s: System, e: Event)
    requires Invariant(s) && Step(s, e).Done? && CountTrue(UsedFlags(s.reg)) == OpenCount(s.reg)
    ensures var t := Step(s, e).value;
            && CountTrue(UsedFlags(t.reg)) == OpenCount(t.reg)
            && |t.reg.sessions| == Max(|s.reg.sessions|, OpenCount(t.reg))
  {
    hide OpenCount, FindIf;
    match e
    case Connect(c) =>
      if !Live(s.reg, c) {
        ConnectCounts(s.reg, c);
      }
    case Close(c) =>
      CloseOutcome(s.reg, c);
      CloseCounts(s.reg, c);
    case _ =>
  }

  lemma {:induction false} NoneOpen(n: nat, k: nat)
    requires k <= n
    ensures CountTrue(OpenFlags(Initial(n).reg)[..k]) == 0
    ensures k == n ==> OpenCount(Initial(n).reg) == 0
  {
    var flags := OpenFlags(Initial(n).reg);
    assert flags[..n] == flags;
    if k > 0 {
      NoneOpen(n, k - 1);
      assert flags[..k][..k - 1] == flags[..k - 1];
    }
  }

  // ---------------------------------------------------------------- arrival order

  // A request as it waits in the queue, for a session index.
  function Packet(sessionIndex: int, r: Request): (info: PacketInfo)
    ensures info.sessionIndex == sessionIndex && info.data == r
    ensures info.packetId == r.packetId && info.size == r.length
  {
    PacketInfo(sessionIndex, r.packetId, r.length, r)
  }

  // The packets received in a run, in order.
  function Received(n: nat, es: seq<Event>): seq<PacketInfo>
    requires Exec(n, es).Done?
  {
    if es == [] then [] else
      var s, e := Exec(n, es[..|es| - 1]).value, es[|es| - 1];
      Received(n, es[..|es| - 1]) + if e.Receive? then [Packet(s.reg.clients[e.c].sessionIndex, e.request)] else []
  }

  function Infos(calls: seq<Call>): (r: seq<PacketInfo>)
    ensures |r| == |calls|
  {
    seq(|calls|, i requires 0 <= i < |calls| => calls[i].info)
  }

  lemma StepMovesPackets(s: System, e: Event)
    requires |s.outboxes| == |s.reg.clients| && Step(s, e).Done?
    ensures var t := Step(s, e).value;
            Infos(t.served) + t.queue
            == Infos(s.served) + s.queue
               + (if e.Receive? then [Packet(s.reg.clients[e.c].sessionIndex, e.request)] else [])
  {
    hide FindIf, R.OnClose, R.OnConnect, ReadReq;
    var t := Step(s, e).value;
    match e
    case Receive(c, r) =>
      assert t.queue == s.queue + [Packet(s.reg.clients[c].sessionIndex, r)];
    case Process(answer) =>
      if s.queue != [] {
        assert Infos(t.served) == Infos(s.served) + [s.queue[0]];
        assert s.queue == [s.queue[0]] + s.queue[1..];
      }
    case _ =>
  }

  // Every packet is handled once, in arrival order, or still waits in the queue.
  lemma {:induction false} FirstInFirstOut(n: nat, es: seq<Event>)
    requires Exec(n, es).Done?
    ensures var s := Exec(n, es).value;
            Infos(s.served) + s.queue == Received(n, es)
  {
    hide Step;
    if es != [] {
      FirstInFirstOut(n, es[..|es| - 1]);
      StepMovesPackets(Exec(n, es[..|es| - 1]).value, es[|es| - 1]);
    }
  }

  // The packets of one session.
  function OfSession(infos: seq<PacketInfo>, sessionIndex: int): seq<PacketInfo> {
    if infos == [] then [] else
      (if infos[0].sessionIndex == sessionIndex then [infos[0]] else []) + OfSession(infos[1..], sessionIndex)
  }

  lemma {:induction false} OfSessionConcat(a: seq<PacketInfo>, b: seq<PacketInfo>, k: int)
    ensures OfSession(a + b, k) == OfSession(a, k) + OfSession(b, k)
  {
    if a == [] {
      assert a + b == b;
    } else {
      assert (a + b)[1..] == a[1..] + b && (a + b)[0] == a[0];
      OfSessionConcat(a[1..], b, k);
      var head, x, y := if a[0].sessionIndex == k then [a[0]] else [], OfSession(a[1..], k), OfSession(b, k);
      assert OfSession(a + b, k) == head + OfSession(a[1..] + b, k);
      assert head + (x + y) == (head + x) + y;
    }
  }

  // What a session's requests were handled as is a prefix of what the session sent.
  lemma SessionOrder(n: nat, es: seq<Event>, sessionIndex: int)
    requires Exec(n, es).Done?
    ensures var s := Exec(n, es).value;
            OfSession(Infos(s.served), sessionIndex) + OfSession(s.queue, sessionIndex)
            == OfSession(Received(n, es), sessionIndex)
  {
    var s := Exec(n, es).value;
    FirstInFirstOut(n, es);
    OfSessionConcat(Infos(s.served), s.queue, sessionIndex);
  }

  // ---------------------------------------------------------------- routing

  lemma {:induction false} PrefixDone(n: nat, es: seq<Event>, k: nat)
    requires Exec(n, es).Done? && k <= |es|
    ensures Exec(n, es[..k]).Done?
  {
    if k < |es| {
      assert es[..|es| - 1][..k] == es[..k];
      PrefixDone(n, es[..|es| - 1], k);
    } else {
      assert es[..k] == es;
    }
  }

  // A session index once given stays with its connection until that connection closes.
  lemma {:induction false} SessionStays(n: nat, es: seq<Event>, i: nat, c: nat)
    requires i <= |es| && Exec(n, es).Done?
    requires Exec(n, es[..i]).Done? && Live(Exec(n, es[..i]).value.reg, c)
    requires forall k :: i <= k < |es| ==> es[k] != Close(c)
    ensures Exec(n, es).value.reg.clients[c] == Exec(n, es[..i]).value.reg.clients[c]
  {
    if i == |es| {
      assert es[..i] == es;
    } else {
      var before := es[..|es| - 1];
      assert before[..i] == es[..i];
      SessionStays(n, before, i, c);
      StepKeepsSession(Exec(n, before).value, es[|es| - 1], c);
    }
  }

  lemma StepKeepsSession(s: System, e: Event, c: nat)
    requires Invariant(s) && Live(s.reg, c) && e != Close(c) && Step(s, e).Done?
    ensures Step(s, e).value.reg.clients[c] == s.reg.clients[c]
  {
    match e
    case Connect(d) =>
      if !Live(s.reg, d) {
        ConnectKeepsLockstep(s.reg, d);
      }
    case Close(d) =>
      CloseOutcome(s.reg, d);
    case _ =>
  }

  // The packets received by a prefix come first.
  lemma {:induction false} ReceivedPrefix(n: nat, es: seq<Event>, k: nat)
    requires k <= |es| && Exec(n, es).Done? && Exec(n, es[..k]).Done?
    ensures Received(n, es[..k]) <= Received(n, es)
  {
    if k == |es| {
      assert es[..k] == es;
    } else {
      var before := es[..|es| - 1];
      assert before[..k] == es[..k];
      ReceivedPrefix(n, before, k);
    }
  }

  // The connection that the session index of a packet belongs to when its turn comes.
  predicate Holds(s: System, c: nat, sessionIndex: int) {
    c < |s.reg.clients| && s.reg.clients[c].sessionIndex == sessionIndex
  }

  // The player of connection c was handed to the handler of the packet, and the reply went
  // to connection c only: same sequence number, packet id one higher.
  ghost predicate Answered(s: System, t: System, info: PacketInfo, c: nat, answer: Answer)
    requires |s.outboxes| == |s.reg.clients| && c < |s.reg.clients| && answer.Wrote? && s.queue != []
  {
    var player := PlayerRec(s.reg.clients[c].playerUID, s.reg.clients[c].sessionIndex);
    var reply := Reply(ReplySize(info.packetId), info.data.packetId + 1, info.data.sequence,
                       info.data.session, answer.result, answer.payload);
    && t.served == s.served + [Call(Some(player), info)]
    && t.outboxes == s.outboxes[c := s.outboxes[c] + [reply]]
    && t.queue == s.queue[1..] && t.reg == s.reg
    && t.handlers == s.handlers[info.packetId := Handler(info.data, reply)]
  }

  // Whatever the front packet: handling it completes exactly when its id has a handler, the
  // logic returns, its session index is in use now, and no slot below is empty.
  lemma FrontOutcome(s: System, answer: Answer)
    requires Invariant(s) && s.queue != []
    ensures var info, o := s.queue[0], Step(s, Process(answer));
            var k := info.sessionIndex;
            && (o.Done? <==>
                  && info.packetId in REQUEST_IDS && answer.Wrote?
                  && 1 <= k <= |s.reg.sessions| && s.reg.sessions[k - 1].inUse && NoGapBelow(s.reg, k - 1))
            && (o.Done? ==>
                  && s.reg.sessions[k - 1].client.Some? && Holds(s, s.reg.sessions[k - 1].client.value, k)
                  && Answered(s, o.value, info, s.reg.sessions[k - 1].client.value, answer))
  {
    var k := s.queue[0].sessionIndex;
    if 1 <= k <= |s.reg.sessions| {
      assert SlotAgrees(s.reg, k - 1);
      if s.reg.sessions[k - 1].inUse {
        LookupOutcome(s.reg, k - 1);
      }
    }
  }

  // When handling the front packet completes, a connection is answered exactly when it
  // holds the packet's session index at that moment; any other outbox is as before.
  lemma AnsweredIsHolder(s: System, answer: Answer, c: nat)
    requires Invariant(s) && s.queue != [] && c < |s.reg.clients|
    requires Step(s, Process(answer)).Done?
    ensures var info, t := s.queue[0], Step(s, Process(answer)).value;
            && (Holds(s, c, info.sessionIndex) <==> answer.Wrote? && Answered(s, t, info, c, answer))
            && (Holds(s, c, info.sessionIndex) <==> t.outboxes[c] != s.outboxes[c])
  {
    FrontOutcome(s, answer);
    var k := s.queue[0].sessionIndex;
    assert SlotAgrees(s.reg, k - 1) && ClientAgrees(s.reg, c);
    var d := s.reg.sessions[k - 1].client.value;
    assert s.outboxes[d] + [Step(s, Process(answer)).value.outboxes[d][|s.outboxes[d]|]] != s.outboxes[d];
  }

  lemma HolderOutcome(s: System, answer: Answer, c: nat)
    requires Invariant(s) && s.queue != [] && Live(s.reg, c) && Holds(s, c, s.queue[0].sessionIndex)
    ensures var info, o := s.queue[0], Step(s, Process(answer));
            && (o.Done? <==>
                  info.packetId in REQUEST_IDS && NoGapBelow(s.reg, info.sessionIndex - 1) && answer.Wrote?)
            && (o.Done? ==> Answered(s, o.value, info, c, answer))
  {
    assert ClientAgrees(s.reg, c);
    hide Step, Answered, NoGapBelow;
    FrontOutcome(s, answer);
  }

  // The request r of connection c was read by the handler of its id and answered: one reply,
  // to c and to no other connection, with the id after the request's, its sequence and
  // session numbers and the size of its structure.
  predicate Replied(s: System, t: System, c: nat, r: Request, answer: Answer)
    requires answer.Wrote?
  {
    && |t.outboxes| == |s.outboxes| && c < |s.outboxes|
    && (forall d :: 0 <= d < |s.outboxes| && d != c ==> t.outboxes[d] == s.outboxes[d])
    && |t.outboxes[c]| == |s.outboxes[c]| + 1 && t.outboxes[c][..|s.outboxes[c]|] == s.outboxes[c]
    && var reply := t.outboxes[c][|s.outboxes[c]|];
    && reply.packetId == r.packetId + 1 && reply.sequence == r.sequence && reply.session == r.session
    && reply.length == SizeOf(BASE_PACKET) + SizeOf(ReplyFields(r.packetId))
    && reply.result == answer.result && reply.payload == answer.payload
    && r.packetId in t.handlers && t.handlers[r.packetId].req == r && t.handlers[r.packetId].res == reply
  }

  lemma AnsweredIsReplied(s: System, t: System, k: int, r: Request, c: nat, answer: Answer)
    requires |s.outboxes| == |s.reg.clients| && c < |s.reg.clients| && answer.Wrote? && s.queue != []
    requires Answered(s, t, Packet(k, r), c, answer)
    ensures Replied(s, t, c, r, answer)
  {
    ReplyLength(r.packetId);
    hide SizeOf, ReplyFields, ReplySize;
  }

  // In any interleaving, take a request r received at step i and the later state in which
  // its turn comes: it is at the front, as it was sent.  If handling it completes, its
  // sender is answered exactly when it holds the session index of the packet at that moment.
  lemma Routed(n: nat, es: seq<Event>, i: nat, answer: Answer)
    requires i < |es| && Exec(n, es).Done? && es[i].Receive?
    requires Exec(n, es[..i]).Done? && |Exec(n, es).value.served| == |Received(n, es[..i])|
    ensures var s, c, r, before := Exec(n, es).value, es[i].c, es[i].request, Exec(n, es[..i]).value;
            && c < n
            && var k, o := before.reg.clients[c].sessionIndex, Step(s, Process(answer));
            && s.queue != [] && s.queue[0].sessionIndex == k
            && s.queue[0].packetId == r.packetId && s.queue[0].data == r
            && (o.Done? ==> answer.Wrote? && (Holds(s, c, k) <==> Replied(s, o.value, c, r, answer)))
            && (o.Done? ==> (Holds(s, c, k) <==> o.value.outboxes[c] != s.outboxes[c]))
  {
    AtFront(n, es, i);
    var s, c, r := Exec(n, es).value, es[i].c, es[i].request;
    var k := Exec(n, es[..i]).value.reg.clients[c].sessionIndex;
    FrontOutcome(s, answer);
    hide Exec, Step, FindIf, Answered, Received;
    if Step(s, Process(answer)).Done? {
      AnsweredIsHolder(s, answer, c);
      if Holds(s, c, k) {
        AnsweredIsReplied(s, Step(s, Process(answer)).value, k, r, c, answer);
      }
    }
  }

  lemma AtFront(n: nat, es: seq<Event>, i: nat)
    requires i < |es| && Exec(n, es).Done? && es[i].Receive?
    requires Exec(n, es[..i]).Done? && |Exec(n, es).value.served| == |Received(n, es[..i])|
    ensures es[i].c < n && Exec(n, es).value.queue != []
    ensures Exec(n, es).value.queue[0]
            == Packet(Exec(n, es[..i]).value.reg.clients[es[i].c].sessionIndex, es[i].request)
  {
    var s := Exec(n, es).value;
    FirstInFirstOut(n, es);
    PrefixDone(n, es, i + 1);
    ReceivedPrefix(n, es, i + 1);
    assert es[..i + 1][..i] == es[..i];
    var info := Packet(Exec(n, es[..i]).value.reg.clients[es[i].c].sessionIndex, es[i].request);
    assert Received(n, es[..i + 1]) == Received(n, es[..i]) + [info];
    var at := |s.served|;
    hide Exec, Step;
    assert Received(n, es)[at] == info;
    assert (Infos(s.served) + s.queue)[at] == s.queue[0];
  }

  // In state s the request r of connection c is handled exactly when its id has a handler, no
  // slot below is empty and the logic returns; then the player of c is given to the handler
  // and c alone is answered.
  ghost predicate HandledForSender(s: System, client: ClientRec, c: nat, r: Request, answer: Answer)
    requires |s.outboxes| == |s.reg.clients|
  {
    var o := Step(s, Process(answer));
    && (o.Done? <==>
          && r.packetId in REQUEST_IDS && answer.Wrote?
          && 1 <= client.sessionIndex <= |s.reg.sessions| && NoGapBelow(s.reg, client.sessionIndex - 1))
    && (o.Done? ==>
          && Replied(s, o.value, c, r, answer)
          && |o.value.served| == |s.served| + 1
          && o.value.served[|s.served|].player == Some(PlayerRec(client.playerUID, client.sessionIndex)))
  }

  // If the sender was live and did not close in between, it still holds the session index:
  // handling its request completes exactly when the id has a handler, no slot below is empty
  // and the logic returns; its own player is given to the handler, and the reply is its own.
  lemma RoutedWithoutClose(n: nat, es: seq<Event>, i: nat, answer: Answer)
    requires i < |es| && Exec(n, es).Done? && es[i].Receive?
    requires Exec(n, es[..i]).Done? && |Exec(n, es).value.served| == |Received(n, es[..i])|
    requires Live(Exec(n, es[..i]).value.reg, es[i].c)
    requires forall k :: i < k < |es| ==> es[k] != Close(es[i].c)
    ensures var s, c, r, before := Exec(n, es).value, es[i].c, es[i].request, Exec(n, es[..i]).value;
            && c < n && Holds(s, c, before.reg.clients[c].sessionIndex)
            && HandledForSender(s, before.reg.clients[c], c, r, answer)
  {
    HolderAtFront(n, es, i);
    hide *;
    HolderReplied(Exec(n, es).value, answer, es[i].c, es[i].request);
  }

  lemma HolderAtFront(n: nat, es: seq<Event>, i: nat)
    requires i < |es| && Exec(n, es).Done? && es[i].Receive?
    requires Exec(n, es[..i]).Done? && |Exec(n, es).value.served| == |Received(n, es[..i])|
    requires Live(Exec(n, es[..i]).value.reg, es[i].c)
    requires forall k :: i < k < |es| ==> es[k] != Close(es[i].c)
    ensures var s, c, before := Exec(n, es).value, es[i].c, Exec(n, es[..i]).value;
            && c < n && Live(s.reg, c) && s.reg.clients[c] == before.reg.clients[c]
            && Holds(s, c, before.reg.clients[c].sessionIndex)
            && s.queue != [] && s.queue[0] == Packet(s.reg.clients[c].sessionIndex, es[i].request)
  {
    hide Exec, Received, Invariant;
    AtFront(n, es, i);
    SessionStays(n, es, i, es[i].c);
  }

  lemma HolderReplied(s: System, answer: Answer, c: nat, r: Request)
    requires Invariant(s) && s.queue != [] && Live(s.reg, c) && s.queue[0] == Packet(s.reg.clients[c].sessionIndex, r)
    ensures HandledForSender(s, s.reg.clients[c], c, r, answer)
  {
    assert ClientAgrees(s.reg, c);
    hide Step, NoGapBelow, Replied;
    HolderOutcome(s, answer, c);
    if Step(s, Process(answer)).Done? {
      AnsweredIsReplied(s, Step(s, Process(answer)).value, s.queue[0].sessionIndex, r, c, answer);
    }
  }

  lemma ExecNext(n: nat, es: seq<Event>, e: Event)
    requires Exec(n, es).Done?
    ensures Exec(n, es + [e]) == Step(Exec(n, es).value, e)
  {
    assert (es + [e])[..|es|] == es;
  }

  // The condition is needed: after a close the next connection takes the freed session
  // index, and the reply to the first connection's request goes to the second.
  lemma Misrouted(r: Request, payload: Bytes)
    requires r.packetId in REQUEST_IDS
    ensures var es := [Connect(0), Receive(0, r), Close(0), Connect(1), Process(Wrote(1, payload))];
            && Exec(2, es).Done?
            && |Exec(2, es).value.outboxes[0]| == 0
            && |Exec(2, es).value.outboxes[1]| == 1
            && Exec(2, es).value.outboxes[1][0].sequence == r.sequence
  {
    var e1, e2, e3, e4 := [Connect(0)], [Connect(0), Receive(0, r)], [Connect(0), Receive(0, r), Close(0)],
                          [Connect(0), Receive(0, r), Close(0), Connect(1)];
    var answer := Process(Wrote(1, payload));
    var s0 := Initial(2);
    assert Exec(2, []) == Done(s0);
    hide Exec, FindIf, R.OnConnect, R.OnClose, ReadReq;
    ExecNext(2, [], Connect(0));
    assert [] + [Connect(0)] == e1;
    ConnectKeepsLockstep(s0.reg, 0);
    var s1 := Exec(2, e1).value;
    assert s1.reg.sessions == [SessionRec(1, true, Some(0), Some(0))];
    ExecNext(2, e1, Receive(0, r));
    assert e1 + [Receive(0, r)] == e2;
    var s2 := Exec(2, e2).value;
    ExecNext(2, e2, Close(0));
    assert e2 + [Close(0)] == e3;
    CloseOutcome(s2.reg, 0);
    FreedKeepsLockstep(s2.reg, 0);
    var s3 := Exec(2, e3).value;
    ExecNext(2, e3, Connect(1));
    assert e3 + [Connect(1)] == e4;
    ConnectKeepsLockstep(s3.reg, 1);
    var s4 := Exec(2, e4).value;
    assert s4.reg.sessions == [SessionRec(1, true, Some(0), Some(1))];
    ExecNext(2, e4, answer);
    assert e4 + [answer] == [Connect(0), Receive(0, r), Close(0), Connect(1), answer];
    LookupOutcome(s4.reg, 0);
  }

  // A run the server can receive: two connections open and the first one closes, which
  // leaves an empty slot below the second.
  lemma GapBelowSecond()
    ensures var o := Exec(2, [Connect(0), Connect(1), Close(0)]);
            && o.Done? && o.value.queue == []
            && o.value.reg == State([None, Some(PlayerRec(1, 2))],
                                    [SessionRec(1, false, None, None), SessionRec(2, true, Some(1), Some(1))],
                                    [ClientRec(0, 0), ClientRec(2, 1)])
  {
    var e1, e2, e3 := [Connect(0)], [Connect(0), Connect(1)], [Connect(0), Connect(1), Close(0)];
    var s0 := Initial(2);
    assert Exec(2, []) == Done(s0);
    hide Exec, FindIf, R.OnConnect, R.OnClose, ProcessPacket;
    ExecNext(2, [], Connect(0));
    assert [] + [Connect(0)] == e1;
    ConnectKeepsLockstep(s0.reg, 0);
    var s1 := Exec(2, e1).value;
    assert s1.reg.sessions == [SessionRec(1, true, Some(0), Some(0))];
    ExecNext(2, e1, Connect(1));
    assert e1 + [Connect(1)] == e2;
    ConnectKeepsLockstep(s1.reg, 1);
    var s2 := Exec(2, e2).value;
    assert s2.reg.players == [Some(PlayerRec(0, 1)), Some(PlayerRec(1, 2))];
    ExecNext(2, e2, Close(0));
    assert e2 + [Close(0)] == e3;
    CloseOutcome(s2.reg, 0);
  }

  // From there, closing the second connection dereferences the empty slot.
  lemma CloseCrashes()
    ensures Exec(2, [Connect(0), Connect(1), Close(0), Close(1)]) == Failed(NullSlot)
  {
    var es := [Connect(0), Connect(1), Close(0)];
    GapBelowSecond();
    ExecNext(2, es, Close(1));
    assert es + [Close(1)] == [Connect(0), Connect(1), Close(0), Close(1)];
    var s := Exec(2, es).value;
    hide Exec;
    CloseOutcome(s.reg, 1);
    assert !NoGapBelow(s.reg, 1) by {
      assert s.reg.players[0].None?;
    }
  }

  // So does handling a packet of the second connection.
  lemma PacketCrashes(r: Request, answer: Answer)
    requires r.packetId in REQUEST_IDS
    ensures Exec(2, [Connect(0), Connect(1), Close(0), Receive(1, r), Process(answer)]) == Failed(NullSlot)
  {
    var e3, e4 := [Connect(0), Connect(1), Close(0)], [Connect(0), Connect(1), Close(0), Receive(1, r)];
    GapBelowSecond();
    ExecNext(2, e3, Receive(1, r));
    assert e3 + [Receive(1, r)] == e4;
    ExecNext(2, e4, Process(answer));
    assert e4 + [Process(answer)] == [Connect(0), Connect(1), Close(0), Receive(1, r), Process(answer)];
    var s := Exec(2, e4).value;
    assert s.handlers.Keys == REQUEST_IDS;
    hide Exec, FindIf, R.OnConnect, R.OnClose, ReadReq, ProcessPacket, PlayerFor;
    FirstSlotCrashes(s, answer);
  }

  // With the first slot empty no packet gets past the lookup of its player.
  lemma FirstSlotCrashes(s: System, answer: Answer)
    requires |s.outboxes| == |s.reg.clients| && s.queue != [] && s.queue[0].packetId in s.handlers
    requires s.reg.players != [] && s.reg.players[0].None?
    ensures Step(s, Process(answer)) == Failed(NullSlot)
  {
  }
}
