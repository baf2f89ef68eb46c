/**
 The connection registry as values: two slot tables with independent first-fit
 allocators, linked only by the pointers and indices that sessions, players and clients
 hold of each other.
 */
module Registry {
  import opened Wrappers
  import opened Integers

  datatype PlayerRec = PlayerRec(uid: int, sessionIndex: int)

  // `player` is the slot of the player object pointed to, `client` the position of the
  // connection object pointed to.
  datatype SessionRec = SessionRec(sessionIndex: int, inUse: bool, player: Option<nat>, client: Option<nat>)

  datatype ClientRec = ClientRec(sessionIndex: int, playerUID: int)

  datatype State = State(
    players: seq<Option<PlayerRec>>,
    sessions: seq<SessionRec>,
    clients: seq<ClientRec>)

  // The ways in which a callback of the server ends the process.
  datatype Fault =
    | NoSuchClient      // a null connection object is dereferenced
    | NoSession         // the checked session lookup throws
    | NullSlot          // a scan of the player table dereferences an emptied slot
    | DanglingPlayer    // a session without a valid player is dereferenced
    | DeletedPlayer     // a room dereferences a player that was deleted
    | UnknownPacket     // no handler for the packet id
    | LogicFailed       // the handler itself dereferences a missing player or room

  datatype Outcome<+T> = Done(value: T) | Failed(fault: Fault)

  // ---------------------------------------------------------------- the two allocators

  function FirstEmpty(players: seq<Option<PlayerRec>>): (i: nat)
    ensures i <= |players|
    ensures forall j :: 0 <= j < i ==> players[j].Some?
    ensures i < |players| ==> players[i].None?
  {
    if players == [] || players[0].None? then 0 else 1 + FirstEmpty(players[1..])
  }

  function FirstUnused(sessions: seq<SessionRec>): (i: nat)
    ensures i <= |sessions|
    ensures forall j :: 0 <= j < i ==> sessions[j].inUse
    ensures i < |sessions| ==> !sessions[i].inUse
  {
    if sessions == [] || !sessions[0].inUse then 0 else 1 + FirstUnused(sessions[1..])
  }

  // Reuse slot i, or grow the table by one.
  function Put<T>(xs: seq<T>, i: nat, x: T): seq<T>
    requires i <= |xs|
  {
    if i < |xs| then xs[i := x] else xs + [x]
  }

  // The session takes the player in slot p and the connection c, and tells both its index.
  function SetSession(s: State, k: nat, index: int, p: nat, c: nat): State
    requires k <= |s.sessions| && p < |s.players| && s.players[p].Some? && c < |s.clients|
  {
    State(s.players[p := Some(s.players[p].value.(sessionIndex := index))],
          Put(s.sessions, k, SessionRec(index, true, Some(p), Some(c))),
          s.clients[c := s.clients[c].(sessionIndex := index)])
  }

  function AddSession(s: State, p: nat, c: nat): State
    requires p < |s.players| && s.players[p].Some? && c < |s.clients|
  {
    var k := FirstUnused(s.sessions);
    SetSession(s, k, if k < |s.sessions| then s.sessions[k].sessionIndex else |s.sessions| + 1, p, c)
  }

  function OnConnect(s: State, c: nat): State
    requires c < |s.clients|
  {
    var p := FirstEmpty(s.players);
    var s1 := s.(players := Put(s.players, p, Some(PlayerRec(p, 0))),
                 clients := s.clients[c := s.clients[c].(playerUID := p)]);
    AddSession(s1, p, c)
  }

  // ---------------------------------------------------------------- scans and removal

  datatype Scan = Found(slot: nat) | Absent | HitNull

  datatype Key = ByUID(uid: int) | BySession(index: int)
  {
    predicate Matches(p: PlayerRec) {
      match this
      case ByUID(uid) => p.uid == uid
      case BySession(index) => p.sessionIndex == index
    }
  }

  // `find_if` over the player table with a test that dereferences every slot it visits.
  function FindIf(players: seq<Option<PlayerRec>>, key: Key, from: nat): (r: Scan)
    requires from <= |players|
    ensures r.Found? ==> from <= r.slot < |players| && players[r.slot].Some? && key.Matches(players[r.slot].value)
    decreases |players| - from
  {
    if from == |players| then Absent
    else if players[from].None? then HitNull
    else if key.Matches(players[from].value) then Found(from)
    else FindIf(players, key, from + 1)
  }

  function RemovePlayer(s: State, uid: int): Outcome<State> {
    match FindIf(s.players, ByUID(uid), 0)
    case Found(i) => Done(s.(players := s.players[i := None]))
    case Absent => Done(s)
    case HitNull => Failed(NullSlot)
  }

  function CloseSession(s: State, k: nat): Outcome<State>
    requires k < |s.sessions|
  {
    match s.sessions[k]
    case SessionRec(index, _, Some(p), Some(c)) =>
      if p < |s.players| && s.players[p].Some? && c < |s.clients| then
        Done(State(s.players[p := Some(s.players[p].value.(sessionIndex := 0))],
                   s.sessions[k := SessionRec(index, false, None, None)],
                   s.clients[c := s.clients[c].(sessionIndex := 0)]))
      else
        Failed(DanglingPlayer)
    case _ => Failed(DanglingPlayer)
  }

  function OnClose(s: State, c: nat): Outcome<State> {
    if c >= |s.clients| then Failed(NoSuchClient) else
      var k := s.clients[c].sessionIndex - 1;
      if !(0 <= k < |s.sessions|) then Failed(NoSession) else
        match s.sessions[k].player
        case None => Failed(DanglingPlayer)
        case Some(p) =>
          if !(p < |s.players| && s.players[p].Some?) then Failed(DanglingPlayer) else
            var uid := s.players[p].value.uid;
            match CloseSession(s, k)
            case Failed(f) => Failed(f)
            case Done(s1) => RemovePlayer(s1, uid)
  }

  // ---------------------------------------------------------------- lockstep

  // Slot i of both tables belongs to one live connection, or is free in both.
  predicate SlotAgrees(s: State, i: nat)
    requires i < |s.players| && i < |s.sessions|
  {
    && s.sessions[i].sessionIndex == i + 1
    && (if s.sessions[i].inUse then
          && s.players[i] == Some(PlayerRec(i, i + 1))
          && s.sessions[i].player == Some(i)
          && s.sessions[i].client.Some?
          && s.sessions[i].client.value < |s.clients|
          && s.clients[s.sessions[i].client.value] == ClientRec(i + 1, i)
        else
          s.players[i].None? && s.sessions[i].player.None? && s.sessions[i].client.None?)
  }

  // A connection that has a session index is the one the session points back to.
  predicate ClientAgrees(s: State, c: nat)
    requires c < |s.clients|
  {
    var k := s.clients[c].sessionIndex - 1;
    k != -1 ==> 0 <= k < |s.sessions| && s.sessions[k].inUse && s.sessions[k].client == Some(c)
  }

  ghost predicate Lockstep(s: State) {
    && |s.players| == |s.sessions|
    && (forall i :: 0 <= i < |s.sessions| ==> SlotAgrees(s, i))
    && (forall c :: 0 <= c < |s.clients| ==> ClientAgrees(s, c))
  }

  predicate Live(s: State, c: nat) {
    c < |s.clients| && s.clients[c].sessionIndex != 0
  }

  // The two independent searches stop at the same slot.
  lemma SameSlot(players: seq<Option<PlayerRec>>, sessions: seq<SessionRec>)
    requires |players| == |sessions|
    requires forall i :: 0 <= i < |sessions| ==> (players[i].Some? <==> sessions[i].inUse)
    ensures FirstEmpty(players) == FirstUnused(sessions)
  {
  }

  lemma ConnectKeepsLockstep(s: State, c: nat)
    requires Lockstep(s) && c < |s.clients| && !Live(s, c)
    ensures var t, i := OnConnect(s, c), FirstUnused(s.sessions);
            && Lockstep(t)
            && |t.sessions| == Max(|s.sessions|, i + 1)
            && t.clients == s.clients[c := ClientRec(i + 1, i)]
            && t.sessions == Put(s.sessions, i, SessionRec(i + 1, true, Some(i), Some(c)))
            && t.players == Put(s.players, i, Some(PlayerRec(i, i + 1)))
            && FirstEmpty(s.players) == i
  {
    PlayersNumbered(s);
    SameSlot(s.players, s.sessions);
    var i, t := FirstUnused(s.sessions), OnConnect(s, c);
    assert i < |s.sessions| ==> SlotAgrees(s, i) && !s.sessions[i].inUse;
    hide FirstEmpty, FirstUnused;
    forall j | 0 <= j < |t.sessions| ensures SlotAgrees(t, j) {
      if j < |s.sessions| {
        assert SlotAgrees(s, j);
      }
    }
    forall d | 0 <= d < |t.clients| ensures ClientAgrees(t, d) {
      assert ClientAgrees(s, d);
    }
  }

  // A scan for a key that only slot k holds finds it exactly when it meets no empty slot
  // on the way.
  lemma {:induction false} ScanFinds(players: seq<Option<PlayerRec>>, key: Key, from: nat, k: nat)
    requires from <= k < |players| && players[k].Some? && key.Matches(players[k].value)
    requires forall j :: from <= j < k && players[j].Some? ==> !key.Matches(players[j].value)
    ensures FindIf(players, key, from)
            == if (forall j :: from <= j < k ==> players[j].Some?) then Found(k) else HitNull
    decreases k - from
  {
    if from < k && players[from].Some? {
      ScanFinds(players, key, from + 1, k);
    }
  }

  predicate NoGapBelow(s: State, k: int) {
    forall j :: 0 <= j < k && j < |s.players| ==> s.players[j].Some?
  }

  lemma PlayersNumbered(s: State)
    requires Lockstep(s)
    ensures forall j :: 0 <= j < |s.players| ==> (s.players[j].Some? <==> s.sessions[j].inUse)
    ensures forall j :: 0 <= j < |s.players| && s.players[j].Some? ==> s.players[j].value == PlayerRec(j, j + 1)
    ensures forall j :: 0 <= j < |s.sessions| ==> s.sessions[j].sessionIndex == j + 1
  {
    forall j | 0 <= j < |s.players|
      ensures s.players[j].Some? <==> s.sessions[j].inUse
      ensures s.players[j].Some? ==> s.players[j].value == PlayerRec(j, j + 1)
      ensures s.sessions[j].sessionIndex == j + 1
    {
      assert SlotAgrees(s, j);
    }
  }

  // A lookup by session index finds the one player bound to that live session, exactly
  // when every lower slot is occupied; otherwise it dereferences an empty slot.
  lemma LookupOutcome(s: State, k: nat)
    requires Lockstep(s) && k < |s.sessions| && s.sessions[k].inUse
    ensures s.players[k] == Some(PlayerRec(k, k + 1))
    ensures FindIf(s.players, BySession(k + 1), 0) == if NoGapBelow(s, k) then Found(k) else HitNull
    ensures FindIf(s.players, ByUID(k), 0) == if NoGapBelow(s, k) then Found(k) else HitNull
  {
    PlayersNumbered(s);
    ScanFinds(s.players, BySession(k + 1), 0, k);
    ScanFinds(s.players, ByUID(k), 0, k);
  }

  // Closing the session of a live connection clears the record's references; the scan for
  // the player that follows then depends only on the slots below.
  lemma CloseSessionOutcome(s: State, c: nat)
    requires Lockstep(s) && Live(s, c)
    ensures var k := s.clients[c].sessionIndex - 1;
            && 0 <= k < |s.sessions|
            && s.sessions[k] == SessionRec(k + 1, true, Some(k), Some(c))
            && s.players[k] == Some(PlayerRec(k, k + 1))
            && CloseSession(s, k)
               == Done(State(s.players[k := Some(PlayerRec(k, 0))],
                             s.sessions[k := SessionRec(k + 1, false, None, None)],
                             s.clients[c := s.clients[c].(sessionIndex := 0)]))
            && FindIf(s.players[k := Some(PlayerRec(k, 0))], ByUID(k), 0)
               == (if NoGapBelow(s, k) then Found(k) else HitNull)
            && (forall i :: 0 <= i < |s.sessions| && i != k ==> s.sessions[i].player != Some(k))
  {
    assert ClientAgrees(s, c);
    var k := s.clients[c].sessionIndex - 1;
    assert SlotAgrees(s, k);
    PlayersNumbered(s);
    var players := s.players[k := Some(PlayerRec(k, 0))];
    ScanFinds(players, ByUID(k), 0, k);
    assert forall j :: 0 <= j < k ==> s.players[j] == players[j];
    forall i | 0 <= i < |s.sessions| && i != k ensures s.sessions[i].player != Some(k) {
      assert SlotAgrees(s, i);
    }
  }

  // A close completes exactly for a live connection with no empty slot below its own; it
  // then frees that slot in both tables and touches nothing else.
  lemma CloseOutcome(s: State, c: nat)
    requires Lockstep(s)
    ensures OnClose(s, c)
            == if c >= |s.clients| then Failed(NoSuchClient)
               else if !Live(s, c) then Failed(NoSession)
               else if !NoGapBelow(s, s.clients[c].sessionIndex - 1) then Failed(NullSlot)
               else Done(Freed(s, c))
  {
    if Live(s, c) {
      CloseSessionOutcome(s, c);
      var k := s.clients[c].sessionIndex - 1;
      assert s.players[k := Some(PlayerRec(k, 0))][k := None] == s.players[k := None];
    }
  }

  function Freed(s: State, c: nat): State
    requires Lockstep(s) && Live(s, c)
  {
    assert ClientAgrees(s, c);
    var k := s.clients[c].sessionIndex - 1;
    State(s.players[k := None],
          s.sessions[k := SessionRec(k + 1, false, None, None)],
          s.clients[c := s.clients[c].(sessionIndex := 0)])
  }

  lemma FreedKeepsLockstep(s: State, c: nat)
    requires Lockstep(s) && Live(s, c)
    ensures Lockstep(Freed(s, c)) && !Live(Freed(s, c), c)
  {
    assert ClientAgrees(s, c);
    var k, t := s.clients[c].sessionIndex - 1, Freed(s, c);
    assert SlotAgrees(s, k);
    forall j | 0 <= j < |t.sessions| ensures SlotAgrees(t, j) {
      assert SlotAgrees(s, j);
    }
    forall d | 0 <= d < |t.clients| ensures ClientAgrees(t, d) {
      assert ClientAgrees(s, d);
    }
  }

  // Lockstep is a bijection: a live slot names its connection and the connection names
  // its slot, so no two live slots share a player, a session index or a connection.
  lemma Bijection(s: State)
    requires Lockstep(s)
    ensures forall i, j :: 0 <= i < j < |s.sessions| && s.sessions[i].inUse && s.sessions[j].inUse ==>
              && s.sessions[i].client != s.sessions[j].client
              && s.sessions[i].player != s.sessions[j].player
              && s.players[i] != s.players[j]
    ensures forall c :: 0 <= c < |s.clients| && Live(s, c) ==>
              exists i :: 0 <= i < |s.sessions| && s.sessions[i].inUse && s.sessions[i].client == Some(c)
  {
    forall i, j | 0 <= i < j < |s.sessions| && s.sessions[i].inUse && s.sessions[j].inUse
      ensures s.sessions[i].client != s.sessions[j].client && s.sessions[i].player != s.sessions[j].player
              && s.players[i] != s.players[j]
    {
      assert SlotAgrees(s, i) && SlotAgrees(s, j);
    }
    forall c | 0 <= c < |s.clients| && Live(s, c)
      ensures exists i :: 0 <= i < |s.sessions| && s.sessions[i].inUse && s.sessions[i].client == Some(c)
    {
      assert ClientAgrees(s, c);
      assert s.sessions[s.clients[c].sessionIndex - 1].inUse;
    }
  }

  // ---------------------------------------------------------------- open connections

  function CountTrue(flags: seq<bool>): (n: nat)
    ensures n <= |flags|
  {
    if flags == [] then 0 else
      (if flags[|flags| - 1] then 1 else 0) + CountTrue(flags[..|flags| - 1])
  }

  function OpenFlags(s: State): seq<bool> {
    seq(|s.clients|, c requires 0 <= c < |s.clients| => s.clients[c].sessionIndex != 0)
  }

  function UsedFlags(s: State): seq<bool> {
    seq(|s.sessions|, i requires 0 <= i < |s.sessions| => s.sessions[i].inUse)
  }

  // How many connections are open.
  function OpenCount(s: State): nat {
    CountTrue(OpenFlags(s))
  }

  lemma {:induction false} CountFull(flags: seq<bool>)
    requires forall j :: 0 <= j < |flags| ==> flags[j]
    ensures CountTrue(flags) == |flags|
  {
    if flags != [] {
      CountFull(flags[..|flags| - 1]);
    }
  }

  lemma {:induction false} CountUpdate(flags: seq<bool>, i: nat, b: bool)
    requires i < |flags|
    ensures CountTrue(flags[i := b])
            == CountTrue(flags) - (if flags[i] then 1 else 0) + (if b then 1 else 0)
  {
    var n := |flags| - 1;
    if i < n {
      assert flags[i := b][..n] == flags[..n][i := b];
      CountUpdate(flags[..n], i, b);
    } else {
      assert flags[i := b][..n] == flags[..n];
    }
  }

  // A connect opens one connection and takes one slot; the tables grow only when every
  // slot is taken.
  lemma ConnectCounts(s: State, c: nat)
    requires Lockstep(s) && c < |s.clients| && !Live(s, c)
    ensures var t := OnConnect(s, c);
            && OpenCount(t) == OpenCount(s) + 1
            && CountTrue(UsedFlags(t)) == CountTrue(UsedFlags(s)) + 1
            && |t.sessions| == Max(|s.sessions|, CountTrue(UsedFlags(t)))
  {
    ConnectKeepsLockstep(s, c);
    var i, t := FirstUnused(s.sessions), OnConnect(s, c);
    CountUpdate(OpenFlags(s), c, true);
    assert OpenFlags(t) == OpenFlags(s)[c := true];
    if i < |s.sessions| {
      CountUpdate(UsedFlags(s), i, true);
      assert UsedFlags(t) == UsedFlags(s)[i := true];
    } else {
      CountFull(UsedFlags(s));
      assert UsedFlags(t)[..|s.sessions|] == UsedFlags(s);
    }
  }

  lemma CloseCounts(s: State, c: nat)
    requires Lockstep(s) && Live(s, c)
    ensures OpenCount(Freed(s, c)) == OpenCount(s) - 1
    ensures CountTrue(UsedFlags(Freed(s, c))) == CountTrue(UsedFlags(s)) - 1
  {
    assert ClientAgrees(s, c);
    var k, t := s.clients[c].sessionIndex - 1, Freed(s, c);
    CountUpdate(OpenFlags(s), c, false);
    assert OpenFlags(t) == OpenFlags(s)[c := false];
    CountUpdate(UsedFlags(s), k, false);
    assert UsedFlags(t) == UsedFlags(s)[k := false];
  }
}
