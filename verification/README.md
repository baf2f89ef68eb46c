# IOCPTetris verification

A Dafny model of the stateful core of IOCPTetris, a client and server for a two-player
falling-block game, and proofs about whole runs of it.

| file | what it models |
|---|---|
| `StepTimer.dfy`, `StepTimerRuns.dfy` | the client's fixed/variable step timer: one tick, the `Timer` class with its draining loop, and what runs of ticks, mode switches, target changes and resets keep |
| `Registry.dfy` | the connection registry as values: player table, session table and connection records, with connect, close and the `find_if` scans |
| `Pipeline.dfy`, `PipelineRuns.dfy` | the server as one transition system of connect, close, receive and process steps, and its run theorems |
| `RegistryObjects.dfy`, `Server.dfy` | the same on the heap: players, sessions, connections, the two managers, the server callbacks and the packet consumer, each method proved to be one step |
| `Rooms.dfy`, `RoomPages.dfy`, `RoomObjects.dfy`, `RoomHandlers.dfy` | the room directory under entries, leaves, games and disconnects, the pages of the room list, the room objects, and the shared handlers with their persistent replies |
| `DeviceResources.dfy`, `OutputSelection.dfy` | recovery from a lost graphics device, and the choice of the display output |
| `Integers.dfy`, `Wrappers.dfy` | wrapping machine integers, division facts, optional values |

The registry, the packet consumer, the timer, the room manager and the device wrapper change
state in place and are classes.  Each has a value (`View`, or a ghost field that `Valid` or
`Tied` ties to the objects), every method states its new value by a function, and the run
theorems are lemmas about these functions.

Modelling choices:

- Unsigned 64-bit and 32-bit counters wrap explicitly, and so does the 32-bit page product.
- A failed clock, a checked lookup out of range, a null slot under a scan, an unknown packet
  id and a crashing handler are outcomes, not preconditions.  Run theorems speak about runs in
  which no such fault has ended the process.
- Connect, close, receive and process are atomic steps in any order.  The source takes no lock
  around connect and close, so real interleavings inside one callback are not covered.
- `OnConnect` is taken to be called only for a connection without a session, and `OnReceive` with
  the connection's session index at that moment.  The caller, `IOCPServer.cpp`, is not part of
  this model.
- A room is an index, a limit, a playing flag and a list of players.  Adding and removing a
  player, and the loops of a game's start and stop over the members, follow
  `IOCPTetrisServer/Game/Room.cpp`.
- A player object that was deleted has a mark, and reading one is a fault.  An entry of a room's
  list is a connected player by session index, or what is left of a deleted one.
- The handlers' calls are recorded, with the player object each was given, in an object that only
  the handlers write.
- What a handler's logic writes into its reply is an arbitrary answer in the pipeline; the room
  handlers' own logic is in `RoomHandlers.dfy`.
- The driver's answers in `DeviceResources.dfy` are arbitrary.  Each is recorded with its call, in
  a trace that only the asking method writes, and the contracts speak of that trace.  Calls that
  the source makes for one purpose, such as looking through the adapters, are one call.  A handle
  is the number of the device it was made from.

Where the code does not do what its comments or callers expect, the model follows the code:

- The comment at `IOCPTetrisClient/StepTimer.h:110` says that the scaling cannot overflow.  That
  holds exactly for frequencies with (F/10)*10^7 < 2^64 (`ScaleFitsExactly`,
  `ConversionLossExactly`), and `ScaleOverflows` gives one where it does not.
- A target within 2500 ticks of 2^64 attracts small deltas around the circle, and only such a
  target does (`SnapLossExactly`).
- The accumulator of the timer can wrap for targets near 2^64 (`WrapLosesTime`); time is then lost
  in units of 2^64 ticks and in no other way (`Conservation`).
- The frame-rate counter misses a tick of 2^32 updates (`FrameMissed`, exactly when:
  `MissedExactly`).  No run misses one while its targets stay below about 429 seconds
  (`NeverMisses`).
- With a zero target in fixed mode the draining loop never ends (`DrainEnds`).
- A close, or a packet, for slot i dereferences an emptied slot exactly when some lower slot is
  empty (`CloseOutcome`, `FrontOutcome`); `CloseCrashes` and `PacketCrashes` are runs that get there.
- A reply goes to whoever holds the packet's session index when its turn comes (`Routed`).  After
  a close that may be another connection (`Misrouted`); without one it never is
  (`RoutedWithoutClose`).
- A room is not told when a connection closes.  A player who disconnects inside a room leaves an
  entry that stays for good (`GoneStays`), and the next entry, or a leave or a game there, may end
  the process (`StepOutcome`, `Abandoned`); exactly the runs in which everyone leaves first are
  free of it (`CleanExactly`, `NeverDangles`).  A may-enter answer does not tell
  (`CanEnterThenEnter`).
- Nothing stops a player in a room from entering another one, or the same one again, and then the
  lists and the players' own room indices part (`SecondEntry`, exactly when: `TightExactly`).
- Replies to creating, entering and leaving a room never say success, and one missed entry makes
  all later entry replies say "not found" (`StaleResults`, `NeverSuccess`), while
  `IOCPTetrisClient/Game/RoomButton.cpp:16` waits for success.
- The 32-bit overlap area can come out negative, and then an output is not chosen although the
  window lies on it (`HugeOverlap`, `SelectOutput`).
- A negative page number shows the last page, because of an unsigned comparison (`WindowPlace`),
  and the room list never tells that a room is playing (`PageShape`).

## Model

| member | source | states |
|---|---|---|
| `StepTimer.SnapDistance` | IOCPTetrisClient/StepTimer.h:127 | the unsigned subtraction, signed cast and absolute value measure the distance around the 64-bit circle, so that a delta snaps if and only if that is below 2500 ticks; it is the true distance whenever that is below 2^63 |
| `StepTimer.FedDelta` | IOCPTetrisClient/StepTimer.h:104-130 | what a tick feeds in, in numbers: min(delta, F/10)*10^7 modulo 2^64 divided by F, or in fixed mode the target when that is less than 2500 ticks away on the circle |
| `StepTimer.ConvertedBound` | IOCPTetrisClient/StepTimer.h:104-112 | a clamped and scaled delta is at most 10^6 ticks, also if the scaling wraps |
| `StepTimer.ScaleFitsExactly` | IOCPTetrisClient/StepTimer.h:110-111 | the scaling fits 64 bits for every delta if and only if (F/10)*10^7 < 2^64 |
| `StepTimer.ConversionLoss` | IOCPTetrisClient/StepTimer.h:104-112 | at every frequency the conversion rounds down by less than one tick, apart from what the 64-bit scaling cuts off |
| `StepTimer.ConversionLossExactly` | IOCPTetrisClient/StepTimer.h:104-112 | every conversion is within one tick of the clamped delta if and only if the scaling fits 64 bits for all deltas, that is (F/10)*10^7 < 2^64 |
| `StepTimer.ScaleOverflows` | IOCPTetrisClient/StepTimer.h:110-112 | a concrete frequency above the limit: at 20 THz a tenth of a second becomes 77662 ticks |
| `StepTimer.BurstBound` | IOCPTetrisClient/StepTimer.h:127-142 | from a drained accumulator one fixed-mode tick runs at most max(1, (T-1+10^6)/T) updates |
| `StepTimer.FrameSeen` | IOCPTetrisClient/StepTimer.h:156-159 | the frame counter moves if and only if the updates are no multiple of 2^32 |
| `StepTimer.FrameMissed` | IOCPTetrisClient/StepTimer.h:156-159 | a concrete tick of 2^32 updates that the frame-rate counter does not see |
| `StepTimer.MissedExactly` | IOCPTetrisClient/StepTimer.h:132-159 | a fixed-mode tick runs updates unseen by the frame counter if and only if the accumulator holds at least one target T and less than T beyond a multiple of 2^32*T |
| `StepTimer.TickConserves` | IOCPTetrisClient/StepTimer.h:132-142 | one fixed-mode tick conserves time if and only if the accumulator does not wrap |
| `StepTimer.WrapLosesTime` | IOCPTetrisClient/StepTimer.h:127-142 | a concrete tick in which the accumulator wraps and leftover time is lost |
| `StepTimer.Timer.Tick` | IOCPTetrisClient/StepTimer.h:89-167 | for any two clock readings, the whole new state and the number of update calls are those of the tick function; a failed clock changes nothing |
| `StepTimer.Timer.Drain` | IOCPTetrisClient/StepTimer.h:134-142 | the draining loop is a division: quotient updates, remainder left over, total and frame counter advanced modulo their widths |
| `StepTimer.DrainEnds` | IOCPTetrisClient/StepTimer.h:134-142 | the draining loop ends after finitely many rounds if and only if the target is positive |
| `StepTimer.Timer.Advance` | IOCPTetrisClient/StepTimer.h:116-153 | the two update modes carry out the advance function |
| `StepTimer.Timer.ResetElapsedTime` | IOCPTetrisClient/StepTimer.h:74-85 | leftover, rate and second counter are cleared; elapsed and total time, frame counter, mode and target stay; a failed clock changes nothing |
| `StepTimer.Timer.constructor` | IOCPTetrisClient/StepTimer.h:18-41 | all counters start at 0, in variable mode with a target of 166666 ticks |
| `StepTimerRuns.Run` | IOCPTetrisClient/StepTimer.h:58-167 | every run of ticks, switches, target changes and resets keeps all counters in range, the second counter below one second and the target positive |
| `StepTimerRuns.Conservation` | IOCPTetrisClient/StepTimer.h:74-154 | over every such run, time added plus leftover plus discarded time plus 2^64 per wrap equals leftover plus effective deltas; the law without the wraps holds if and only if none happened |
| `StepTimerRuns.NeverWraps` | IOCPTetrisClient/StepTimer.h:61-143 | with targets and leftover 1002500 ticks or more below 2^64 no tick of any run wraps |
| `StepTimerRuns.VariableDrift` | IOCPTetrisClient/StepTimer.h:99-152 | after n variable-mode ticks, at every frequency, the total is behind the sum of min(delta, F/10) over the ticks, less what the scaling cuts off, by at most n*(F-1) in units of 1/F tick, never ahead; nothing is cut off where the scaling fits |
| `StepTimerRuns.VariableRun` | IOCPTetrisClient/StepTimer.h:144-153 | a run of variable-mode ticks updates once per tick, adds exactly the sum of the scaled min(delta, F/10), keeps no leftover, and shows the last tick as the elapsed time |
| `StepTimerRuns.SnapLoss` | IOCPTetrisClient/StepTimer.h:104-130 | one effective delta is off by at most 2500*F-1 in either direction, for targets up to 2^64-2500 |
| `StepTimerRuns.SnapLossExactly` | IOCPTetrisClient/StepTimer.h:104-130 | that bound holds for every delta in fixed mode if and only if the target is at most 2^64-2500; above it a delta of 0 snaps to the target around the circle |
| `StepTimerRuns.FixedDrift` | IOCPTetrisClient/StepTimer.h:99-143 | after n fixed-mode ticks, at every frequency and for targets up to 2^64-2500, total plus leftover plus 2^64 per wrap is off the sum of min(delta, F/10), less what the scaling cuts off, by at most n*(2500*F-1) in either direction |
| `StepTimerRuns.FixedRun` | IOCPTetrisClient/StepTimer.h:116-143 | a whole run of fixed-mode ticks with w wraps runs (L+D-2^64*w)/T updates and leaves the remainder, whatever way the time D was split among the ticks; it is (L+D)/T and (L+D)%T if and only if nothing wrapped |
| `StepTimerRuns.Steady` | IOCPTetrisClient/StepTimer.h:120-143 | if every converted delta is within 2500 ticks of the target, each tick of an arbitrarily long run does exactly one update and the leftover never moves |
| `StepTimerRuns.FrameRate` | IOCPTetrisClient/StepTimer.h:99-166 | published rates plus the current count equal the ticks that moved the frame counter, modulo 2^32 and exactly for shorter runs |
| `StepTimerRuns.SecondCounter` | IOCPTetrisClient/StepTimer.h:99-166 | while the clock goes forward the second counter is the sum of the deltas modulo F, and at most one rate is published per second |
| `StepTimerRuns.RateOfOneSecond` | IOCPTetrisClient/StepTimer.h:155-166 | nothing is published within a second; the tick that completes it publishes exactly the ticks that moved the frame counter since the last publication, itself included, and the count starts at 0 |
| `StepTimerRuns.SeenIsBusy` | IOCPTetrisClient/StepTimer.h:114-159 | over every run, target changes and resets included, the ticks that ran an update are those that moved the frame counter and the missed ones; the two agree if and only if none was missed |
| `StepTimerRuns.NeverMisses` | IOCPTetrisClient/StepTimer.h:61-159 | with a leftover below 2^32-1002500 ticks (about 429 s) and all targets, however often changed, at most that, no run misses a tick |
| `StepTimerRuns.NeverMissesOneTarget` | IOCPTetrisClient/StepTimer.h:61-159 | with a target of any size that stays the same, and a leftover below it, no run misses a tick |
| `StepTimerRuns.RateCountsBusyTicks` | IOCPTetrisClient/StepTimer.h:74-166 | since a reset, published rates plus the current count plus the missed ticks equal the ticks that ran an update, whatever target changes came; the law without the missed ticks holds if and only if there were none |
| `StepTimerRuns.RateIsExact` | IOCPTetrisClient/StepTimer.h:74-166 | since a reset, with all targets at most 2^32-1002500 ticks, published rates plus the current count equal the ticks that ran an update |
| `Registry.ScanFinds` | IOCPTetrisServer/Game/PlayerManager.cpp:33-60 | a scan for a key that one slot holds finds it if and only if no empty slot comes before it, and otherwise dereferences null |
| `Registry.SameSlot` | IOCPTetrisServer/Game/PlayerManager.cpp:13-23 | when occupancy agrees, the two independent first-fit searches stop at the same slot |
| `Registry.ConnectKeepsLockstep` | IOCPTetrisServer/System/Server/IOCPTetrisServer.cpp:8-14 | a connect keeps both tables in lockstep and puts the connection in the first free slot of both, with session index = player UID + 1 |
| `Registry.LookupOutcome` | IOCPTetrisServer/Game/PlayerManager.cpp:31-67 | a lookup for a live session finds its unique player if and only if every lower slot is occupied |
| `Registry.CloseSessionOutcome` | IOCPTetrisServer/Game/Session.cpp:26-34 | closing a live session clears the indices of its player and connection and both references, and no other session refers to the player |
| `Registry.CloseOutcome` | IOCPTetrisServer/System/Server/IOCPTetrisServer.cpp:16-23 | a close completes if and only if the connection is live and no lower slot is empty, frees exactly its slot, and otherwise ends in the named fault |
| `Registry.FreedKeepsLockstep` | IOCPTetrisServer/System/Server/IOCPTetrisServer.cpp:16-23 | the state after a completed close is in lockstep and the connection is closed |
| `Registry.Bijection` | IOCPTetrisServer/Game/Session.cpp:11-19 | live players, sessions and connections are in one-to-one correspondence |
| `Registry.ConnectCounts` | IOCPTetrisServer/System/SessionManager.cpp:6-18 | a connect opens one connection, and the tables grow only when every slot is taken |
| `Registry.CloseCounts` | IOCPTetrisServer/System/SessionManager.cpp:20-23 | a close takes one from both counts |
| `Pipeline.StepKeepsInvariant` | IOCPTetrisServer/System/Server/IOCPTetrisServer.cpp:8-34 | every step that completes keeps lockstep, one outbox per connection and the set of handlers |
| `Pipeline.Exec` | IOCPTetrisServer/System/Server/IOCPTetrisServer.cpp:8-34 | in every state that any run from the empty server reaches, the two tables are in lockstep |
| `PipelineRuns.TablesArePeak` | IOCPTetrisServer/Game/PlayerManager.cpp:13-28 | in every run both tables are as long as the largest number of connections open at once so far |
| `PipelineRuns.FirstInFirstOut` | IOCPTetrisServer/System/PacketManager.cpp:70-91 | under every interleaving the packets handled so far followed by the queue are the packets received, in order |
| `PipelineRuns.SessionOrder` | IOCPTetrisServer/System/PacketManager.cpp:35-91 | each session's packets are handled once and in the order they arrived |
| `PipelineRuns.StepKeepsSession` | IOCPTetrisServer/System/Server/IOCPTetrisServer.cpp:8-23 | no step but its own close changes the session index of a live connection |
| `PipelineRuns.SessionStays` | IOCPTetrisServer/System/Server/IOCPTetrisServer.cpp:8-23 | over any stretch of a run without its close a connection keeps its session index |
| `Pipeline.ReplyLength` | IOCPTetrisServer/Handler/BaseHandler.h:33-34 | the length in each reply's header is the sum of the packed fields of its structure |
| `PipelineRuns.FrontOutcome` | IOCPTetrisServer/System/PacketManager.cpp:52-68 | for every front packet, of a live session or a closed one: handling it completes if and only if its id has a handler, the logic returns, its session index is in use at that moment and no slot below is empty; then the current holder's player was used and the current holder answered |
| `PipelineRuns.AnsweredIsHolder` | IOCPTetrisServer/System/PacketManager.cpp:52-68 | when handling completes, a connection is answered if and only if it holds the packet's session index at that moment, and every other outbox is as before |
| `PipelineRuns.Routed` | IOCPTetrisServer/System/Server/IOCPTetrisServer.cpp:25-34 | in every interleaving a received request r waits with its own id and contents and the sender's session index of that moment; when its turn comes and the step completes, its sender is answered (one reply with r's id plus one, r's sequence and session numbers and the size of the structure, the handler of r's id having read r) if and only if it then holds that session index |
| `PipelineRuns.RoutedWithoutClose` | IOCPTetrisServer/System/PacketManager.cpp:52-68 | a sender that was live and did not close in between holds it; its request is handled if and only if the id has a handler, no lower slot is empty and the logic returns, its own player is given to the handler, and it alone is answered |
| `PipelineRuns.Misrouted` | IOCPTetrisServer/System/Server/IOCPTetrisServer.cpp:41-45 | a run in which the connection closes first and the reply goes to another connection |
| `PipelineRuns.CloseCrashes` | IOCPTetrisServer/System/Server/IOCPTetrisServer.cpp:16-23 | a run of two connects and two closes from the empty server that ends at an emptied slot |
| `PipelineRuns.PacketCrashes` | IOCPTetrisServer/Game/PlayerManager.cpp:56-67 | a run in which one connection closes and any packet of the other one ends at an emptied slot |
| `RegistryObjects.Session.SetSession` | IOCPTetrisServer/Game/Session.cpp:11-19 | the session holds the pair and both know its index |
| `RegistryObjects.Session.CloseSession` | IOCPTetrisServer/Game/Session.cpp:26-34 | the pair forgets the index and the session the pair |
| `RegistryObjects.PlayerManager.GetEmptyPlayer` | IOCPTetrisServer/Game/PlayerManager.cpp:11-29 | a fresh player takes the first empty slot, or a new one, and its UID is the slot |
| `RegistryObjects.PlayerManager.Find` | IOCPTetrisServer/Game/PlayerManager.cpp:43-67 | the loop is the scan function, including the null dereference |
| `RegistryObjects.PlayerManager.RemovePlayer` | IOCPTetrisServer/Game/PlayerManager.cpp:31-41 | the slot found is emptied and its player deleted, and no other; an empty slot on the way is a fault |
| `RegistryObjects.PlayerManager.FindPlayerBySessionIndex` | IOCPTetrisServer/Game/PlayerManager.cpp:56-67 | the player found, null if absent, a fault at an empty slot |
| `RegistryObjects.SessionManager.AddSession` | IOCPTetrisServer/System/SessionManager.cpp:6-18 | the first unused session, or a new one with the next index, takes the pair; the other sessions are unchanged |
| `RegistryObjects.SessionManager.FindSession` | IOCPTetrisServer/System/SessionManager.cpp:25-28 | the session with the index, or out of range |
| `Server.IOCPTetrisServer.OnConnect` | IOCPTetrisServer/System/Server/IOCPTetrisServer.cpp:8-14 | on the objects a connect is the connect step, and all references stay tied to the tables |
| `Server.IOCPTetrisServer.OnClose` | IOCPTetrisServer/System/Server/IOCPTetrisServer.cpp:16-23 | on the objects a close is the close step with the same faults, and sends nothing |
| `Server.IOCPTetrisServer.FindClientInfo` | IOCPTetrisServer/System/Server/IOCPTetrisServer.cpp:18 | the connection with the index, or null |
| `Server.IOCPTetrisServer.ReleaseSession` | IOCPTetrisServer/Game/Session.cpp:26-34 | on the objects closing a session is the closing function |
| `Server.IOCPTetrisServer.DropPlayer` | IOCPTetrisServer/Game/PlayerManager.cpp:31-41 | on the objects removing a player is the removing function |
| `Server.BaseHandler.ReadReq` | IOCPTetrisServer/Handler/BaseHandler.h:27-35 | the request is overwritten and the reply header taken from it |
| `Server.BaseHandler.WriteResponse` | IOCPTetrisServer/Handler/BaseHandler.h:36-45 | the reply goes out as it is, and copying it back changes nothing |
| `Server.BaseHandler.Logic` | IOCPTetrisServer/System/PacketManager.cpp:57-59 | the call is recorded with the player object it was given and the request read before; the logic leaves the reply header alone |
| `Server.IOCPTetrisServer.FindPlayer` | IOCPTetrisServer/System/PacketManager.cpp:57 | the player object found is the one of the registry's lookup by session index, with its null result and its fault |
| `Server.PacketManager.InitHandlers` | IOCPTetrisServer/System/PacketManager.cpp:12-28 | one distinct, untouched handler object for each request id |
| `Server.PacketManager.OnReceive` | IOCPTetrisServer/System/Server/IOCPTetrisServer.cpp:25-34 | receiving is the receive step: the queue grows by the request as it is, with its own id and length and the connection's session index |
| `Server.PacketManager.DequeRecvPacket` | IOCPTetrisServer/System/PacketManager.cpp:78-91 | the oldest packet is taken off, or nothing when there is none |
| `Server.PacketManager.SendPacket` | IOCPTetrisServer/System/Server/IOCPTetrisServer.cpp:41-45 | the reply is appended to the outbox of the session's connection only, with the lookup's faults |
| `Server.PacketManager.RunHandler` | IOCPTetrisServer/System/PacketManager.cpp:54-63 | the handler of the packet's id, and no other, gets the new request and reply, and its logic is called once, with the player bound to the packet's session index |
| `Server.PacketManager.ProcessPacket` | IOCPTetrisServer/System/PacketManager.cpp:52-68 | handling one packet is the process function with the same faults; the record of handler calls, which only the handlers write, stays the served packets with their players |
| `Server.PacketManager.PacketThreadRound` | IOCPTetrisServer/System/PacketManager.cpp:39-48 | one round of the consumer is the process step |
| `Server.PacketManager.ConnectClient` | IOCPTetrisServer/System/Server/IOCPTetrisServer.cpp:8-14 | connecting is the connect step of the whole system |
| `Server.PacketManager.CloseClient` | IOCPTetrisServer/System/Server/IOCPTetrisServer.cpp:16-23 | closing is the close step of the whole system, with the same faults |
| `Rooms.AfterCreate` | IOCPTetrisServer/System/RoomManager.h:12-16 | a creation adds one empty room under the next index and hides no other |
| `Rooms.AfterRemove` | IOCPTetrisServer/System/RoomManager.h:18-28 | a removal makes one index unknown, keeps the order and hides no other room |
| `Rooms.AfterReplace` | IOCPTetrisServer/System/RoomManager.h:30-41 | a room that changed in place is found under its index, and the others as before |
| `Rooms.AfterSettle` | IOCPTetrisServer/Handler/Room/ReqRoomLeave.h:22-28 | a room that was left is removed if and only if it became empty, and no other room is touched |
| `Rooms.AfterDisconnect` | IOCPTetrisServer/System/Server/IOCPTetrisServer.cpp:16-23 | a disconnect leaves every room where it was, with the player's entries dangling and all others as before |
| `Rooms.StepFinds` | IOCPTetrisServer/System/RoomManager.h:12-41 | what every event makes of the room found under every index |
| `Rooms.StepKeepsSorted` | IOCPTetrisServer/System/RoomManager.h:12-41 | every step keeps the list strictly sorted below the next index and revives no index |
| `Rooms.IndexNeverReused` | IOCPTetrisServer/System/RoomManager.h:12-41 | in every run the list stays strictly sorted with indices in [1, next), and an index that is gone is never found again |
| `Rooms.StepKeepsConsistent` | IOCPTetrisServer/Handler/Room/ReqRoomEnter.h:14-25 | every completing step, disconnects included, keeps each remembered room index valid and each room within its limit |
| `Rooms.NeverStale` | IOCPTetrisServer/Handler/Room/ReqRoomLeave.h:16-29 | in every run that completes, disconnects included, a room index that a player remembers names an existing room that lists the player |
| `Rooms.EveryRunConsistent` | IOCPTetrisServer/Handler/Room/ReqRoomLeave.h:16-29 | the same from the empty directory |
| `Rooms.StepOutcome` | IOCPTetrisServer/Handler/Room/ReqRoomLeave.h:14-30 | an entry dereferences a deleted player if and only if the room's only entry is of one, a leave if and only if the room's first entry is, and a game if and only if any entry is |
| `Rooms.GoneStays` | IOCPTetrisServer/System/Server/IOCPTetrisServer.cpp:16-23 | a room with an entry of a deleted player keeps one in every run, so it is never removed |
| `Rooms.CleanExactly` | IOCPTetrisServer/System/Server/IOCPTetrisServer.cpp:16-23 | a run that completes ends without such entries if and only if every player was off all lists before disconnecting |
| `Rooms.NeverDangles` | IOCPTetrisServer/System/Server/IOCPTetrisServer.cpp:16-23 | a run in which everyone leaves before disconnecting never dereferences a deleted player |
| `Rooms.Abandoned` | IOCPTetrisServer/Handler/Room/ReqRoomEnter.h:14-25 | a run in which a player disconnects inside a room and the next entry ends the process |
| `Rooms.TightMeans` | IOCPTetrisServer/Handler/Room/ReqRoomEnter.h:14-25 | when no list has a player twice and every listed player remembers the room, the lists and the remembered rooms are the same relation, in both directions |
| `Rooms.StepKeepsTight` | IOCPTetrisServer/Handler/Room/ReqRoomEnter.h:14-25 | a step keeps that bijection if and only if it is not an entry, let in, by a player who is in a room |
| `Rooms.TightExactly` | IOCPTetrisServer/Handler/Room/ReqRoomEnter.h:14-25 | it holds throughout a run that completes if and only if no player enters from inside a room |
| `Rooms.SecondEntry` | IOCPTetrisServer/Handler/Room/ReqRoomEnter.h:14-25 | every entry from another room leaves the player on both lists, and a leave afterwards takes the player off the second only |
| `Rooms.DoubleEntry` | IOCPTetrisServer/Handler/Room/ReqRoomEnter.h:14-25 | a run from the empty directory with such an entry |
| `Rooms.NoticesAt` | IOCPTetrisServer/System/SessionManager.h:23-47 | the notices of an entry: to each member about the player and to the player about each member, in order, and no others |
| `Rooms.OthersInOrder` | IOCPTetrisServer/System/SessionManager.h:23-47 | who is told of a game's start or stop: with one entry of the player, every other member once, in order |
| `Rooms.PlaySetsFlag` | IOCPTetrisServer/Handler/InGame/ReqGameStop.h:13-16 | a start or a stop of a game sets the flag of the player's room, and changes no other room, no list and no remembered room |
| `Rooms.EnterThenLeave` | IOCPTetrisServer/Handler/Room/ReqRoomEnter.h:14-25 | leaving right after entering restores the directory, except that a room that was empty goes |
| `RoomPages.PageShape` | IOCPTetrisServer/System/RoomManager.h:43-79 | every page has eight entries: existing rooms in strictly increasing order of indices from 1 with their counts, then only padding |
| `RoomPages.PageEntries` | IOCPTetrisServer/System/RoomManager.h:60-76 | entry i of any page is the room i places after the start of the window, by index, size and count, and padding after its end |
| `RoomPages.PageOfRooms` | IOCPTetrisServer/System/RoomManager.h:47-67 | page p in 1 to the last shows rooms 8*(p-1) to 8*p-1 in order, or the last eight, or all of fewer than eight |
| `RoomPages.WindowPlace` | IOCPTetrisServer/System/RoomManager.h:47-58 | full pages partition the rooms in eights; later and negative pages show the last eight |
| `RoomPages.PagesCover` | IOCPTetrisServer/System/RoomManager.h:47-67 | for every room there is a page in 1 to the last, and a place on it, that tells the room's index, size and count |
| `RoomPages.PagesOverlap` | IOCPTetrisServer/System/RoomManager.h:47-67 | only the last page overlaps the one before, by 8-(n%8) rooms when n is no multiple of 8 |
| `RoomPages.WrappedPage` | IOCPTetrisServer/System/RoomManager.h:47 | page 0, and a page number that wraps to it, is empty |
| `RoomObjects.Room.AddPlayer` | IOCPTetrisServer/Game/Room.h:15 | a room with space lists the player, the player remembers the room, and the members and the player are told of each other; a full one changes and sends nothing; an entry of a deleted player is a fault |
| `RoomObjects.Room.RemovePlayer` | IOCPTetrisServer/Game/Room.h:23 | the first player with the session index is taken off and forgets the room; the others are unchanged; an entry of a deleted player on the way is a fault |
| `RoomObjects.Room.CanEnterPlayer` | IOCPTetrisServer/Game/Room.h:21 | a full room refuses as full, playing or not; otherwise a playing room refuses as playing; otherwise entry is allowed |
| `RoomObjects.Room.GameStart` | IOCPTetrisServer/Game/Room.h:24 | the room is playing, and every member but the one who started is told; an entry of a deleted player is a fault |
| `RoomObjects.Room.GameStop` | IOCPTetrisServer/Game/Room.h:25 | the room is not playing, and every member but the one who stopped is told; an entry of a deleted player is a fault |
| `RoomObjects.RoomManager.CreateRoom` | IOCPTetrisServer/System/RoomManager.h:12-16 | the directory grows by the new room, whose index is returned, and the players' rooms stay as they are |
| `RoomObjects.RoomManager.DeletePlayer` | IOCPTetrisServer/System/Server/IOCPTetrisServer.cpp:16-23 | on the objects, clearing the session index of a player and deleting it is the disconnect of the room world |
| `RoomObjects.RoomManager.RemoveRoom` | IOCPTetrisServer/System/RoomManager.h:18-28 | the loop erases the room with the index and no other |
| `RoomObjects.RoomManager.FindRoom` | IOCPTetrisServer/System/RoomManager.h:30-41 | the room with the index, or null |
| `RoomObjects.RoomManager.GetRoomList` | IOCPTetrisServer/System/RoomManager.h:43-79 | the two loops build the page function's list: entry i is the room object i places after the start of the window, and padding after its end |
| `RoomHandlers.FreshReplies` | IOCPTetrisServer/Handler/Room/ReqRoomList.h:15-25 | replies to list and may-enter requests depend on the request and the rooms only, never on an earlier reply, and an entry that finds its room names the session that entered |
| `RoomHandlers.CreatedRoom` | IOCPTetrisServer/Handler/Room/ReqRoomCreate.h:13-16 | the index in a creation's reply names a new, empty room |
| `RoomHandlers.CanEnterThenEnter` | IOCPTetrisServer/Handler/Room/ReqRoomCanEnter.h:16-29 | an entry right after a positive may-enter answer lists the player in that room, or ends the process if and only if the room has an entry of a deleted player |
| `RoomHandlers.CanEnterExactly` | IOCPTetrisServer/Handler/Room/ReqRoomCanEnter.h:16-29 | the answer is "not found" if and only if no room has the index, and for a room with it "full", "playing" or success exactly by its members and its flag |
| `RoomHandlers.GameClosesRoom` | IOCPTetrisServer/Handler/InGame/ReqGameStart.h:13-24 | after a start a may-enter request for the room is refused, and after a stop it is never refused as playing |
| `RoomHandlers.HandlersRunRooms` | IOCPTetrisServer/Handler/Room/ReqRoomLeave.h:14-30 | the handlers take the room world through the run of their room events, with the same faults, for every sequence of requests, games and disconnects |
| `RoomHandlers.StaleResults` | IOCPTetrisServer/Handler/Room/ReqRoomEnter.h:14-25 | over every run the result sent after an entry is "not found" if and only if some entry so far missed, and creation and leave results never change |
| `RoomHandlers.NeverSuccess` | IOCPTetrisServer/Handler/Room/ReqRoomCreate.h:13-16 | from the start no reply to a creation, an entry or a leave ever says success |
| `RoomHandlers.ReqRoomList.Logic` | IOCPTetrisServer/Handler/Room/ReqRoomList.h:15-25 | the shared reply array is the page, whatever it held before |
| `RoomHandlers.ReqRoomCanEnter.Logic` | IOCPTetrisServer/Handler/Room/ReqRoomCanEnter.h:16-29 | on the objects the answer is the may-enter function's, and "not found" if and only if no room object has the index |
| `RoomHandlers.ReqRoomCreate.Logic` | IOCPTetrisServer/Handler/Room/ReqRoomCreate.h:13-16 | on the objects a creation is the creation step, and the index replied is the new room's |
| `RoomHandlers.ReqGame.Logic` | IOCPTetrisServer/Handler/InGame/ReqGameStop.h:13-16 | on the objects a game's start or stop is the play step of the player's room, with its faults: no room, or an entry of a deleted player |
| `RoomHandlers.ReqRoomEnter.Logic` | IOCPTetrisServer/Handler/Room/ReqRoomEnter.h:14-25 | on the objects an entry is the entry function with the same faults, tells exactly the notices of the room, and assigns only the reply field that the source assigns |
| `RoomHandlers.ReqRoomLeave.Logic` | IOCPTetrisServer/Handler/Room/ReqRoomLeave.h:14-30 | on the objects a leave is the leave function with the same faults: the room and the leaving player's own room index change as it says, and every other connected player's room index stays on record |
| `DeviceResources.WhatIsTolerated` | IOCPTetrisClient/DeviceResources.cpp:104-256 | a failed call throws, except a question about tearing or the factory, a hardware device in a debug build, an empty adapter list in a debug build, and a lost device reported by the resize or the presentation |
| `DeviceResources.DeviceResources.FeatureLevelCount` | IOCPTetrisClient/DeviceResources.cpp:162-167 | the levels counted are exactly those not below the minimum |
| `DeviceResources.DeviceResources.CreateDeviceResources` | IOCPTetrisClient/DeviceResources.cpp:85-256 | returns if and only if the minimum level exists and no driver answer was fatal, having made factory, device, context and annotation anew; then old handles are gone if and only if none that depend on a device were held; if no device was made the old device handles are untouched |
| `DeviceResources.DeviceResources.MakeDevice` | IOCPTetrisClient/DeviceResources.cpp:174-228 | an adapter is looked for first, its device is tried if and only if one was found, and the device returned is the last one the driver agreed to |
| `DeviceResources.DeviceResources.CreateViews` | IOCPTetrisClient/DeviceResources.cpp:345-378 | the views belong to the swap chain and the device, whenever it stops; it returns if and only if the driver agreed to each of them |
| `DeviceResources.DeviceResources.CreateWindowSizeDependentResources` | IOCPTetrisClient/DeviceResources.cpp:259-382 | terminates; the resize is asked first, and a recovery runs if and only if its answer is one of the two codes of a lost device; it returns if and only if there is a window, a recovery found a level, and no answer was fatal; then everything is there on the current device, one newer after a recovery, with matching notifications; without a recovery device, context and swap chain stay |
| `DeviceResources.DeviceResources.HandleDeviceLost` | IOCPTetrisClient/DeviceResources.cpp:415-450 | terminates; returns if and only if there is a window, the minimum level exists and no driver answer was fatal; then every part was made again and belongs to exactly one newer device and one notification pair was sent; at every exit, also by an exception, nothing of the old device is held, and nothing at all if no device was made |
| `DeviceResources.DeviceResources.WindowSizeChanged` | IOCPTetrisClient/DeviceResources.cpp:395-412 | reports a change if and only if the size differs; a change rebuilds, and recovers if and only if the resize is answered by one of the two codes; the same size leaves every handle; it returns if and only if no answer was fatal and what it needs is there |
| `DeviceResources.DeviceResources.Present` | IOCPTetrisClient/DeviceResources.cpp:453-501 | the answer to the presentation is one of the two codes of a lost device if and only if the recovery runs, which on return leaves everything on one newer device with one notification pair; any other failure throws; without a recovery every handle and count stays |
| `DeviceResources.DeviceResources.UpdateColorSpace` | IOCPTetrisClient/DeviceResources.cpp:604-613 | a stale factory is made again first; it returns if and only if no answer was fatal, and does nothing without a factory |
| `OutputSelection.AreaCountsCells` | IOCPTetrisClient/DeviceResources.cpp:55-60 | on unbounded integers the overlap formula is the number of unit cells in both rectangles, for all rectangles |
| `OutputSelection.AreaFits` | IOCPTetrisClient/DeviceResources.cpp:55-60 | for rectangles that are not 2^31 apart the 32-bit area is the true one if and only if that is below 2^31 |
| `OutputSelection.HugeOverlap` | IOCPTetrisClient/DeviceResources.cpp:55-60 | every overlap of between 2^31 and 2^32 cells comes out negative |
| `OutputSelection.FarOverlap` | IOCPTetrisClient/DeviceResources.cpp:55-60 | rectangles more than 2^31 apart do not overlap, yet have a positive 32-bit area while its product stays below 2^31 |
| `OutputSelection.BestStep` | IOCPTetrisClient/DeviceResources.cpp:653-659 | one comparison keeps the first best output of all those before a place of the enumeration |
| `OutputSelection.SelectOutput` | IOCPTetrisClient/DeviceResources.cpp:635-661 | the output chosen is that of one adapter at one position: no output of any adapter has a larger 32-bit area, and none enumerated before it, by adapter and then position, has as large a one; none is chosen if and only if every area is negative |
| `OutputSelection.BestHasMostCells` | IOCPTetrisClient/DeviceResources.cpp:635-661 | of all outputs with overlaps below 2^31 cells the chosen one, if it is one, has the most cells of the window, and more than any before it |

## Left out

- `StepTimer.Timer.Tick`: requires a positive target in fixed mode, because otherwise the draining loop does not end, as `StepTimer.DrainEnds` shows; the update callback is a count of its calls and does not touch the timer.
- `StepTimerRuns.FixedDrift`: is stated for targets up to 2^64-2500, beyond which `StepTimerRuns.SnapLossExactly` shows that the bound fails.
- `StepTimerRuns.RateCountsBusyTicks`: is stated for fewer than 2^32 events, beyond which the 32-bit count of one second may wrap; `StepTimerRuns.FrameRate` has the law modulo 2^32.
- `RoomPages.PagesOverlap`: is stated for at most 2^31-8 rooms, beyond which the number of the last page overflows.
- `RoomHandlers.StaleResults`: is stated for fewer than 2^31 rooms, the range of the 32-bit room counter.
- `Server.IOCPTetrisServer.OnClose`: says nothing about the state after a fault, because a fault ends the process.
- `Server.PacketManager.RunHandler`: takes the handler's effect on its reply as an arbitrary answer, and does not model reads past the end of a packet shorter than its request structure.
- `RoomObjects.Room.AddPlayer`: gives the notices in the order they are sent and not their delivery, which looks each session up again.
- `RoomHandlers.ReqRoomEnter.Logic`: takes a connected player; `PipelineRuns.FrontOutcome` shows that the lookup before it never yields none when it completes.
- `DeviceResources.DeviceResources.CreateWindowSizeDependentResources`: surface formats, option flags other than tearing, the choice of a colour space and the debug layer are not modelled.
- The callers of `OnConnect`, `OnClose` and `OnReceive` and the byte buffer that cuts a stream into packets are not part of this model.
- The connection registry and the rooms are two models: a disconnect of the rooms stands for a close that completed, and session indices are given to the rooms by the caller.
- The replies of the handlers for login, game start, game stop, key input and falling blocks, and the contents of the notices, which only pass values on.
- Falling-block generation, the board of a game and its rotation in floating point.
- Sockets, completion ports, threads and locks, other than as atomic steps; timer conversions to and from seconds in floating point.
- The constructors' failing clock calls, the logger, configuration, scenes, buttons, input, rendering and resource loading.
