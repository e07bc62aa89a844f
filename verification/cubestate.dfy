/** `createCubeState`: the handlers that turn decoded packets into move and state events,
    keeping the last known pattern and the last cube timestamp between packets. */
module CubeState {
  import opened Base
  import opened CubeMoves
  import opened MoveSearch
  import opened Protocol
  import opened RingHistory

  /** The `type` of a CubeStateEvent. */
  datatype EventType = Hello | State | Sync | FreshState

  /** One entry of the combined event log: a move event or a state event, in the order the
      handlers emit them. */
  datatype Event<P> = MoveEmitted(move: MoveEvent) | StateEmitted(kind: EventType, pattern: P)

  /** The two closure cells of createCubeState. */
  datatype Memory<P> = Memory(lastState: Option<P>, lastTimestamp: int)

  /** What one handler call does: the memory it leaves and the events it appends. */
  datatype Reaction<P> = Reaction(memory: Memory<P>, events: seq<Event<P>>)

  /** `getMove(data)`: the label of the packet's own move byte; undefined when the byte is
      missing or MOVES does not map it. */
  function GetMove(data: Packet): (m: Option<Move>)
    requires data.body.StateData?
    ensures m.Some? <==> data.body.move.Some? && 1 <= data.body.move.value <= 12
    ensures m.Some? ==> CodeOf(m.value) == data.body.move.value
  {
    match data.body.move
    case None => None
    case Some(code) => MoveOf(code)
  }

  /** `s.findIndex(t => t === x)`. */
  function FindIndex(s: seq<int>, x: int): (k: int)
    ensures -1 <= k < |s|
    ensures k == -1 <==> x !in s
    ensures 0 <= k ==> s[k] == x && x !in s[..k]
  {
    if s == [] then -1
    else if s[0] == x then 0
    else
      var k := FindIndex(s[1..], x);
      if k == -1 then -1
      else
        assert s[..k + 1] == [s[0]] + s[1..][..k];
        k + 1
  }

  /** The labels of a list of move events, as `moves.map(m => m.move)`. */
  function MoveLabels(moves: seq<MoveEvent>): (labels: seq<Option<Move>>)
    ensures |labels| == |moves| && forall i :: 0 <= i < |moves| ==> labels[i] == moves[i].move
  {
    seq(|moves|, i requires 0 <= i < |moves| => moves[i].move)
  }

  /** The ring entries newer than the one at index k, oldest first, carrying only the cube's
      timestamp. */
  function Missed(moves: seq<Option<Move>>, timestamps: seq<int>, k: nat): (missed: seq<MoveEvent>)
    requires k <= |moves| == |timestamps|
    ensures |missed| == k
    ensures forall i :: 0 <= i < k ==>
      missed[i] == MoveEvent(moves[k - 1 - i], Some(timestamps[k - 1 - i]), None)
  {
    var rm, rt := Reverse(moves[..k]), Reverse(timestamps[..k]);
    seq(k, i requires 0 <= i < k => MoveEvent(rm[i], Some(rt[i]), None))
  }

  /** The moves the State handler reports before any search: the missed ring moves, when the
      last timestamp is found in the ring, then the packet's own move with both clocks. */
  function ReportedMoves<P>(mem: Memory<P>, data: Packet, localNow: int): seq<MoveEvent>
    requires data.body.StateData?
  {
    var prev := data.body.previousMoves;
    var k := FindIndex(RingTimestamps(prev), mem.lastTimestamp);
    (if k != -1 then Missed(RingMoves(prev), RingTimestamps(prev), k) else [])
      + [MoveEvent(GetMove(data), Some(data.header.timestamp), Some(localNow))]
  }

  /** The pattern the State handler takes as true: solved when the packet asks for an
      acknowledgement, the packet's own state otherwise. */
  function GroundTruth<P>(pz: Puzzle<P>, data: Packet): P
    requires data.body.StateData?
  {
    if data.NeedsAck() then pz.defaultPattern else pz.stateToPattern(data.body.cubeState)
  }

  /** The remembered pattern with the reported moves applied, or the ground truth when
      nothing is remembered. */
  function Replayed<P>(pz: Puzzle<P>, mem: Memory<P>, data: Packet, localNow: int): P
    requires data.body.StateData?
  {
    if mem.lastState.Some? then ApplyAlg(pz, mem.lastState.value, MoveLabels(ReportedMoves(mem, data, localNow)))
    else GroundTruth(pz, data)
  }

  /** The moves a search result adds: none unless a non-empty path was found, and no
      timestamps on any of them. */
  function FoundMoves(found: Option<seq<Move>>): (moves: seq<MoveEvent>)
    ensures found.Some? ==> |moves| == |found.value|
    ensures found.None? ==> moves == []
    ensures forall i :: 0 <= i < |moves| ==> moves[i] == MoveEvent(Some(found.value[i]), None, None)
  {
    if found.Some? && |found.value| > 0 then
      seq(|found.value|, i requires 0 <= i < |found.value| => MoveEvent(Some(found.value[i]), None, None))
    else []
  }

  /** Every move event in order, then one state event. */
  function Emitted<P>(moves: seq<MoveEvent>, kind: EventType, pattern: P): (events: seq<Event<P>>)
    ensures |events| == |moves| + 1
    ensures forall i :: 0 <= i < |moves| ==> events[i] == MoveEmitted(moves[i])
    ensures events[|moves|] == StateEmitted(kind, pattern)
  {
    seq(|moves|, i requires 0 <= i < |moves| => MoveEmitted(moves[i])) + [StateEmitted(kind, pattern)]
  }

  /** The search a packet starts, as (from, to), when it starts one: a State packet whose
      replayed pattern differs from the ground truth, or a FreshState packet whose state
      differs from the remembered one. */
  function SearchFor<P(==)>(pz: Puzzle<P>, mem: Memory<P>, data: Packet, localNow: int): Option<(P, P)>
  {
    match data.body
    case StateData(_, _, _, _) =>
      var current, actual := Replayed(pz, mem, data, localNow), GroundTruth(pz, data);
      if current != actual then Some((current, actual)) else None
    case FreshStateData(cubeState) =>
      var actual := pz.stateToPattern(cubeState);
      var current := if mem.lastState.Some? then mem.lastState.value else actual;
      if current != actual then Some((current, actual)) else None
    case _ => None
  }

  /** The Hello handler: the initial state replaces the memory and is announced. */
  function HelloReaction<P>(pz: Puzzle<P>, data: Packet): Reaction<P>
    requires data.body.HelloData?
  {
    var pattern := pz.stateToPattern(data.body.initialState);
    Reaction(Memory(Some(pattern), data.header.timestamp), [StateEmitted(Hello, pattern)])
  }

  /** The Sync handler: the cube's state replaces the memory and is announced. */
  function SyncReaction<P>(pz: Puzzle<P>, data: Packet): Reaction<P>
    requires data.body.SyncData?
  {
    var pattern := pz.stateToPattern(data.body.cubeState);
    Reaction(Memory(Some(pattern), data.header.timestamp), [StateEmitted(Sync, pattern)])
  }

  /** The moves the State handler adds after the reported ones: the found path, when the
      search runs. */
  function StateExtra<P(==)>(pz: Puzzle<P>, mem: Memory<P>, data: Packet, localNow: int, found: Option<seq<Move>>): seq<MoveEvent>
  {
    if SearchFor(pz, mem, data, localNow).Some? then FoundMoves(found) else []
  }

  /** The State handler, given what the move search returns when it runs. */
  function StateReaction<P(==)>(pz: Puzzle<P>, mem: Memory<P>, data: Packet, localNow: int, found: Option<seq<Move>>): Reaction<P>
    requires data.body.StateData?
  {
    Reaction(Memory(Some(GroundTruth(pz, data)), data.header.timestamp),
             Emitted(ReportedMoves(mem, data, localNow) + StateExtra(pz, mem, data, localNow, found),
                     State, pz.stateToPattern(data.body.cubeState)))
  }

  /** The FreshState handler, given what the move search returns when it runs. */
  function FreshStateReaction<P(==)>(pz: Puzzle<P>, mem: Memory<P>, data: Packet, found: Option<seq<Move>>): Reaction<P>
    requires data.body.FreshStateData?
  {
    var actual := pz.stateToPattern(data.body.cubeState);
    var moves := if SearchFor(pz, mem, data, 0).Some? then FoundMoves(found) else [];
    Reaction(Memory(Some(actual), data.header.timestamp), Emitted(moves, FreshState, actual))
  }

  /** `cubeState.handler[data.opcode](data)`: no handler exists for an unknown opcode. */
  function React<P(==)>(pz: Puzzle<P>, mem: Memory<P>, data: Packet, localNow: int, found: Option<seq<Move>>): Option<Reaction<P>>
  {
    match data.body
    case HelloData(_) => Some(HelloReaction(pz, data))
    case SyncData(_) => Some(SyncReaction(pz, data))
    case StateData(_, _, _, _) => Some(StateReaction(pz, mem, data, localNow, found))
    case FreshStateData(_) => Some(FreshStateReaction(pz, mem, data, found))
    case UnknownData => None
  }

  /** The move events of a log, in order. */
  function MovesIn<P>(events: seq<Event<P>>): (moves: seq<MoveEvent>)
    ensures |moves| <= |events|
    ensures forall m :: m in moves <==> MoveEmitted(m) in events
  {
    if events == [] then []
    else (if events[0].MoveEmitted? then [events[0].move] else []) + MovesIn(events[1..])
  }

  lemma {:induction false} MovesInEmitted<P>(moves: seq<MoveEvent>, kind: EventType, pattern: P)
    ensures MovesIn(Emitted(moves, kind, pattern)) == moves
    decreases |moves|
  {
    var events := Emitted(moves, kind, pattern);
    if moves == [] {
      assert events == [StateEmitted(kind, pattern)];
      assert MovesIn(events) == [] + MovesIn(events[1..]);
    } else {
      assert events[1..] == Emitted(moves[1..], kind, pattern);
      MovesInEmitted(moves[1..], kind, pattern);
    }
  }

  /** The labels of the moves a found path adds are the path itself. */
  lemma FoundLabels(path: seq<Move>)
    ensures Labels(MoveLabels(FoundMoves(Some(path)))) == path
  {
    var labels := MoveLabels(FoundMoves(Some(path)));
    assert forall i :: 0 <= i < |labels| ==> labels[i] == Some(path[i]);
  }

  // ---------------------------------------------------------------------------------------
  // Properties of the handlers
  // ---------------------------------------------------------------------------------------

  /** Hello and Sync replace the memory wholesale, whatever it held, and emit exactly one
      state event, of their own type, carrying the packet's snapshot, and no move event. */
  lemma HelloAndSyncReplaceMemory<P>(pz: Puzzle<P>, mem: Memory<P>, other: Memory<P>, data: Packet, localNow: int, found: Option<seq<Move>>)
    requires data.body.HelloData? || data.body.SyncData?
    ensures React(pz, mem, data, localNow, found) == React(pz, other, data, 0, None)
    ensures var r := React(pz, mem, data, localNow, found);
      var snapshot := if data.body.HelloData? then data.body.initialState else data.body.cubeState;
      && r.Some?
      && r.value.memory == Memory(Some(pz.stateToPattern(snapshot)), data.header.timestamp)
      && r.value.events == [StateEmitted(if data.body.HelloData? then Hello else Sync, pz.stateToPattern(snapshot))]
      && MovesIn(r.value.events) == []
  {
    var r := React(pz, mem, data, localNow, found);
    assert MovesIn(r.value.events) == [] + MovesIn(r.value.events[1..]);
  }

  /** The State handler emits every move event before exactly one `state` event, which
      carries the packet's own snapshot even when the memory takes the solved pattern; the
      memory becomes the ground truth and the packet's timestamp. */
  lemma StateEventOrder<P>(pz: Puzzle<P>, mem: Memory<P>, data: Packet, localNow: int, found: Option<seq<Move>>)
    requires data.body.StateData?
    ensures var r := StateReaction(pz, mem, data, localNow, found);
      && 2 <= |r.events|
      && (forall i :: 0 <= i < |r.events| - 1 ==> r.events[i].MoveEmitted?)
      && r.events[|r.events| - 1] == StateEmitted(State, pz.stateToPattern(data.body.cubeState))
      && r.memory.lastTimestamp == data.header.timestamp
      && r.memory.lastState == Some(if data.NeedsAck() then pz.defaultPattern else pz.stateToPattern(data.body.cubeState))
  {
  }

  /** The packet's own move, with the cube's timestamp and the host's. */
  function OwnMove(data: Packet, localNow: int): MoveEvent
    requires data.body.StateData?
  {
    MoveEvent(GetMove(data), Some(data.header.timestamp), Some(localNow))
  }

  /** The first occurrence of a value is the one findIndex reports. */
  lemma {:induction false} FindIndexIsFirst(s: seq<int>, x: int, k: nat)
    requires k < |s| && s[k] == x && x !in s[..k]
    ensures FindIndex(s, x) == k
    decreases k
  {
    if k > 0 {
      assert s[0] in s[..k];
      assert s[1..][..k - 1] == s[..k][1..];
      FindIndexIsFirst(s[1..], x, k - 1);
    }
  }

  /** The moves reported before any search, in terms of where the last timestamp sits in the
      ring. */
  lemma ReportedMovesFromRing<P>(mem: Memory<P>, data: Packet, localNow: int)
    requires data.body.StateData?
    ensures var prev := data.body.previousMoves;
      var ts := RingTimestamps(prev);
      var k := FindIndex(ts, mem.lastTimestamp);
      var reported := ReportedMoves(mem, data, localNow);
      && (k == -1 ==> reported == [OwnMove(data, localNow)])
      && (k != -1 ==>
            && |reported| == k + 1
            && (forall i :: 0 <= i < k ==>
                  reported[i] == MoveEvent(RingMoves(prev)[k - 1 - i], Some(ts[k - 1 - i]), None))
            && reported[k] == OwnMove(data, localNow))
  {
    var prev := data.body.previousMoves;
    var ts := RingTimestamps(prev);
    var k := FindIndex(ts, mem.lastTimestamp);
    var own := OwnMove(data, localNow);
    if k == -1 {
      assert ReportedMoves(mem, data, localNow) == [] + [own];
    } else {
      var missed := Missed(RingMoves(prev), ts, k);
      assert ReportedMoves(mem, data, localNow) == missed + [own];
    }
  }

  /** The leading events of an emitted list are its leading moves. */
  lemma EmittedPrefix<P>(reported: seq<MoveEvent>, extra: seq<MoveEvent>, kind: EventType, pattern: P)
    ensures forall i :: 0 <= i < |reported| ==> Emitted(reported + extra, kind, pattern)[i] == MoveEmitted(reported[i])
  {
    forall i | 0 <= i < |reported| ensures Emitted(reported + extra, kind, pattern)[i] == MoveEmitted(reported[i]) {
      assert (reported + extra)[i] == reported[i];
    }
  }

  /** When the last timestamp is first found at index k of the ring, the k newer entries are
      emitted first, oldest first and with only the cube's timestamp, then the packet's own
      move with both timestamps. */
  lemma {:induction false} StateMissedRingMoves<P>(pz: Puzzle<P>, mem: Memory<P>, data: Packet, localNow: int, found: Option<seq<Move>>, k: nat)
    requires data.body.StateData?
    requires var ts := RingTimestamps(data.body.previousMoves);
      k < |ts| && ts[k] == mem.lastTimestamp && mem.lastTimestamp !in ts[..k]
    ensures var prev := data.body.previousMoves;
      var ts := RingTimestamps(prev);
      var r := StateReaction(pz, mem, data, localNow, found);
      && k + 1 < |r.events|
      && (forall i :: 0 <= i < k ==>
            r.events[i] == MoveEmitted(MoveEvent(RingMoves(prev)[k - 1 - i], Some(ts[k - 1 - i]), None)))
      && r.events[k] == MoveEmitted(OwnMove(data, localNow))
  {
    var prev := data.body.previousMoves;
    var ts := RingTimestamps(prev);
    FindIndexIsFirst(ts, mem.lastTimestamp, k);
    ReportedMovesFromRing(mem, data, localNow);
    var reported := ReportedMoves(mem, data, localNow);
    var extra := StateExtra(pz, mem, data, localNow, found);
    var r := StateReaction(pz, mem, data, localNow, found);
    assert r.events == Emitted(reported + extra, State, pz.stateToPattern(data.body.cubeState));
    assert |reported| == k + 1;
    EmittedPrefix(reported, extra, State, pz.stateToPattern(data.body.cubeState));
  }

  /** When the last timestamp is not in the ring, no ring move is emitted: the packet's own
      move comes first. */
  lemma StateNoMatchNoRingMoves<P>(pz: Puzzle<P>, mem: Memory<P>, data: Packet, localNow: int, found: Option<seq<Move>>)
    requires data.body.StateData?
    requires mem.lastTimestamp !in RingTimestamps(data.body.previousMoves)
    ensures StateReaction(pz, mem, data, localNow, found).events[0] == MoveEmitted(OwnMove(data, localNow))
  {
    ReportedMovesFromRing(mem, data, localNow);
    EmittedPrefix(ReportedMoves(mem, data, localNow), StateExtra(pz, mem, data, localNow, found),
                  State, pz.stateToPattern(data.body.cubeState));
  }

  /** Without a remembered pattern the search never runs, and what it would return makes no
      difference. */
  lemma NoSearchWithoutMemory<P>(pz: Puzzle<P>, mem: Memory<P>, data: Packet, localNow: int, found: Option<seq<Move>>)
    requires data.body.StateData? && mem.lastState.None?
    ensures SearchFor(pz, mem, data, localNow) == None
    ensures StateReaction(pz, mem, data, localNow, found) == StateReaction(pz, mem, data, localNow, None)
    ensures MovesIn(StateReaction(pz, mem, data, localNow, found).events) == ReportedMoves(mem, data, localNow)
  {
    var reported := ReportedMoves(mem, data, localNow);
    assert reported + [] == reported;
    MovesInEmitted(reported, State, pz.stateToPattern(data.body.cubeState));
  }

  /** The moves a search adds follow the reported ones and carry no timestamp. */
  lemma FoundMovesCarryNoTimestamps<P>(pz: Puzzle<P>, mem: Memory<P>, data: Packet, localNow: int, found: Option<seq<Move>>)
    requires data.body.StateData?
    ensures var moves := MovesIn(StateReaction(pz, mem, data, localNow, found).events);
      var reported := ReportedMoves(mem, data, localNow);
      && |reported| <= |moves|
      && moves[..|reported|] == reported
      && forall i :: |reported| <= i < |moves| ==> moves[i].cubeTimestamp.None? && moves[i].localTimestamp.None?
  {
    var reported: seq<MoveEvent> := ReportedMoves(mem, data, localNow);
    var extra: seq<MoveEvent> := StateExtra(pz, mem, data, localNow, found);
    MovesInEmitted(reported + extra, State, pz.stateToPattern(data.body.cubeState));
    assert (reported + extra)[..|reported|] == reported;
    forall i | |reported| <= i < |reported + extra|
      ensures (reported + extra)[i].cubeTimestamp.None? && (reported + extra)[i].localTimestamp.None?
    {
      assert (reported + extra)[i] == extra[i - |reported|];
    }
  }

  /** Replaying reported moves and then a found path is replaying the path from where the
      reported moves lead. */
  lemma {:induction false} ReplayThenPath<P>(pz: Puzzle<P>, last: P, reported: seq<MoveEvent>, path: seq<Move>)
    ensures ApplyAlg(pz, last, MoveLabels(reported + FoundMoves(Some(path))))
         == ApplyAll(pz, ApplyAlg(pz, last, MoveLabels(reported)), path)
  {
    var extra := FoundMoves(Some(path));
    assert MoveLabels(reported + extra) == MoveLabels(reported) + MoveLabels(extra);
    LabelsAppend(MoveLabels(reported), MoveLabels(extra));
    FoundLabels(path);
    assert Labels(MoveLabels(reported + extra)) == Labels(MoveLabels(reported)) + path;
    ApplyAllAppend(pz, last, Labels(MoveLabels(reported)), path);
  }

  /** Replaying every emitted move from the remembered pattern reaches the ground truth,
      unless the search ran and found nothing within its depth. */
  lemma StateReplayReachesGroundTruth<P>(pz: Puzzle<P>, mem: Memory<P>, data: Packet, localNow: int, found: Option<seq<Move>>)
    requires data.body.StateData? && mem.lastState.Some?
    requires var search := SearchFor(pz, mem, data, localNow);
      search.Some? ==> IsSearchResult(pz, search.value.0, search.value.1, DefaultDepth, found) && found.Some?
    ensures var r := StateReaction(pz, mem, data, localNow, found);
      ApplyAlg(pz, mem.lastState.value, MoveLabels(MovesIn(r.events))) == GroundTruth(pz, data)
  {
    var reported := ReportedMoves(mem, data, localNow);
    var extra := StateExtra(pz, mem, data, localNow, found);
    MovesInEmitted(reported + extra, State, pz.stateToPattern(data.body.cubeState));
    if SearchFor(pz, mem, data, localNow).Some? {
      ReplayThenPath(pz, mem.lastState.value, reported, found.value);
    } else {
      assert reported + extra == reported;
    }
  }

  /** FreshState always takes the packet's snapshot into memory and ends with one
      `freshState` event carrying it. It emits no move when the snapshot equals the
      remembered one (or nothing is remembered) or when the search found nothing; otherwise
      the found moves, without timestamps, lead from the remembered snapshot to the new one. */
  lemma {:induction false} FreshStateReaction_Properties<P>(pz: Puzzle<P>, mem: Memory<P>, data: Packet, found: Option<seq<Move>>)
    requires data.body.FreshStateData?
    ensures var r := FreshStateReaction(pz, mem, data, found);
      var actual := pz.stateToPattern(data.body.cubeState);
      && r.memory == Memory(Some(actual), data.header.timestamp)
      && r.events[|r.events| - 1] == StateEmitted(FreshState, actual)
      && (forall i :: 0 <= i < |r.events| - 1 ==> r.events[i].MoveEmitted?)
      && ((mem.lastState.None? || mem.lastState.value == actual || found.None? || found == Some([])) ==> |r.events| == 1)
      && (mem.lastState.Some? && mem.lastState.value != actual && found.Some? ==>
            && (forall i :: 0 <= i < |MovesIn(r.events)| ==>
                  MovesIn(r.events)[i].cubeTimestamp.None? && MovesIn(r.events)[i].localTimestamp.None?)
            && (ApplyAll(pz, mem.lastState.value, found.value) == actual ==>
                  ApplyAlg(pz, mem.lastState.value, MoveLabels(MovesIn(r.events))) == actual))
  {
    var actual := pz.stateToPattern(data.body.cubeState);
    var moves := if SearchFor(pz, mem, data, 0).Some? then FoundMoves(found) else [];
    var r := FreshStateReaction(pz, mem, data, found);
    assert r.events == Emitted(moves, FreshState, actual);
    MovesInEmitted(moves, FreshState, actual);
    assert MovesIn(r.events) == moves;
    if mem.lastState.Some? && mem.lastState.value != actual && found.Some? {
      assert moves == FoundMoves(found);
      FoundLabels(found.value);
    } else {
      assert moves == [] || found == Some([]);
    }
  }

  /** Scenario: the last timestamp sits two slots back in the ring and replaying matches the
      ground truth. Three move events follow in the order the cube recorded them, the two
      missed ring moves and then the packet's own, and one `state` event closes the list. */
  lemma {:induction false} TwoMissedMovesScenario<P>(pz: Puzzle<P>, mem: Memory<P>, data: Packet, localNow: int, found: Option<seq<Move>>)
    requires data.body.StateData?
    requires FindIndex(RingTimestamps(data.body.previousMoves), mem.lastTimestamp) == 2
    requires SearchFor(pz, mem, data, localNow) == None
    ensures var prev := data.body.previousMoves;
      var ts := RingTimestamps(prev);
      var r := StateReaction(pz, mem, data, localNow, found);
      && r.events == [MoveEmitted(MoveEvent(RingMoves(prev)[1], Some(ts[1]), None)),
                      MoveEmitted(MoveEvent(RingMoves(prev)[0], Some(ts[0]), None)),
                      MoveEmitted(OwnMove(data, localNow)),
                      StateEmitted(State, pz.stateToPattern(data.body.cubeState))]
  {
    var reported := ReportedMoves(mem, data, localNow);
    TwoMissedReported(mem, data, localNow);
    assert StateExtra(pz, mem, data, localNow, found) == [];
    assert reported + [] == reported;
  }

  /** The reported moves when the last timestamp sits two slots back in the ring. */
  lemma {:induction false} TwoMissedReported<P>(mem: Memory<P>, data: Packet, localNow: int)
    requires data.body.StateData?
    requires FindIndex(RingTimestamps(data.body.previousMoves), mem.lastTimestamp) == 2
    ensures var prev := data.body.previousMoves;
      var ts := RingTimestamps(prev);
      ReportedMoves(mem, data, localNow) == [MoveEvent(RingMoves(prev)[1], Some(ts[1]), None),
                                            MoveEvent(RingMoves(prev)[0], Some(ts[0]), None),
                                            OwnMove(data, localNow)]
  {
    ReportedMovesFromRing(mem, data, localNow);
  }

  /** Scenario: two FreshState packets with the same snapshot, starting from no memory or
      from that snapshot, emit two `freshState` events and no move. Whatever the memory,
      the second of them emits no move. */
  lemma RepeatedFreshStateScenario<P>(pz: Puzzle<P>, mem: Memory<P>, first: Packet, second: Packet,
                                          found1: Option<seq<Move>>, found2: Option<seq<Move>>)
    requires first.body.FreshStateData? && second.body.FreshStateData?
    requires first.body.cubeState == second.body.cubeState
    ensures var r1 := FreshStateReaction(pz, mem, first, found1);
      var r2 := FreshStateReaction(pz, r1.memory, second, found2);
      var snapshot := pz.stateToPattern(first.body.cubeState);
      && r2.events == [StateEmitted(FreshState, snapshot)]
      && (mem.lastState.None? || mem.lastState == Some(snapshot) ==>
            r1.events + r2.events == [StateEmitted(FreshState, snapshot), StateEmitted(FreshState, snapshot)])
  {
  }

  /** The handler object of createCubeState and the closure cells it updates. The two
      Subjects are one log, so the order of move and state events is kept. */
  class CubeStateEngine<P(==)> {
    const puzzle: Puzzle<P>
    var lastState: Option<P>
    var lastTimestamp: int
    var log: seq<Event<P>>

    function Remembered(): Memory<P>
      reads this
    {
      Memory(lastState, lastTimestamp)
    }

    constructor (pz: Puzzle<P>)
      ensures puzzle == pz && lastState == None && lastTimestamp == 0 && log == []
    {
      puzzle := pz;
      lastState := None;
      lastTimestamp := 0;
      log := [];
    }

    method OnHello(data: Packet)
      requires data.body.HelloData?
      modifies this
      ensures Remembered() == HelloReaction(puzzle, data).memory
      ensures log == old(log) + HelloReaction(puzzle, data).events
    {
      var pattern := puzzle.stateToPattern(data.body.initialState);
      lastState := Some(pattern);
      lastTimestamp := data.header.timestamp;
      log := log + [StateEmitted(Hello, pattern)];
    }

    method OnSync(data: Packet)
      requires data.body.SyncData?
      modifies this
      ensures Remembered() == SyncReaction(puzzle, data).memory
      ensures log == old(log) + SyncReaction(puzzle, data).events
    {
      var pattern := puzzle.stateToPattern(data.body.cubeState);
      lastState := Some(pattern);
      lastTimestamp := data.header.timestamp;
      log := log + [StateEmitted(Sync, pattern)];
    }

    /** Appends the move events in order, then the state event. */
    method Publish(moves: seq<MoveEvent>, kind: EventType, pattern: P)
      modifies this
      ensures log == old(log) + Emitted(moves, kind, pattern)
      ensures lastState == old(lastState) && lastTimestamp == old(lastTimestamp)
    {
      for i := 0 to |moves|
        invariant log == old(log) + Emitted(moves, kind, pattern)[..i]
        invariant lastState == old(lastState) && lastTimestamp == old(lastTimestamp)
      {
        log := log + [MoveEmitted(moves[i])];
      }
      log := log + [StateEmitted(kind, pattern)];
    }

    /** The first half of the State handler: the missed ring moves, oldest first, when the
        last timestamp is found in the ring, then the packet's own move. */
    method CollectReported(data: Packet, localNow: int) returns (moves: seq<MoveEvent>)
      requires data.body.StateData?
      ensures moves == ReportedMoves(Remembered(), data, localNow)
    {
      moves := [];
      var move := GetMove(data);
      var prevMoves, prevTimestamps := ExtractPreviousMoves(data.body.previousMoves);
      var moveIndex := FindIndex(prevTimestamps, lastTimestamp);
      if moveIndex != -1 {
        moves := MissedEvents(prevMoves, prevTimestamps, moveIndex);
      }
      moves := moves + [MoveEvent(move, Some(data.header.timestamp), Some(localNow))];
    }

    /** The loop over the reversed newer ring entries: one event per entry, oldest first,
        with the cube's timestamp only. */
    static method MissedEvents(prevMoves: seq<Option<Move>>, prevTimestamps: seq<int>, moveIndex: nat)
      returns (moves: seq<MoveEvent>)
      requires moveIndex <= |prevMoves| == |prevTimestamps|
      ensures moves == Missed(prevMoves, prevTimestamps, moveIndex)
    {
      moves := [];
      var missedMoves := Reverse(prevMoves[..moveIndex]);
      var missedTimestamps := Reverse(prevTimestamps[..moveIndex]);
      for i := 0 to |missedMoves|
        invariant moves == Missed(prevMoves, prevTimestamps, moveIndex)[..i]
      {
        moves := moves + [MoveEvent(missedMoves[i], Some(missedTimestamps[i]), None)];
      }
    }

    /** The found moves, each without timestamps, after the reported ones. */
    static method AppendFound(moves: seq<MoveEvent>, foundMoves: Option<seq<Move>>) returns (all: seq<MoveEvent>)
      ensures all == moves + FoundMoves(foundMoves)
    {
      all := moves;
      if foundMoves.Some? && |foundMoves.value| > 0 {
        for i := 0 to |foundMoves.value|
          invariant all == moves + FoundMoves(foundMoves)[..i]
        {
          all := all + [MoveEvent(Some(foundMoves.value[i]), None, None)];
        }
      }
    }

    /** The State handler; `localNow` is the host clock's reading. */
    method OnState(data: Packet, localNow: int) returns (ghost found: Option<seq<Move>>)
      requires data.body.StateData?
      modifies this
      ensures var r := StateReaction(puzzle, old(Remembered()), data, localNow, found);
        Remembered() == r.memory && log == old(log) + r.events
      ensures var search := SearchFor(puzzle, old(Remembered()), data, localNow);
        search.Some? ==> IsSearchResult(puzzle, search.value.0, search.value.1, DefaultDepth, found)
    {
      ghost var mem := Remembered();
      var pattern := puzzle.stateToPattern(data.body.cubeState);
      var moves := CollectReported(data, localNow);

      var actualState := if data.NeedsAck() then puzzle.defaultPattern else puzzle.stateToPattern(data.body.cubeState);
      var currentState := if lastState.Some? then ApplyAlg(puzzle, lastState.value, MoveLabels(moves)) else actualState;
      assert currentState == Replayed(puzzle, mem, data, localNow) && actualState == GroundTruth(puzzle, data);
      lastState := Some(actualState);

      found := None;
      if currentState != actualState {
        var foundMoves := IdentifyMoves(puzzle, currentState, actualState, DefaultDepth);
        found := foundMoves;
        moves := AppendFound(moves, foundMoves);
      }

      lastTimestamp := data.header.timestamp;
      lastState := Some(actualState);
      Publish(moves, State, pattern);
    }

    /** The FreshState handler. */
    method OnFreshState(data: Packet) returns (ghost found: Option<seq<Move>>)
      requires data.body.FreshStateData?
      modifies this
      ensures var r := FreshStateReaction(puzzle, old(Remembered()), data, found);
        Remembered() == r.memory && log == old(log) + r.events
      ensures var search := SearchFor(puzzle, old(Remembered()), data, 0);
        search.Some? ==> IsSearchResult(puzzle, search.value.0, search.value.1, DefaultDepth, found)
    {
      var pattern := puzzle.stateToPattern(data.body.cubeState);
      var actualState := puzzle.stateToPattern(data.body.cubeState);
      var currentState := if lastState.Some? then lastState.value else actualState;

      lastTimestamp := data.header.timestamp;
      lastState := Some(actualState);

      found := None;
      if currentState == actualState {
        Publish([], FreshState, pattern);
        return;
      }

      var foundMoves := IdentifyMoves(puzzle, currentState, actualState, DefaultDepth);
      found := foundMoves;
      if foundMoves.None? || |foundMoves.value| == 0 {
        Publish([], FreshState, pattern);
        return;
      }

      var moves: seq<MoveEvent> := [];
      for i := 0 to |foundMoves.value|
        invariant moves == FoundMoves(found)[..i]
      {
        moves := moves + [MoveEvent(Some(foundMoves.value[i]), None, None)];
      }
      Publish(moves, FreshState, pattern);
    }

    /** The notification listener's `cubeState.handler[data.opcode](data)`. An unknown
        opcode finds no handler and changes nothing. */
    method Handle(data: Packet, localNow: int) returns (ghost found: Option<seq<Move>>)
      modifies this
      ensures var r := React(puzzle, old(Remembered()), data, localNow, found);
        if r.Some? then Remembered() == r.value.memory && log == old(log) + r.value.events
        else Remembered() == old(Remembered()) && log == old(log)
      ensures var search := SearchFor(puzzle, old(Remembered()), data, localNow);
        search.Some? ==> IsSearchResult(puzzle, search.value.0, search.value.1, DefaultDepth, found)
    {
      found := None;
      match data.body
      case HelloData(_) => OnHello(data);
      case SyncData(_) => OnSync(data);
      case StateData(_, _, _, _) => found := OnState(data, localNow);
      case FreshStateData(_) => found := OnFreshState(data);
      case UnknownData =>
    }
  }
}
