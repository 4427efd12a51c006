/** One-shot timers with their stored rows, and heartbeats (mudd/src/timers/mod.rs:158-317). Wall-clock and monotonic
    time are arguments, in milliseconds. */
module Timers {
  import opened Wrappers
  import T = Text

  datatype Timer = Timer(id: string, universeId: string, objectId: string, callback: string, fireAt: int,
                         args: Option<string>)

  datatype HeartBeat = HeartBeat(universeId: string, objectId: string, intervalMs: nat, lastFired: int,
                                 callback: string)

  datatype Fired = Fired(objectId: string, universeId: string, callback: string, args: Option<string>)

  type TimerMap = map<string, Timer>

  type HeartBeatMap = map<string, HeartBeat>

  datatype State = State(timers: TimerMap, table: TimerMap, heartbeats: HeartBeatMap)

  datatype Op =
    | Add(timer: Timer)
    | Remove(id: string)
    | RemoveForObject(objectId: string)
    | SetHeartbeat(heartbeat: HeartBeat)
    | RemoveHeartbeat(beating: string)
    | Tick(now: int, instant: int)
    | Restart

  // ----- One operation -----

  function DueIn(timers: TimerMap, ids: seq<string>, now: int): seq<Timer> {
    if ids == [] then []
    else
      var id, front := ids[|ids| - 1], DueIn(timers, ids[..|ids| - 1], now);
      if id in timers && timers[id].fireAt <= now then front + [timers[id]] else front
  }

  /** The due timers, by ascending id. */
  ghost function Due(timers: TimerMap, now: int): seq<Timer> { DueIn(timers, T.Ascending(timers.Keys), now) }

  predicate Beats(h: HeartBeat, instant: int) { instant - h.lastFired >= h.intervalMs }

  function BeatingIn(heartbeats: HeartBeatMap, ids: seq<string>, instant: int): seq<HeartBeat> {
    if ids == [] then []
    else
      var id, front := ids[|ids| - 1], BeatingIn(heartbeats, ids[..|ids| - 1], instant);
      if id in heartbeats && Beats(heartbeats[id], instant) then front + [heartbeats[id]] else front
  }

  ghost function Beating(heartbeats: HeartBeatMap, instant: int): seq<HeartBeat> {
    BeatingIn(heartbeats, T.Ascending(heartbeats.Keys), instant)
  }

  function NotDue(timers: TimerMap, now: int): TimerMap {
    map id | id in timers && timers[id].fireAt > now :: timers[id]
  }

  function OfOthers(timers: TimerMap, objectId: string): TimerMap {
    map id | id in timers && timers[id].objectId != objectId :: timers[id]
  }

  function BeatOne(h: HeartBeat, instant: int): HeartBeat {
    if Beats(h, instant) then h.(lastFired := instant) else h
  }

  function AfterBeat(heartbeats: HeartBeatMap, instant: int): HeartBeatMap {
    map o | o in heartbeats :: BeatOne(heartbeats[o], instant)
  }

  /** A tick half done: the heartbeats of `done` have been looked at. */
  function BeatSome(heartbeats: HeartBeatMap, done: seq<string>, instant: int): HeartBeatMap {
    map o | o in heartbeats :: if o in done then BeatOne(heartbeats[o], instant) else heartbeats[o]
  }

  lemma BeatNext(heartbeats: HeartBeatMap, done: seq<string>, o: string, instant: int)
    requires o in heartbeats && o !in done
    ensures o in BeatSome(heartbeats, done, instant) && BeatSome(heartbeats, done, instant)[o] == heartbeats[o]
    ensures BeatSome(heartbeats, done + [o], instant)
         == if Beats(heartbeats[o], instant)
            then BeatSome(heartbeats, done, instant)[o := heartbeats[o].(lastFired := instant)]
            else BeatSome(heartbeats, done, instant)
  {
  }

  function CallHeartbeats(beats: seq<HeartBeat>): seq<Fired> {
    seq(|beats|, i requires 0 <= i < |beats| =>
      Fired(beats[i].objectId, beats[i].universeId, beats[i].callback, None))
  }

  lemma BeatNone(heartbeats: HeartBeatMap, instant: int)
    ensures BeatSome(heartbeats, [], instant) == heartbeats && CallHeartbeats(BeatingIn(heartbeats, [], instant)) == []
  {
  }

  /** All the heartbeats have been looked at. */
  lemma BeatAll(heartbeats: HeartBeatMap, done: seq<string>, instant: int)
    requires forall o | o in heartbeats :: o in done
    ensures BeatSome(heartbeats, done, instant) == AfterBeat(heartbeats, instant)
  {
  }

  lemma CallNext(heartbeats: HeartBeatMap, done: seq<string>, o: string, instant: int)
    requires o in heartbeats
    ensures CallHeartbeats(BeatingIn(heartbeats, done + [o], instant))
         == CallHeartbeats(BeatingIn(heartbeats, done, instant))
            + if Beats(heartbeats[o], instant)
              then [Fired(heartbeats[o].objectId, heartbeats[o].universeId, heartbeats[o].callback, None)] else []
  {
    assert (done + [o])[..|done|] == done;
  }

  function Without<V>(m: map<string, V>, k: string): map<string, V> { m - {k} }

  /** Rows are deleted for the timers that memory knows to be gone; a restart rereads the rows, and loses heartbeats. */
  function Step(s: State, op: Op): State {
    match op
    case Add(t) => s.(timers := s.timers[t.id := t], table := s.table[t.id := t])
    case Remove(id) => s.(timers := Without(s.timers, id), table := Without(s.table, id))
    case RemoveForObject(o) =>
      var left := OfOthers(s.timers, o);
      s.(timers := left, table := s.table - (s.timers.Keys - left.Keys))
    case SetHeartbeat(h) => s.(heartbeats := s.heartbeats[h.objectId := h])
    case RemoveHeartbeat(o) => s.(heartbeats := Without(s.heartbeats, o))
    case Tick(now, instant) =>
      var left := NotDue(s.timers, now);
      State(left, s.table - (s.timers.Keys - left.Keys), AfterBeat(s.heartbeats, instant))
    case Restart => State(s.table, s.table, map[])
  }

  function CallTimers(timers: seq<Timer>): seq<Fired> {
    seq(|timers|, i requires 0 <= i < |timers| =>
      Fired(timers[i].objectId, timers[i].universeId, timers[i].callback, timers[i].args))
  }

  /** What a tick hands to the scripts: due timers, then heartbeats. */
  ghost function Output(s: State, op: Op): seq<Fired> {
    if op.Tick? then CallTimers(Due(s.timers, op.now)) + CallHeartbeats(Beating(s.heartbeats, op.instant)) else []
  }

  // ----- What holds after every operation -----

  ghost predicate Keyed(s: State) {
    && (forall id | id in s.timers :: s.timers[id].id == id)
    && (forall o | o in s.heartbeats :: s.heartbeats[o].objectId == o)
  }

  ghost predicate Valid(s: State) { Keyed(s) && s.timers == s.table }

  const INIT: State := State(map[], map[], map[])

  lemma StepKeepsValid(s: State, op: Op)
    requires Valid(s)
    ensures Valid(Step(s, op))
  {
  }

  function Run(s: State, ops: seq<Op>): State {
    if ops == [] then s else Step(Run(s, ops[..|ops| - 1]), ops[|ops| - 1])
  }

  /** Memory equals the stored rows after every operation of every run. */
  lemma {:induction false} RunKeepsValid(ops: seq<Op>)
    ensures Valid(Run(INIT, ops))
  {
    if ops != [] {
      RunKeepsValid(ops[..|ops| - 1]);
      StepKeepsValid(Run(INIT, ops[..|ops| - 1]), ops[|ops| - 1]);
    }
  }

  lemma {:induction false} DueInExactly(timers: TimerMap, ids: seq<string>, now: int, t: Timer)
    requires forall id | id in timers :: timers[id].id == id
    ensures t in DueIn(timers, ids, now) <==> t.id in ids && t.id in timers && timers[t.id] == t && t.fireAt <= now
  {
    if ids != [] {
      var front := ids[..|ids| - 1];
      DueInExactly(timers, front, now, t);
      assert ids == front + [ids[|ids| - 1]];
    }
  }

  lemma DueExactly(timers: TimerMap, now: int, t: Timer)
    requires forall id | id in timers :: timers[id].id == id
    ensures t in Due(timers, now) <==> t.id in timers && timers[t.id] == t && t.fireAt <= now
  {
    T.AscendingHasAll(timers.Keys);
    DueInExactly(timers, T.Ascending(timers.Keys), now, t);
  }

  predicate Ascend(timers: seq<Timer>) {
    forall i, j | 0 <= i < j < |timers| :: T.Less(timers[i].id, timers[j].id)
  }

  lemma {:induction false} DueInAscends(timers: TimerMap, ids: seq<string>, now: int)
    requires forall id | id in timers :: timers[id].id == id
    requires forall i, j | 0 <= i < j < |ids| :: T.Less(ids[i], ids[j])
    ensures Ascend(DueIn(timers, ids, now))
  {
    hide T.Less;
    if ids != [] {
      var front, last := ids[..|ids| - 1], ids[|ids| - 1];
      DueInAscends(timers, front, now);
      forall t | t in DueIn(timers, front, now) ensures T.Less(t.id, last) {
        DueInExactly(timers, front, now, t);
        var i :| 0 <= i < |front| && front[i] == t.id;
        assert ids[i] == t.id;
      }
    }
  }

  /** A tick hands out the due timers in the order of their ids, none twice. */
  lemma DueAscends(timers: TimerMap, now: int)
    requires forall id | id in timers :: timers[id].id == id
    ensures Ascend(Due(timers, now))
    ensures forall i, j | 0 <= i < j < |Due(timers, now)| :: Due(timers, now)[i] != Due(timers, now)[j]
  {
    hide T.Less;
    T.AscendingHasAll(timers.Keys);
    DueInAscends(timers, T.Ascending(timers.Keys), now);
    var due := Due(timers, now);
    forall i, j | 0 <= i < j < |due| ensures due[i] != due[j] { T.LessIsTotal(due[i].id, due[j].id); }
  }

  // ----- Exactly once -----

  /** The operation takes `t` out of the manager, by firing it or otherwise, or replaces it. */
  predicate Ends(op: Op, t: Timer) {
    match op
    case Add(other) => other.id == t.id
    case Remove(id) => id == t.id
    case RemoveForObject(o) => o == t.objectId
    case Tick(now, _) => t.fireAt <= now
    case _ => false
  }

  /** `t` was added by operation `k`, and nothing ended it before operation `j`. */
  ghost predicate Waits(ops: seq<Op>, k: nat, j: nat, t: Timer) {
    k < j <= |ops| && ops[k] == Add(t) && forall i | k < i < j :: !Ends(ops[i], t)
  }

  predicate Pending(s: State, t: Timer) { t.id in s.timers && s.timers[t.id] == t }

  lemma PendingStep(s: State, op: Op, t: Timer)
    requires Valid(s)
    ensures Pending(Step(s, op), t) <==> op == Add(t) || (Pending(s, t) && !Ends(op, t))
  {
  }

  lemma WaitedBefore(ops: seq<Op>, k: nat, j: nat, t: Timer)
    requires 0 < j <= |ops| && Waits(ops, k, j, t)
    ensures ops[j - 1] == Add(t) || (!Ends(ops[j - 1], t) && Waits(ops, k, j - 1, t))
  {
  }

  /** A timer is pending exactly when some call added it and nothing has ended it since. */
  lemma {:induction false} PendingIff(ops: seq<Op>, j: nat, t: Timer)
    requires j <= |ops|
    ensures Pending(Run(INIT, ops[..j]), t) <==> exists k: nat :: Waits(ops, k, j, t)
  {
    if j > 0 {
      var before := Run(INIT, ops[..j - 1]);
      assert ops[..j][..j - 1] == ops[..j - 1];
      PendingIff(ops, j - 1, t);
      RunKeepsValid(ops[..j - 1]);
      PendingStep(before, ops[j - 1], t);
      if ops[j - 1] == Add(t) {
        assert Waits(ops, j - 1, j, t);
      } else if Pending(before, t) && !Ends(ops[j - 1], t) {
        var k: nat :| Waits(ops, k, j - 1, t);
        assert Waits(ops, k, j, t);
      } else {
        forall k: nat | Waits(ops, k, j, t) ensures false { WaitedBefore(ops, k, j, t); }
      }
    }
  }

  /** Operation `j` is a tick that hands out `t`. */
  ghost predicate FiresAt(ops: seq<Op>, j: nat, t: Timer) {
    j < |ops| && ops[j].Tick? && t in Due(Run(INIT, ops[..j]).timers, ops[j].now)
  }

  /** A timer fires at exactly those ticks that are the first at or after its time since a call added it: not earlier,
      not after it was removed, and restarts do not matter. */
  lemma FiresIff(ops: seq<Op>, j: nat, t: Timer)
    ensures FiresAt(ops, j, t) <==>
              && j < |ops| && ops[j].Tick? && t.fireAt <= ops[j].now
              && exists k: nat :: Waits(ops, k, j, t)
  {
    if j < |ops| && ops[j].Tick? {
      RunKeepsValid(ops[..j]);
      DueExactly(Run(INIT, ops[..j]).timers, ops[j].now, t);
      PendingIff(ops, j, t);
    }
  }

  /** The call runs what the timer was added with. */
  ghost predicate CallsTimer(f: Fired, t: Timer) {
    f.objectId == t.objectId && f.universeId == t.universeId && f.callback == t.callback && f.args == t.args
  }

  ghost predicate CallsHeartbeat(f: Fired, h: HeartBeat) {
    f.objectId == h.objectId && f.universeId == h.universeId && f.callback == h.callback && f.args == None
  }

  /** One call for each due timer, in their order, then one for each heartbeat that beats. */
  lemma CallsAre(s: State, now: int, instant: int)
    ensures var calls := Output(s, Tick(now, instant));
            var due, beating := Due(s.timers, now), Beating(s.heartbeats, instant);
            && |calls| == |due| + |beating|
            && (forall i | 0 <= i < |due| :: CallsTimer(calls[i], due[i]))
            && (forall i | 0 <= i < |beating| :: CallsHeartbeat(calls[|due| + i], beating[i]))
  {
    hide Due, Beating;
  }

  /** In every run a timer that was added, and not ended since, is called by the tick at which it fires: its object in
      its universe, with its callback and arguments. */
  lemma FiresItsCall(ops: seq<Op>, k: nat, j: nat, t: Timer) returns (f: Fired)
    requires Waits(ops, k, j, t) && j < |ops| && ops[j].Tick? && t.fireAt <= ops[j].now
    ensures f in Output(Run(INIT, ops[..j]), ops[j]) && CallsTimer(f, t)
  {
    FiresIff(ops, j, t);
    var s, now, instant := Run(INIT, ops[..j]), ops[j].now, ops[j].instant;
    var due := Due(s.timers, now);
    var i :| 0 <= i < |due| && due[i] == t;
    CallsAre(s, now, instant);
    f := Output(s, ops[j])[i];
  }

  /** One call of `add_timer` leads to one firing at most. */
  lemma FiresAtMostOnce(ops: seq<Op>, j: nat, j': nat, t: Timer)
    requires j < j' && FiresAt(ops, j, t) && FiresAt(ops, j', t)
    ensures exists k :: j < k < j' && ops[k] == Add(t)
  {
    FiresIff(ops, j, t);
    FiresIff(ops, j', t);
    var k: nat :| Waits(ops, k, j', t);
    assert Ends(ops[j], t);
    assert k > j;
  }

  /** Ticks lock the timers once to list the due ones and then once for each removal: two ticks that list before either
      removes hand out the same timer exactly when it is pending and due for both. */
  lemma OverlapHandsOutTwiceIff(ops: seq<Op>, now: int, now': int, t: Timer)
    ensures var timers := Run(INIT, ops).timers;
            t in Due(timers, now) && t in Due(timers, now')
            <==> (exists k: nat :: Waits(ops, k, |ops|, t)) && t.fireAt <= now && t.fireAt <= now'
  {
    RunKeepsValid(ops);
    DueExactly(Run(INIT, ops).timers, now, t);
    DueExactly(Run(INIT, ops).timers, now', t);
    PendingIff(ops, |ops|, t);
    assert ops[..|ops|] == ops;
  }

  // ----- Restarts change no timer -----

  function WithoutRestarts(ops: seq<Op>): seq<Op> {
    if ops == [] then []
    else
      var front := WithoutRestarts(ops[..|ops| - 1]);
      if ops[|ops| - 1].Restart? then front else front + [ops[|ops| - 1]]
  }

  ghost function AllFired(s: State, ops: seq<Op>): seq<Timer> {
    if ops == [] then []
    else
      var front, op := ops[..|ops| - 1], ops[|ops| - 1];
      AllFired(s, front) + if op.Tick? then Due(Run(s, front).timers, op.now) else []
  }

  lemma SameTimersStep(s: State, s': State, op: Op)
    requires s.timers == s'.timers && s.table == s'.table
    ensures Step(s, op).timers == Step(s', op).timers && Step(s, op).table == Step(s', op).table
  {
  }

  /** With or without the restarts, the same timers fire in the same order and the same ones are left. */
  lemma {:induction false} RestartsChangeNoTimer(ops: seq<Op>)
    ensures Run(INIT, WithoutRestarts(ops)).timers == Run(INIT, ops).timers
    ensures AllFired(INIT, WithoutRestarts(ops)) == AllFired(INIT, ops)
    ensures forall op | op in WithoutRestarts(ops) :: !op.Restart?
  {
    if ops != [] {
      var front, op := ops[..|ops| - 1], ops[|ops| - 1];
      var kept := WithoutRestarts(front);
      RestartsChangeNoTimer(front);
      RunKeepsValid(front);
      RunKeepsValid(kept);
      if !op.Restart? {
        assert (kept + [op])[..|kept|] == kept;
        SameTimersStep(Run(INIT, kept), Run(INIT, front), op);
      }
    }
  }

  // ----- Heartbeats -----

  predicate Resets(op: Op, objectId: string) { op.SetHeartbeat? && op.heartbeat.objectId == objectId }

  /** Operation `j` is a tick at which the object's heartbeat, as it then is, beats. */
  ghost predicate BeatsAt(ops: seq<Op>, j: nat, o: string, h: HeartBeat) {
    && j < |ops| && ops[j].Tick?
    && o in Run(INIT, ops[..j]).heartbeats && Run(INIT, ops[..j]).heartbeats[o] == h && Beats(h, ops[j].instant)
  }

  lemma {:induction false} BeatingExactly(heartbeats: HeartBeatMap, ids: seq<string>, instant: int, h: HeartBeat)
    requires forall o | o in heartbeats :: heartbeats[o].objectId == o
    ensures h in BeatingIn(heartbeats, ids, instant) <==>
              h.objectId in ids && h.objectId in heartbeats && heartbeats[h.objectId] == h && Beats(h, instant)
  {
    if ids != [] {
      var front := ids[..|ids| - 1];
      BeatingExactly(heartbeats, front, instant, h);
      assert ids == front + [ids[|ids| - 1]];
    }
  }

  /** Nothing between `k` and `j` sets or removes the object's heartbeat, or loses it in a restart. */
  ghost predicate Undisturbed(ops: seq<Op>, k: nat, j: nat, o: string) {
    forall n | k < n < j && n < |ops| :: !Resets(ops[n], o) && ops[n] != RemoveHeartbeat(o) && !ops[n].Restart?
  }

  /** When the heartbeat set by operation `k` last fired before operation `j`: each tick that comes its interval or more
      after the time before takes its place. */
  function LastBeat(ops: seq<Op>, k: nat, j: nat): int
    requires k < j <= |ops| && ops[k].SetHeartbeat?
    decreases j
  {
    if j == k + 1 then ops[k].heartbeat.lastFired
    else
      var before := LastBeat(ops, k, j - 1);
      if ops[j - 1].Tick? && before + ops[k].heartbeat.intervalMs <= ops[j - 1].instant then ops[j - 1].instant
      else before
  }

  lemma {:induction false} KeepsHeartbeat(ops: seq<Op>, k: nat, j: nat)
    requires k < j <= |ops| && ops[k].SetHeartbeat? && Undisturbed(ops, k, j, ops[k].heartbeat.objectId)
    ensures var h, s := ops[k].heartbeat, Run(INIT, ops[..j]);
            h.objectId in s.heartbeats && s.heartbeats[h.objectId] == h.(lastFired := LastBeat(ops, k, j))
    decreases j
  {
    assert ops[..j][..j - 1] == ops[..j - 1];
    if j > k + 1 { KeepsHeartbeat(ops, k, j - 1); }
  }

  /** An object has a heartbeat exactly while some call set it and nothing has removed it, or restarted, since. */
  lemma {:induction false} HasHeartbeatIff(ops: seq<Op>, j: nat, o: string)
    requires j <= |ops|
    ensures o in Run(INIT, ops[..j]).heartbeats <==>
              exists k: nat :: k < j && Resets(ops[k], o) && Undisturbed(ops, k, j, o)
    decreases j
  {
    if j > 0 {
      var last := ops[j - 1];
      assert ops[..j][..j - 1] == ops[..j - 1];
      HasHeartbeatIff(ops, j - 1, o);
      if Resets(last, o) {
        assert Undisturbed(ops, j - 1, j, o);
      } else if last == RemoveHeartbeat(o) || last.Restart? {
        assert forall k: nat | k < j && Resets(ops[k], o) :: k < j - 1 && !Undisturbed(ops, k, j, o);
      } else {
        assert forall k: nat | k < j - 1 :: Undisturbed(ops, k, j, o) <==> Undisturbed(ops, k, j - 1, o);
      }
    }
  }

  /** While it is not disturbed, a heartbeat is called at exactly the ticks at which its interval has passed. */
  lemma BeatsIff(ops: seq<Op>, k: nat, j: nat)
    requires k < j < |ops| && ops[k].SetHeartbeat? && ops[j].Tick?
    requires Undisturbed(ops, k, j, ops[k].heartbeat.objectId)
    ensures var h, s, last := ops[k].heartbeat, Run(INIT, ops[..j]), LastBeat(ops, k, j);
            h.(lastFired := last) in Beating(s.heartbeats, ops[j].instant) <==> last + h.intervalMs <= ops[j].instant
  {
    var h, s := ops[k].heartbeat.(lastFired := LastBeat(ops, k, j)), Run(INIT, ops[..j]);
    KeepsHeartbeat(ops, k, j);
    RunKeepsValid(ops[..j]);
    T.AscendingHasAll(s.heartbeats.Keys);
    BeatingExactly(s.heartbeats, T.Ascending(s.heartbeats.Keys), ops[j].instant, h);
  }

  /** The tick clock does not run backwards after operation `i`. */
  ghost predicate ClockFrom(ops: seq<Op>, i: nat) {
    i < |ops| && ops[i].Tick? && forall n | i < n < |ops| && ops[n].Tick? :: ops[i].instant <= ops[n].instant
  }

  /** Until it is set anew, a heartbeat keeps its interval and remembers that it beat. */
  lemma {:induction false} RemembersBeat(ops: seq<Op>, i: nat, j: nat, o: string, h: HeartBeat)
    requires i < j <= |ops| && BeatsAt(ops, i, o, h) && ClockFrom(ops, i)
    requires forall n | i < n < j :: !Resets(ops[n], o)
    ensures var s := Run(INIT, ops[..j]);
            o in s.heartbeats ==>
              s.heartbeats[o].intervalMs == h.intervalMs && s.heartbeats[o].lastFired >= ops[i].instant
  {
    assert ops[..j][..j - 1] == ops[..j - 1];
    if j > i + 1 { RemembersBeat(ops, i, j - 1, o, h); }
  }

  /** Two beats of one heartbeat are at least its interval apart, whatever else happens in between. */
  lemma BeatsAreSpaced(ops: seq<Op>, i: nat, j: nat, o: string, h: HeartBeat, h': HeartBeat)
    requires i < j && BeatsAt(ops, i, o, h) && BeatsAt(ops, j, o, h') && ClockFrom(ops, i)
    requires forall n | i < n < j :: !Resets(ops[n], o)
    ensures h'.intervalMs == h.intervalMs && ops[j].instant - ops[i].instant >= h.intervalMs
  {
    RemembersBeat(ops, i, j, o, h);
  }
}
