/** Reconnecting within the grace period (mudd/src/api/websocket.rs:34-99, 291-300, 333, 415-454). Sockets
    and delayed disconnect tasks of authenticated players, interleaved one locked section at a time. */
module GracePeriod {
  import opened Wrappers

  type Player = string

  const GRACE_MS: nat := 5000

  // ----- The connection manager -----

  /** A one-shot channel is a number; it is ready once its sender has sent or has been dropped. */
  datatype Hub = Hub(sessions: map<Player, nat>, pending: map<Player, nat>, ready: set<nat>, nextChannel: nat)

  function CancelPending(h: Hub, p: Player): Hub {
    if p in h.pending then h.(ready := h.ready + {h.pending[p]}, pending := h.pending - {p}) else h
  }

  /** Inserting over an old sender drops it. */
  function ScheduleDisconnect(h: Hub, p: Player): Hub {
    h.(ready := if p in h.pending then h.ready + {h.pending[p]} else h.ready,
       pending := h.pending[p := h.nextChannel],
       nextChannel := h.nextChannel + 1)
  }

  /** Removing a sender from the map drops it too, so clearing and cancelling do the same to the hub. */
  function ClearPending(h: Hub, p: Player): Hub { CancelPending(h, p) }

  function Register(h: Hub, p: Player, socket: nat): Hub { h.(sessions := h.sessions[p := socket]) }

  /** By player: whichever socket had registered last. */
  function Unregister(h: Hub, p: Player): Hub { h.(sessions := h.sessions - {p}) }

  // ----- Sockets and tasks -----

  datatype SocketPhase = Connecting | Joining | Registered | Closing | Gone

  datatype Socket = Socket(player: Player, phase: SocketPhase)

  /** A task waits in its select, or runs the timer branch (clear, then handle), or has ended. */
  datatype TaskPhase = Waiting | Clearing | Handling | Handled | Cancelled

  datatype Task = Task(player: Player, deadline: nat, phase: TaskPhase)

  /** Each task waits on the channel of its own number. */
  datatype Net = Net(now: nat, hub: Hub, sockets: map<nat, Socket>, tasks: map<nat, Task>)

  datatype Action =
    | Open(s: nat, p: Player)
    | Cancel(s: nat)
    | Join(s: nat)
    | Leave(s: nat)
    | Schedule(s: nat)
    | Tick(ms: nat)
    | TakeTimer(t: nat)
    | TakeCancel(t: nat)
    | Clear(t: nat)
    | Handle(t: nat)

  predicate InPhase(n: Net, s: nat, phase: SocketPhase) { s in n.sockets && n.sockets[s].phase == phase }

  predicate AtTask(n: Net, t: nat, phase: TaskPhase) { t in n.tasks && n.tasks[t].phase == phase }

  /** `cancelWins`: a ready cancel is preferred when the timer is ready too. */
  predicate Enabled(n: Net, a: Action, cancelWins: bool) {
    match a
    case Open(s, _) => s !in n.sockets
    case Cancel(s) => InPhase(n, s, Connecting)
    case Join(s) => InPhase(n, s, Joining)
    case Leave(s) => InPhase(n, s, Registered)
    case Schedule(s) => InPhase(n, s, Closing)
    case Tick(_) => true
    case TakeTimer(t) => AtTask(n, t, Waiting) && n.tasks[t].deadline <= n.now && (cancelWins ==> t !in n.hub.ready)
    case TakeCancel(t) => AtTask(n, t, Waiting) && t in n.hub.ready
    case Clear(t) => AtTask(n, t, Clearing)
    case Handle(t) => AtTask(n, t, Handling)
  }

  function Moved(n: Net, s: nat, phase: SocketPhase): map<nat, Socket>
    requires s in n.sockets
  {
    n.sockets[s := n.sockets[s].(phase := phase)]
  }

  function Advanced(n: Net, t: nat, phase: TaskPhase): map<nat, Task>
    requires t in n.tasks
  {
    n.tasks[t := n.tasks[t].(phase := phase)]
  }

  function Step(n: Net, a: Action): Net
    requires Enabled(n, a, false)
  {
    match a
    case Open(s, p) => n.(sockets := n.sockets[s := Socket(p, Connecting)])
    case Cancel(s) => n.(sockets := Moved(n, s, Joining), hub := CancelPending(n.hub, n.sockets[s].player))
    case Join(s) => n.(sockets := Moved(n, s, Registered), hub := Register(n.hub, n.sockets[s].player, s))
    case Leave(s) => n.(sockets := Moved(n, s, Closing), hub := Unregister(n.hub, n.sockets[s].player))
    case Schedule(s) =>
      var p := n.sockets[s].player;
      n.(sockets := Moved(n, s, Gone), hub := ScheduleDisconnect(n.hub, p),
         tasks := n.tasks[n.hub.nextChannel := Task(p, n.now + GRACE_MS, Waiting)])
    case Tick(ms) => n.(now := n.now + ms)
    case TakeTimer(t) => n.(tasks := Advanced(n, t, Clearing))
    case TakeCancel(t) => n.(tasks := Advanced(n, t, Cancelled))
    case Clear(t) => n.(tasks := Advanced(n, t, Handling), hub := ClearPending(n.hub, n.tasks[t].player))
    case Handle(t) => n.(tasks := Advanced(n, t, Handled))
  }

  /** A player opens a socket only when its earlier ones are gone. */
  ghost predicate NoOverlap(n: Net, a: Action) {
    a.Open? ==> forall s | s in n.sockets && n.sockets[s].player == a.p :: n.sockets[s].phase == Gone
  }

  ghost predicate IsRun(ns: seq<Net>, acts: seq<Action>, cancelWins: bool) {
    && |ns| == |acts| + 1
    && ns[0] == Net(0, Hub(map[], map[], {}, 0), map[], map[])
    && forall i | 0 <= i < |acts| ::
         Enabled(ns[i], acts[i], cancelWins) && Enabled(ns[i], acts[i], false) && ns[i + 1] == Step(ns[i], acts[i])
  }

  // ----- At most one task per player can still fire its timer -----

  ghost predicate Live(n: Net, t: nat) { AtTask(n, t, Waiting) && t !in n.hub.ready }

  ghost predicate PendingIsLive(n: Net) {
    && (forall t | t in n.tasks :: t < n.hub.nextChannel)
    && (forall t | t in n.hub.ready :: t < n.hub.nextChannel)
    && (forall t | Live(n, t) :: n.tasks[t].player in n.hub.pending && n.hub.pending[n.tasks[t].player] == t)
    && (forall p | p in n.hub.pending :: n.hub.pending[p] in n.tasks && n.tasks[n.hub.pending[p]].player == p)
  }

  lemma StepKeepsPending(n: Net, a: Action)
    requires PendingIsLive(n) && Enabled(n, a, false)
    ensures PendingIsLive(Step(n, a))
  {
    var m := Step(n, a);
    forall t | Live(m, t) ensures m.tasks[t].player in m.hub.pending && m.hub.pending[m.tasks[t].player] == t {
      if a.Schedule? && t == n.hub.nextChannel { } else { assert Live(n, t); }
    }
  }

  lemma {:induction false} RunKeepsPending(ns: seq<Net>, acts: seq<Action>, cancelWins: bool)
    requires IsRun(ns, acts, cancelWins)
    ensures PendingIsLive(ns[|acts|])
    decreases |acts|
  {
    if acts != [] {
      var n := |acts| - 1;
      RunKeepsPending(ns[..n + 1], acts[..n], cancelWins);
      StepKeepsPending(ns[n], acts[n]);
    }
  }

  /** Over every interleaving, overlapping sockets included. */
  lemma OneLiveTask(ns: seq<Net>, acts: seq<Action>, cancelWins: bool, t: nat, u: nat)
    requires IsRun(ns, acts, cancelWins)
    ensures var n := ns[|acts|];
            && (Live(n, t) ==> n.tasks[t].player in n.hub.pending && n.hub.pending[n.tasks[t].player] == t)
            && (Live(n, t) && Live(n, u) && n.tasks[t].player == n.tasks[u].player ==> t == u)
  {
    RunKeepsPending(ns, acts, cancelWins);
  }

  /** What the map stores is unused, and a sender once used or dropped is not in it any more. */
  ghost predicate StoredAreUnused(n: Net) {
    forall p | p in n.hub.pending :: n.hub.pending[p] !in n.hub.ready
  }

  lemma StepKeepsUnused(n: Net, a: Action)
    requires PendingIsLive(n) && StoredAreUnused(n) && Enabled(n, a, false)
    ensures StoredAreUnused(Step(n, a))
  {
  }

  /** In every interleaving the map holds only senders that have neither sent nor been dropped. */
  lemma {:induction false} RunKeepsUnused(ns: seq<Net>, acts: seq<Action>, cancelWins: bool)
    requires IsRun(ns, acts, cancelWins)
    ensures StoredAreUnused(ns[|acts|])
    decreases |acts|
  {
    if acts != [] {
      var n := |acts| - 1;
      RunKeepsUnused(ns[..n + 1], acts[..n], cancelWins);
      RunKeepsPending(ns[..n + 1], acts[..n], cancelWins);
      StepKeepsUnused(ns[n], acts[n]);
    }
  }

  // ----- No timer fires for a connected player -----

  predicate Present(phase: SocketPhase) { phase == Joining || phase == Registered || phase == Closing }

  ghost predicate SocketsApart(n: Net) {
    forall s, r | s in n.sockets && r in n.sockets && n.sockets[s].player == n.sockets[r].player && s != r ::
      n.sockets[s].phase == Gone || n.sockets[r].phase == Gone
  }

  ghost predicate NoLiveBeside(n: Net) {
    forall s, t | s in n.sockets && Present(n.sockets[s].phase) && Live(n, t) ::
      n.tasks[t].player != n.sockets[s].player
  }

  ghost predicate SessionsRegistered(n: Net) {
    forall p | p in n.hub.sessions ::
      InPhase(n, n.hub.sessions[p], Registered) && n.sockets[n.hub.sessions[p]].player == p
  }

  /** Sockets of a player do not overlap; while one is present no task of the player is live; a session
      belongs to a registered socket. */
  ghost predicate Quiet(n: Net) { SocketsApart(n) && NoLiveBeside(n) && SessionsRegistered(n) }

  lemma StepKeepsApart(n: Net, a: Action)
    requires SocketsApart(n) && Enabled(n, a, false) && NoOverlap(n, a)
    ensures SocketsApart(Step(n, a))
  {
  }

  lemma StepKeepsNoLive(n: Net, a: Action)
    requires PendingIsLive(n) && SocketsApart(n) && NoLiveBeside(n) && Enabled(n, a, false)
    ensures NoLiveBeside(Step(n, a))
  {
    var m := Step(n, a);
    forall s, t | s in m.sockets && Present(m.sockets[s].phase) && Live(m, t)
      ensures m.tasks[t].player != m.sockets[s].player
    {
      if !(a.Schedule? && t == n.hub.nextChannel) {
        assert Live(n, t);
        assert s in n.sockets && m.sockets[s].player == n.sockets[s].player;
      }
    }
  }

  lemma StepKeepsSessions(n: Net, a: Action)
    requires SocketsApart(n) && SessionsRegistered(n) && Enabled(n, a, false)
    ensures SessionsRegistered(Step(n, a))
  {
    var m := Step(n, a);
    forall p | p in m.hub.sessions
      ensures InPhase(m, m.hub.sessions[p], Registered) && m.sockets[m.hub.sessions[p]].player == p
    {
      if !(a.Join? && n.sockets[a.s].player == p) { assert InPhase(n, n.hub.sessions[p], Registered); }
    }
  }

  lemma StepKeepsQuiet(n: Net, a: Action)
    requires PendingIsLive(n) && Quiet(n) && Enabled(n, a, false) && NoOverlap(n, a)
    ensures Quiet(Step(n, a))
  {
    StepKeepsApart(n, a);
    StepKeepsNoLive(n, a);
    StepKeepsSessions(n, a);
  }

  lemma {:induction false} RunKeepsQuiet(ns: seq<Net>, acts: seq<Action>, cancelWins: bool)
    requires IsRun(ns, acts, cancelWins) && forall i | 0 <= i < |acts| :: NoOverlap(ns[i], acts[i])
    ensures PendingIsLive(ns[|acts|]) && Quiet(ns[|acts|])
    decreases |acts|
  {
    if acts != [] {
      var n := |acts| - 1;
      RunKeepsQuiet(ns[..n + 1], acts[..n], cancelWins);
      StepKeepsPending(ns[n], acts[n]);
      StepKeepsQuiet(ns[n], acts[n]);
    }
  }

  /** Without overlapping sockets, and with a ready cancel preferred, no task takes its timer branch while
      its player has a session. */
  lemma NoTimerWhileConnected(ns: seq<Net>, acts: seq<Action>, i: nat)
    requires IsRun(ns, acts, true) && forall k | 0 <= k < |acts| :: NoOverlap(ns[k], acts[k])
    requires i < |acts| && acts[i].TakeTimer?
    ensures ns[i].tasks[acts[i].t].player !in ns[i].hub.sessions
  {
    RunKeepsQuiet(ns[..i + 1], acts[..i], true);
    assert Live(ns[i], acts[i].t);
  }

  // ----- A brief disconnect is never handled -----

  /** What one step can do to a task. */
  lemma StepTask(n: Net, a: Action, cancelWins: bool, t: nat)
    requires PendingIsLive(n) && Enabled(n, a, cancelWins) && Enabled(n, a, false) && t in n.tasks
    ensures var m := Step(n, a);
            && t in m.tasks && m.tasks[t].player == n.tasks[t].player && m.tasks[t].deadline == n.tasks[t].deadline
            && (t in n.hub.ready ==> t in m.hub.ready) && n.now <= m.now
            && (AtTask(m, t, Waiting) ==> AtTask(n, t, Waiting))
            && (AtTask(n, t, Cancelled) ==> AtTask(m, t, Cancelled))
            && (AtTask(n, t, Waiting) ==> AtTask(m, t, Waiting) || AtTask(m, t, Cancelled) || a == TakeTimer(t))
            && (a == TakeTimer(t) ==> n.tasks[t].deadline <= n.now)
  {
  }

  lemma StepOfRun(ns: seq<Net>, acts: seq<Action>, cancelWins: bool, t: nat, j: nat)
    requires IsRun(ns, acts, cancelWins) && j < |acts| && t in ns[j].tasks
    ensures var n, m := ns[j], ns[j + 1];
            && t in m.tasks && m.tasks[t].player == n.tasks[t].player && m.tasks[t].deadline == n.tasks[t].deadline
            && (t in n.hub.ready ==> t in m.hub.ready) && n.now <= m.now
            && (AtTask(m, t, Waiting) ==> AtTask(n, t, Waiting))
            && (AtTask(n, t, Cancelled) ==> AtTask(m, t, Cancelled))
            && (AtTask(n, t, Waiting) ==> AtTask(m, t, Waiting) || AtTask(m, t, Cancelled) || acts[j] == TakeTimer(t))
            && (acts[j] == TakeTimer(t) ==> n.tasks[t].deadline <= n.now)
  {
    RunKeepsPending(ns[..j + 1], acts[..j], cancelWins);
    StepTask(ns[j], acts[j], cancelWins, t);
  }

  lemma {:induction false} TaskStays(ns: seq<Net>, acts: seq<Action>, cancelWins: bool, t: nat, i: nat, j: nat)
    requires IsRun(ns, acts, cancelWins) && i <= j <= |acts| && t in ns[i].tasks
    ensures t in ns[j].tasks && ns[j].tasks[t].player == ns[i].tasks[t].player
    ensures ns[j].tasks[t].deadline == ns[i].tasks[t].deadline
    ensures t in ns[i].hub.ready ==> t in ns[j].hub.ready
    ensures ns[i].now <= ns[j].now
    ensures AtTask(ns[j], t, Waiting) ==> AtTask(ns[i], t, Waiting)
    decreases j - i
  {
    if i < j {
      TaskStays(ns, acts, cancelWins, t, i, j - 1);
      StepOfRun(ns, acts, cancelWins, t, j - 1);
    }
  }

  /** The task that a closing socket makes. */
  lemma ScheduledTask(ns: seq<Net>, acts: seq<Action>, cancelWins: bool, a: nat)
    requires IsRun(ns, acts, cancelWins) && a < |acts| && acts[a].Schedule?
    ensures var t, p := ns[a].hub.nextChannel, ns[a].sockets[acts[a].s].player;
            && AtTask(ns[a + 1], t, Waiting) && ns[a + 1].tasks[t] == Task(p, ns[a].now + GRACE_MS, Waiting)
            && (forall k | 0 <= k <= a :: t !in ns[k].tasks)
  {
    var t := ns[a].hub.nextChannel;
    RunKeepsPending(ns[..a + 1], acts[..a], cancelWins);
    forall k | 0 <= k <= a ensures t !in ns[k].tasks {
      if t in ns[k].tasks { TaskStays(ns, acts, cancelWins, t, k, a); }
    }
  }

  /** While the task waits, its timer branch can be taken exactly when 5 seconds have passed since the disconnect, and,
      where a ready cancel wins the select, none is ready. */
  lemma TimerOpensIff(ns: seq<Net>, acts: seq<Action>, cancelWins: bool, a: nat, k: nat)
    requires IsRun(ns, acts, cancelWins) && a < k <= |acts| && acts[a].Schedule?
    requires AtTask(ns[k], ns[a].hub.nextChannel, Waiting)
    ensures var t := ns[a].hub.nextChannel;
            Enabled(ns[k], TakeTimer(t), cancelWins)
            <==> ns[a].now + 5000 <= ns[k].now && (cancelWins ==> t !in ns[k].hub.ready)
  {
    ScheduledTask(ns, acts, cancelWins, a);
    TaskStays(ns, acts, cancelWins, ns[a].hub.nextChannel, a + 1, k);
  }

  /** The player connects, disconnects again, or has a disconnect cleared: what uses or drops a stored sender. */
  predicate Drops(n: Net, a: Action, p: Player) {
    || ((a.Cancel? || a.Schedule?) && a.s in n.sockets && n.sockets[a.s].player == p)
    || (a.Clear? && a.t in n.tasks && n.tasks[a.t].player == p)
  }

  lemma StepReadies(n: Net, a: Action, t: nat)
    requires PendingIsLive(n) && Enabled(n, a, false) && t in n.tasks
    requires t !in n.hub.ready && t in Step(n, a).hub.ready
    ensures Drops(n, a, n.tasks[t].player)
  {
  }

  lemma {:induction false} ReadySince(ns: seq<Net>, acts: seq<Action>, cancelWins: bool, t: nat, i: nat, j: nat)
    returns (b: nat)
    requires IsRun(ns, acts, cancelWins) && i <= j <= |acts| && t in ns[i].tasks
    requires t !in ns[i].hub.ready && t in ns[j].hub.ready
    ensures i <= b < j && Drops(ns[b], acts[b], ns[i].tasks[t].player)
    decreases j - i
  {
    TaskStays(ns, acts, cancelWins, t, i, j - 1);
    if t in ns[j - 1].hub.ready {
      b := ReadySince(ns, acts, cancelWins, t, i, j - 1);
    } else {
      b := j - 1;
      RunKeepsPending(ns[..b + 1], acts[..b], cancelWins);
      StepReadies(ns[b], acts[b], t);
    }
  }

  /** A delayed disconnect is called off only after its player has connected, disconnected again, or had a disconnect
      cleared since it was made. */
  lemma CancelledForAReason(ns: seq<Net>, acts: seq<Action>, cancelWins: bool, a: nat, k: nat) returns (b: nat)
    requires IsRun(ns, acts, cancelWins) && a < k < |acts| && acts[a].Schedule?
    requires acts[k] == TakeCancel(ns[a].hub.nextChannel)
    ensures a < b < k && Drops(ns[b], acts[b], ns[a].sockets[acts[a].s].player)
  {
    var t := ns[a].hub.nextChannel;
    ScheduledTask(ns, acts, cancelWins, a);
    RunKeepsPending(ns[..a + 1], acts[..a], cancelWins);
    assert t !in ns[a].hub.ready && t !in ns[a + 1].hub.ready;
    assert Enabled(ns[k], acts[k], cancelWins);
    b := ReadySince(ns, acts, cancelWins, t, a + 1, k);
  }

  /** When the player cancels, whatever task of the player waits becomes ready, and stays so. */
  lemma CancelReadies(ns: seq<Net>, acts: seq<Action>, cancelWins: bool, t: nat, b: nat, k: nat)
    requires IsRun(ns, acts, cancelWins) && b < k <= |acts| && acts[b].Cancel?
    requires AtTask(ns[b], t, Waiting) && ns[b].tasks[t].player == ns[b].sockets[acts[b].s].player
    ensures t in ns[k].tasks && t in ns[k].hub.ready
  {
    RunKeepsPending(ns[..b + 1], acts[..b], cancelWins);
    assert Live(ns[b], t) ==> t in ns[b + 1].hub.ready;
    TaskStays(ns, acts, cancelWins, t, b, b + 1);
    TaskStays(ns, acts, cancelWins, t, b + 1, k);
  }

  /** In every run, overlapping or not: a task made at step a whose player cancels at step b, less than the
      grace period later, takes its timer branch only if it is polled after its deadline and the select then
      chooses the timer although the cancel is ready. */
  lemma BriefDisconnectNeedsTie(ns: seq<Net>, acts: seq<Action>, cancelWins: bool, a: nat, b: nat, k: nat)
    requires IsRun(ns, acts, cancelWins) && a < b < |acts| && k < |acts|
    requires acts[a].Schedule? && acts[b].Cancel?
    requires ns[b].sockets[acts[b].s].player == ns[a].sockets[acts[a].s].player
    requires ns[b].now < ns[a].now + 5000
    ensures acts[k] == TakeTimer(ns[a].hub.nextChannel) ==>
              !cancelWins && b < k && ns[a].hub.nextChannel in ns[k].hub.ready && ns[a].now + 5000 <= ns[k].now
  {
    var t := ns[a].hub.nextChannel;
    ScheduledTask(ns, acts, cancelWins, a);
    if a < k && acts[k] == TakeTimer(t) {
      TaskStays(ns, acts, cancelWins, t, a + 1, k);
      assert Enabled(ns[k], acts[k], cancelWins);
      if k <= b {
        TaskStays(ns, acts, cancelWins, t, k, b);
      } else {
        TaskStays(ns, acts, cancelWins, t, a + 1, b);
        TaskStays(ns, acts, cancelWins, t, b, k);
        CancelReadies(ns, acts, cancelWins, t, b, k);
      }
    }
  }

  /** Where a ready cancel wins the select, a brief disconnect is never handled. */
  lemma BriefDisconnectNeverHandled(ns: seq<Net>, acts: seq<Action>, a: nat, b: nat, k: nat)
    requires IsRun(ns, acts, true) && a < b < |acts| && k < |acts|
    requires acts[a].Schedule? && acts[b].Cancel?
    requires ns[b].sockets[acts[b].s].player == ns[a].sockets[acts[a].s].player
    requires ns[b].now < ns[a].now + 5000
    ensures acts[k] != TakeTimer(ns[a].hub.nextChannel)
  {
    BriefDisconnectNeedsTie(ns, acts, true, a, b, k);
  }

  // ----- Each task runs its course once -----

  function Stage(n: Net, t: nat): nat {
    if t !in n.tasks then 0
    else
      match n.tasks[t].phase
      case Waiting => 0
      case Clearing => 1
      case Handling => 2
      case Handled => 3
      case Cancelled => 3
  }

  /** The stage at which the action finds task `t`, and the one at which it leaves it. */
  function Found(a: Action): nat {
    match a
    case Clear(_) => 1
    case Handle(_) => 2
    case _ => 0
  }

  function Left(a: Action): nat {
    match a
    case TakeTimer(_) => 1
    case Clear(_) => 2
    case _ => 3
  }

  predicate OfTask(a: Action, t: nat) { a == TakeTimer(t) || a == TakeCancel(t) || a == Clear(t) || a == Handle(t) }

  lemma StepStage(n: Net, a: Action, t: nat)
    requires PendingIsLive(n) && Enabled(n, a, false)
    ensures if OfTask(a, t) then Stage(n, t) == Found(a) && Stage(Step(n, a), t) == Left(a)
            else Stage(Step(n, a), t) == Stage(n, t)
  {
  }

  lemma {:induction false} StageGrows(ns: seq<Net>, acts: seq<Action>, cancelWins: bool, t: nat, i: nat, j: nat)
    requires IsRun(ns, acts, cancelWins) && i <= j <= |acts|
    ensures Stage(ns[i], t) <= Stage(ns[j], t)
    ensures Stage(ns[i], t) < Stage(ns[j], t) ==>
              exists k :: i <= k < j && OfTask(acts[k], t) && Left(acts[k]) == Stage(ns[j], t)
    decreases j - i
  {
    hide Stage;
    if i < j {
      StageGrows(ns, acts, cancelWins, t, i, j - 1);
      RunKeepsPending(ns[..j], acts[..j - 1], cancelWins);
      StepStage(ns[j - 1], acts[j - 1], t);
    }
  }

  /** In every run a task is taken by its timer, cleared and handled at most once each, in this order, and never beside
      its cancel branch. */
  lemma EachStageOnce(ns: seq<Net>, acts: seq<Action>, cancelWins: bool, t: nat, i: nat, j: nat)
    requires IsRun(ns, acts, cancelWins) && i < j < |acts| && OfTask(acts[i], t) && OfTask(acts[j], t)
    ensures || (acts[i] == TakeTimer(t) && (acts[j] == Clear(t) || acts[j] == Handle(t)))
            || (acts[i] == Clear(t) && acts[j] == Handle(t))
  {
    RunKeepsPending(ns[..i + 1], acts[..i], cancelWins);
    RunKeepsPending(ns[..j + 1], acts[..j], cancelWins);
    StepStage(ns[i], acts[i], t);
    StepStage(ns[j], acts[j], t);
    hide Stage, Step, Enabled;
    StageGrows(ns, acts, cancelWins, t, i + 1, j);
  }

  lemma ClearedInOrder(ns: seq<Net>, acts: seq<Action>, cancelWins: bool, t: nat, c: nat)
    requires IsRun(ns, acts, cancelWins) && c < |acts| && acts[c] == Clear(t)
    ensures exists i :: 0 <= i < c && acts[i] == TakeTimer(t)
  {
    RunKeepsPending(ns[..c + 1], acts[..c], cancelWins);
    StepStage(ns[c], acts[c], t);
    hide Step, Enabled;
    StageGrows(ns, acts, cancelWins, t, 0, c);
  }

  /** A disconnect is handled only after its timer branch was taken and its map entry cleared. */
  lemma HandledInOrder(ns: seq<Net>, acts: seq<Action>, cancelWins: bool, t: nat, j: nat)
    requires IsRun(ns, acts, cancelWins) && j < |acts| && acts[j] == Handle(t)
    ensures exists i, c :: i < c < j && 0 <= i && acts[i] == TakeTimer(t) && acts[c] == Clear(t)
  {
    RunKeepsPending(ns[..j + 1], acts[..j], cancelWins);
    StepStage(ns[j], acts[j], t);
    hide Step, Enabled;
    StageGrows(ns, acts, cancelWins, t, 0, j);
    var c :| 0 <= c < j && OfTask(acts[c], t) && Left(acts[c]) == 2;
    ClearedInOrder(ns, acts, cancelWins, t, c);
  }

  // ----- What the map holds -----

  predicate Schedules(n: Net, a: Action, p: Player) { a.Schedule? && a.s in n.sockets && n.sockets[a.s].player == p }

  predicate Releases(n: Net, a: Action, p: Player) {
    || (a.Cancel? && a.s in n.sockets && n.sockets[a.s].player == p)
    || (a.Clear? && a.t in n.tasks && n.tasks[a.t].player == p)
  }

  lemma StepEntry(n: Net, a: Action, p: Player)
    requires Enabled(n, a, false)
    ensures p in Step(n, a).hub.pending <==> Schedules(n, a, p) || (p in n.hub.pending && !Releases(n, a, p))
  {
  }

  /** A disconnect was scheduled at step `k` and has been neither called off nor cleared before step `j`. */
  ghost predicate ScheduledSince(ns: seq<Net>, acts: seq<Action>, k: nat, j: nat, p: Player)
    requires j <= |acts| < |ns|
  {
    k < j && Schedules(ns[k], acts[k], p) && forall b | k < b < j :: !Releases(ns[b], acts[b], p)
  }

  /** In every interleaving a player has an entry in the map exactly while a disconnect has been scheduled and neither
      called off nor cleared since. */
  lemma {:induction false} EntryIff(ns: seq<Net>, acts: seq<Action>, cancelWins: bool, j: nat, p: Player)
    requires IsRun(ns, acts, cancelWins) && j <= |acts|
    ensures p in ns[j].hub.pending <==> exists k: nat :: ScheduledSince(ns, acts, k, j, p)
    decreases j
  {
    hide Step, Enabled, Schedules, Releases;
    if j > 0 {
      EntryIff(ns, acts, cancelWins, j - 1, p);
      StepEntry(ns[j - 1], acts[j - 1], p);
      if Schedules(ns[j - 1], acts[j - 1], p) {
        assert ScheduledSince(ns, acts, j - 1, j, p);
      } else {
        assert forall k: nat | ScheduledSince(ns, acts, k, j, p) :: ScheduledSince(ns, acts, k, j - 1, p);
        if p in ns[j].hub.pending {
          var k: nat :| ScheduledSince(ns, acts, k, j - 1, p);
          assert ScheduledSince(ns, acts, k, j, p);
        } else if k: nat :| ScheduledSince(ns, acts, k, j, p) {
          assert !Releases(ns[j - 1], acts[j - 1], p);
        }
      }
    }
  }

  // ----- Exactly when a timer meets a session -----

  predicate Joins(n: Net, a: Action, p: Player) { a.Join? && a.s in n.sockets && n.sockets[a.s].player == p }

  predicate Leaves(n: Net, a: Action, p: Player) { a.Leave? && a.s in n.sockets && n.sockets[a.s].player == p }

  ghost predicate Stays(ns: seq<Net>, acts: seq<Action>, i: nat, j: nat, p: Player)
    requires i <= j <= |acts| < |ns|
  {
    forall k | i <= k < j :: !Leaves(ns[k], acts[k], p)
  }

  /** Step k is the player's last joining before step j, and no socket of the player leaves after it. */
  ghost predicate LastJoin(ns: seq<Net>, acts: seq<Action>, k: nat, j: nat, p: Player)
    requires j <= |acts| < |ns|
  {
    k < j && Joins(ns[k], acts[k], p) && Stays(ns, acts, k + 1, j, p)
  }

  ghost predicate JoinedSince(ns: seq<Net>, acts: seq<Action>, i: nat, j: nat, p: Player)
    requires i <= j <= |acts| < |ns|
  {
    exists k: nat :: i <= k && LastJoin(ns, acts, k, j, p)
  }

  lemma StepSession(n: Net, a: Action, p: Player)
    requires Enabled(n, a, false)
    ensures p in Step(n, a).hub.sessions <==> Joins(n, a, p) || (p in n.hub.sessions && !Leaves(n, a, p))
  {
  }

  lemma SinceNext(ns: seq<Net>, acts: seq<Action>, i: nat, j: nat, p: Player)
    requires i < j <= |acts| < |ns|
    ensures Stays(ns, acts, i, j, p) <==> Stays(ns, acts, i, j - 1, p) && !Leaves(ns[j - 1], acts[j - 1], p)
    ensures JoinedSince(ns, acts, i, j, p) <==>
              Joins(ns[j - 1], acts[j - 1], p) ||
              (JoinedSince(ns, acts, i, j - 1, p) && !Leaves(ns[j - 1], acts[j - 1], p))
  {
    if Joins(ns[j - 1], acts[j - 1], p) {
      assert LastJoin(ns, acts, j - 1, j, p);
    } else if JoinedSince(ns, acts, i, j, p) {
      var k: nat :| i <= k && LastJoin(ns, acts, k, j, p);
      assert LastJoin(ns, acts, k, j - 1, p);
    } else if JoinedSince(ns, acts, i, j - 1, p) && !Leaves(ns[j - 1], acts[j - 1], p) {
      var k: nat :| i <= k && LastJoin(ns, acts, k, j - 1, p);
      assert LastJoin(ns, acts, k, j, p);
    }
  }

  lemma {:induction false} SessionIff(ns: seq<Net>, acts: seq<Action>, cancelWins: bool, i: nat, j: nat, p: Player)
    requires IsRun(ns, acts, cancelWins) && i <= j <= |acts|
    ensures p in ns[j].hub.sessions <==>
              (p in ns[i].hub.sessions && Stays(ns, acts, i, j, p)) || JoinedSince(ns, acts, i, j, p)
    decreases j - i
  {
    if i < j {
      SessionIff(ns, acts, cancelWins, i, j - 1, p);
      StepSession(ns[j - 1], acts[j - 1], p);
      SinceNext(ns, acts, i, j, p);
    }
  }

  lemma {:induction false} TakenBefore(ns: seq<Net>, acts: seq<Action>, cancelWins: bool, t: nat, j: nat)
    requires IsRun(ns, acts, cancelWins) && j <= |acts|
    requires AtTask(ns[j], t, Clearing) || AtTask(ns[j], t, Handling)
    ensures exists i: nat :: i < j && acts[i] == TakeTimer(t)
    decreases j
  {
    assert j > 0;
    if acts[j - 1] != TakeTimer(t) {
      TakenBefore(ns, acts, cancelWins, t, j - 1);
    }
  }

  /** Sockets not overlapping and a ready cancel preferred: a disconnect is handled under a live session exactly when
      the player has joined since the timer branch was taken and has not left again. */
  lemma HandledUnderSessionIff(ns: seq<Net>, acts: seq<Action>, j: nat, t: nat)
    requires IsRun(ns, acts, true) && forall k | 0 <= k < |acts| :: NoOverlap(ns[k], acts[k])
    requires j < |acts| && acts[j] == Handle(t)
    ensures exists i: nat ::
              && i < j && acts[i] == TakeTimer(t)
              && var p := ns[j].tasks[t].player;
                 p in ns[j].hub.sessions <==> JoinedSince(ns, acts, i, j, p)
  {
    TakenBefore(ns, acts, true, t, j);
    var i: nat :| i < j && acts[i] == TakeTimer(t);
    TaskStays(ns, acts, true, t, i, j);
    NoTimerWhileConnected(ns, acts, i);
    SessionIff(ns, acts, true, i, j, ns[j].tasks[t].player);
  }

  /** Sockets not overlapping: while the player has a session, a waiting task has its cancel ready, so that its timer
      branch can be taken exactly when its time has come and the select does not prefer the cancel. */
  lemma TimerUnderSessionIff(ns: seq<Net>, acts: seq<Action>, cancelWins: bool, i: nat, t: nat)
    requires IsRun(ns, acts, cancelWins) && forall k | 0 <= k < |acts| :: NoOverlap(ns[k], acts[k])
    requires i <= |acts| && AtTask(ns[i], t, Waiting) && ns[i].tasks[t].player in ns[i].hub.sessions
    ensures t in ns[i].hub.ready
    ensures Enabled(ns[i], TakeTimer(t), cancelWins) <==> !cancelWins && ns[i].tasks[t].deadline <= ns[i].now
  {
    RunKeepsQuiet(ns[..i + 1], acts[..i], cancelWins);
    assert InPhase(ns[i], ns[i].hub.sessions[ns[i].tasks[t].player], Registered);
  }

  predicate PastCancel(n: Net, s: nat) { s in n.sockets && n.sockets[s].phase != Connecting }

  lemma {:induction false} SocketStays(ns: seq<Net>, acts: seq<Action>, cancelWins: bool, s: nat, i: nat, j: nat)
    requires IsRun(ns, acts, cancelWins) && i <= j <= |acts| && s in ns[i].sockets
    ensures s in ns[j].sockets && ns[j].sockets[s].player == ns[i].sockets[s].player
    ensures PastCancel(ns[i], s) ==> PastCancel(ns[j], s)
    decreases j - i
  {
    if i < j { SocketStays(ns, acts, cancelWins, s, i, j - 1); }
  }

  lemma PassesCancel(n: Net, a: Action, s: nat)
    requires Enabled(n, a, false) && !PastCancel(n, s) && PastCancel(Step(n, a), s)
    ensures a == Cancel(s)
  {
  }

  lemma {:induction false} CancelledBetween(ns: seq<Net>, acts: seq<Action>, cancelWins: bool, s: nat, i: nat, j: nat)
    requires IsRun(ns, acts, cancelWins) && i <= j <= |acts| && !PastCancel(ns[i], s) && PastCancel(ns[j], s)
    ensures exists c :: i <= c < j && acts[c] == Cancel(s)
    decreases j - i
  {
    hide PastCancel, Step, Enabled;
    if !PastCancel(ns[j - 1], s) {
      PassesCancel(ns[j - 1], acts[j - 1], s);
    } else {
      CancelledBetween(ns, acts, cancelWins, s, i, j - 1);
    }
  }

  lemma JoinerHadCancelled(ns: seq<Net>, acts: seq<Action>, a: nat, i: nat, k: nat)
    requires IsRun(ns, acts, true) && a < i < |acts| && acts[a].Schedule?
    requires acts[i] == TakeTimer(ns[a].hub.nextChannel)
    requires k < i && Joins(ns[k], acts[k], ns[a].sockets[acts[a].s].player)
    ensures PastCancel(ns[a], acts[k].s)
  {
    var t, q := ns[a].hub.nextChannel, acts[k].s;
    assert PastCancel(ns[k], q);
    if k <= a {
      SocketStays(ns, acts, true, q, k, a);
    } else if !PastCancel(ns[a], q) {
      CancelledBetween(ns, acts, true, q, a, k);
      var c :| a <= c < k && acts[c] == Cancel(q);
      SocketStays(ns, acts, true, q, c, k);
      ScheduledTask(ns, acts, true, a);
      TaskStays(ns, acts, true, t, a + 1, c);
      TaskStays(ns, acts, true, t, c, i);
      CancelReadies(ns, acts, true, t, c, i);
      assert false;
    }
  }

  /** Overlapping sockets, a ready cancel preferred: a timer is taken under a live session exactly when the socket that
      last joined had looked for a task to cancel before this one was made. */
  lemma OverlapFiresIff(ns: seq<Net>, acts: seq<Action>, a: nat, i: nat)
    requires IsRun(ns, acts, true) && a < i < |acts| && acts[a].Schedule?
    requires acts[i] == TakeTimer(ns[a].hub.nextChannel)
    ensures var p := ns[a].sockets[acts[a].s].player;
            p in ns[i].hub.sessions <==>
              exists k: nat :: LastJoin(ns, acts, k, i, p) && PastCancel(ns[a], acts[k].s)
  {
    var p := ns[a].sockets[acts[a].s].player;
    SessionIff(ns, acts, true, 0, i, p);
    if p in ns[i].hub.sessions {
      var k: nat :| LastJoin(ns, acts, k, i, p);
      JoinerHadCancelled(ns, acts, a, i, k);
    }
  }

  // ----- Where the guarantee ends -----

  /** The actions, taken in order, lead from n to m; no socket overlaps an earlier one of its player. */
  ghost predicate Leads(n: Net, acts: seq<Action>, m: Net, cancelWins: bool)
    decreases |acts|
  {
    if acts == [] then n == m
    else
      && Enabled(n, acts[0], cancelWins) && Enabled(n, acts[0], false) && NoOverlap(n, acts[0])
      && Leads(Step(n, acts[0]), acts[1..], m, cancelWins)
  }

  lemma LeadsStep(n: Net, a: Action, acts: seq<Action>, m: Net, cancelWins: bool)
    requires Enabled(n, a, cancelWins) && Enabled(n, a, false) && NoOverlap(n, a)
    requires Leads(Step(n, a), acts, m, cancelWins)
    ensures Leads(n, [a] + acts, m, cancelWins)
  {
    assert ([a] + acts)[1..] == acts;
  }

  function Connected(n: Net, s: nat, p: Player): Net
    requires s !in n.sockets
  {
    Step(Step(Step(n, Open(s, p)), Cancel(s)), Join(s))
  }

  lemma ConnectLeads(n: Net, s: nat, p: Player, cancelWins: bool)
    requires s !in n.sockets && forall r | r in n.sockets && n.sockets[r].player == p :: n.sockets[r].phase == Gone
    ensures Leads(n, [Open(s, p), Cancel(s), Join(s)], Connected(n, s, p), cancelWins)
  {
    var n1 := Step(n, Open(s, p));
    var n2 := Step(n1, Cancel(s));
    var n3 := Step(n2, Join(s));
    LeadsStep(n2, Join(s), [], n3, cancelWins);
    LeadsStep(n1, Cancel(s), [Join(s)], n3, cancelWins);
    LeadsStep(n, Open(s, p), [Cancel(s), Join(s)], n3, cancelWins);
    assert [Open(s, p)] + ([Cancel(s)] + ([Join(s)] + [])) == [Open(s, p), Cancel(s), Join(s)];
  }

  /** Once the timer branch is taken, a player who connects before it has run still has the disconnect
      handled under a live session. */
  lemma HandledWhileConnected(n: Net, t: nat, s: nat)
    requires AtTask(n, t, Clearing) && s !in n.sockets
    requires forall r | r in n.sockets && n.sockets[r].player == n.tasks[t].player :: n.sockets[r].phase == Gone
    ensures var p := n.tasks[t].player;
            var m := Connected(n, s, p);
            && Leads(n, [Open(s, p), Cancel(s), Join(s)], m, true)
            && Enabled(m, Clear(t), true) && Enabled(m, Clear(t), false)
            && Enabled(Step(m, Clear(t)), Handle(t), true) && p in Step(m, Clear(t)).hub.sessions
  {
    ConnectLeads(n, s, n.tasks[t].player, true);
  }

  /** If both are ready and the select may choose the timer, it can choose it under a live session. */
  lemma TimerMayWin(n: Net, t: nat, s: nat)
    requires Live(n, t) && PendingIsLive(n) && n.tasks[t].deadline <= n.now && s !in n.sockets
    requires forall r | r in n.sockets && n.sockets[r].player == n.tasks[t].player :: n.sockets[r].phase == Gone
    ensures var p := n.tasks[t].player;
            var m := Connected(n, s, p);
            && Leads(n, [Open(s, p), Cancel(s), Join(s)], m, false)
            && p in m.hub.sessions && Enabled(m, TakeTimer(t), false) && !Enabled(m, TakeTimer(t), true)
  {
    ConnectLeads(n, s, n.tasks[t].player, false);
  }

  /** With two sockets of one player, the older one's leaving starts a task that the newer one's joining does
      not cancel. */
  lemma OverlapFires(n: Net, s: nat, r: nat)
    requires PendingIsLive(n) && InPhase(n, s, Registered) && InPhase(n, r, Joining)
    requires n.sockets[s].player == n.sockets[r].player
    ensures var p, t := n.sockets[s].player, n.hub.nextChannel;
            var m := Step(Step(Step(Step(n, Leave(s)), Schedule(s)), Join(r)), Tick(GRACE_MS));
            p in m.hub.sessions && AtTask(m, t, Waiting) && m.tasks[t].player == p && Enabled(m, TakeTimer(t), true)
  {
  }
}
