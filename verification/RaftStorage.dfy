/** `CombinedStorage` of mudd/src/raft/storage.rs: one SQLite file that holds the game tables and the
    Raft tables, and the fields kept in memory beside it. SQL is a deterministic function on the game
    tables. Every operation is a pure step on `Store`; the class `CombinedStorage` takes the same steps. */
module RaftStorage {
  import opened Wrappers
  import opened Integers
  import opened RaftLogTable

  datatype Response = Response(success: bool, rowsAffected: U64, error: Option<string>)

  type Exec<!Db> = (Db, Request) -> (Db, Response)

  datatype Vote = Vote(term: U64, nodeId: U64, committed: bool)

  datatype VoteRow = VoteRow(term: I64, nodeId: Option<I64>, committed: I64)

  datatype StoredMembership = StoredMembership(logId: Option<LogId>, membership: Membership)

  const DEFAULT_MEMBERSHIP := StoredMembership(None, Membership([], map[]))

  /** The contents of the database file. */
  datatype Disk<Db> = Disk(game: Db, log: Table, vote: Option<VoteRow>, purged: Option<LogId>, applied: Option<LogId>)

  /** `file` is None for an empty byte vector. */
  datatype SnapshotData<Db> = SnapshotData(lastApplied: Option<LogId>, membership: StoredMembership,
                                           file: Option<Disk<Db>>)

  datatype Bytes<Db> = Encoded(data: SnapshotData<Db>) | Malformed

  /** The id `term-index` is kept as the pair it is printed from. */
  datatype SnapshotMeta = SnapshotMeta(lastLogId: Option<LogId>, membership: StoredMembership, id: (U64, U64))

  datatype Snapshot<Db> = Snapshot(meta: SnapshotMeta, bytes: Bytes<Db>)

  datatype Store<Db> = Store(hasPath: bool, disk: Disk<Db>, vote: Option<Vote>, lastPurged: Option<LogId>,
                             lastApplied: Option<LogId>, membership: StoredMembership,
                             snapshot: Option<Snapshot<Db>>)

  function OkRows(n: U64): Response { Response(true, n, None) }

  // ----- Votes and start-up -----

  function EncodeVote(v: Vote): VoteRow {
    VoteRow(AsI64(v.term), Some(AsI64(v.nodeId)), if v.committed then 1 else 0)
  }

  function DecodeVote(row: Option<VoteRow>): Option<Vote> {
    match row
    case None => None
    case Some(r) =>
      Some(Vote(AsU64(r.term), AsU64(if r.nodeId.Some? then r.nodeId.value else 0), r.committed != 0))
  }

  /** A process that opens the file knows only what the file holds; membership is not in it. */
  function Open<Db>(hasPath: bool, disk: Disk<Db>): Store<Db> {
    Store(hasPath, disk, DecodeVote(disk.vote), disk.purged, disk.applied, DEFAULT_MEMBERSHIP, None)
  }

  function Restart<Db>(st: Store<Db>): Store<Db> { Open(st.hasPath, st.disk) }

  function SaveVote<Db>(st: Store<Db>, v: Vote): Store<Db> {
    st.(disk := st.disk.(vote := Some(EncodeVote(v))), vote := Some(v))
  }

  // ----- The log -----

  function AppendToLog<Db>(st: Store<Db>, es: seq<Entry>): Store<Db> {
    st.(disk := st.disk.(log := UpsertAll(st.disk.log, es)))
  }

  function DeleteConflictLogsSince<Db>(st: Store<Db>, id: LogId): Store<Db> {
    st.(disk := st.disk.(log := DeleteFrom(st.disk.log, AsI64(id.index))))
  }

  function PurgeLogsUpTo<Db>(st: Store<Db>, id: LogId): Store<Db> {
    st.(disk := st.disk.(log := DeleteUpTo(st.disk.log, AsI64(id.index)), purged := Some(id)), lastPurged := Some(id))
  }

  // ----- Applying entries -----

  function ApplyEntry<Db>(exec: Exec<Db>, st: Store<Db>, e: Entry): (Store<Db>, Response) {
    var seen := st.(lastApplied := Some(e.logId));
    match e.payload
    case Blank => (seen, OkRows(0))
    case Normal(request) =>
      var (game, response) := exec(st.disk.game, request);
      (seen.(disk := st.disk.(game := game)), response)
    case Change(m) => (seen.(membership := StoredMembership(Some(e.logId), m)), OkRows(0))
  }

  function ApplyEntries<Db>(exec: Exec<Db>, st: Store<Db>, es: seq<Entry>): (Store<Db>, seq<Response>)
    decreases |es|
  {
    if es == [] then (st, [])
    else
      var (before, responses) := ApplyEntries(exec, st, es[..|es| - 1]);
      var (after, response) := ApplyEntry(exec, before, es[|es| - 1]);
      (after, responses + [response])
  }

  function PersistApplied<Db>(st: Store<Db>): Store<Db> {
    if st.lastApplied.Some? then st.(disk := st.disk.(applied := st.lastApplied)) else st
  }

  function ApplyToStateMachine<Db>(exec: Exec<Db>, st: Store<Db>, es: seq<Entry>): (Store<Db>, seq<Response>) {
    var (after, responses) := ApplyEntries(exec, st, es);
    (PersistApplied(after), responses)
  }

  function ApplyBatches<Db>(exec: Exec<Db>, st: Store<Db>, batches: seq<seq<Entry>>): (Store<Db>, seq<Response>)
    decreases |batches|
  {
    if batches == [] then (st, [])
    else
      var (before, responses) := ApplyBatches(exec, st, batches[..|batches| - 1]);
      var (after, more) := ApplyToStateMachine(exec, before, batches[|batches| - 1]);
      (after, responses + more)
  }

  // ----- Snapshots -----

  /** The builder is a copy of the store; only the file is shared, and it is read when the builder runs. */
  function BuilderData<Db>(builder: Store<Db>): SnapshotData<Db> {
    SnapshotData(builder.lastApplied, builder.membership, if builder.hasPath then Some(builder.disk) else None)
  }

  function BuildSnapshot<Db>(builder: Store<Db>): Snapshot<Db> {
    var id := if builder.lastApplied.Some?
              then (builder.lastApplied.value.term, builder.lastApplied.value.index) else (0, 0);
    Snapshot(SnapshotMeta(builder.lastApplied, builder.membership, id), Encoded(BuilderData(builder)))
  }

  function InstallData<Db>(st: Store<Db>, meta: SnapshotMeta, data: SnapshotData<Db>): Store<Db> {
    st.(disk := if data.file.Some? && st.hasPath then data.file.value else st.disk,
        lastApplied := data.lastApplied,
        membership := data.membership,
        snapshot := Some(Snapshot(meta, Encoded(data))))
  }

  function InstallSnapshot<Db>(st: Store<Db>, s: Snapshot<Db>): Result<Store<Db>, string> {
    if s.bytes.Malformed? then Err("cannot parse snapshot") else Ok(InstallData(st, s.meta, s.bytes.data))
  }

  // ----- Every run keeps the log and the vote -----

  /** `Install` is the leader whose snapshot arrives, and what its log table stands for. */
  datatype Op<Db> =
    | Append(entries: seq<Entry>)
    | TruncateSince(id: LogId)
    | PurgeUpTo(id: LogId)
    | Apply(entries: seq<Entry>)
    | Save(vote: Vote)
    | Reopen
    | Install(leader: Store<Db>, log: RaftLog)

  /** Raft purges the log up to a snapshot once it is installed. */
  function InstallAndPurge<Db>(st: Store<Db>, leader: Store<Db>): Store<Db> {
    var restored := InstallData(st, BuildSnapshot(leader).meta, BuilderData(leader));
    if leader.lastApplied.Some? then PurgeLogsUpTo(restored, leader.lastApplied.value) else restored
  }

  function Step<Db>(exec: Exec<Db>, st: Store<Db>, op: Op<Db>): Store<Db> {
    match op
    case Append(es) => AppendToLog(st, es)
    case TruncateSince(id) => DeleteConflictLogsSince(st, id)
    case PurgeUpTo(id) => PurgeLogsUpTo(st, id)
    case Apply(es) => ApplyToStateMachine(exec, st, es).0
    case Save(v) => SaveVote(st, v)
    case Reopen => Restart(st)
    case Install(leader, _) => InstallAndPurge(st, leader)
  }

  function Run<Db>(exec: Exec<Db>, st: Store<Db>, ops: seq<Op<Db>>): Store<Db>
    decreases |ops|
  {
    if ops == [] then st else Step(exec, Run(exec, st, ops[..|ops| - 1]), ops[|ops| - 1])
  }

  /** Raft's calling order: appends leave no hole, purges do not go back, indices fit a signed column, and a snapshot
      reaches as far as what its sender has purged, or, where no file is restored, its receiver. */
  ghost predicate Legal<Db>(hasPath: bool, log: RaftLog, op: Op<Db>) {
    match op
    case Append(es) => CanAppend(log, es)
    case TruncateSince(id) => id.index <= I64_MAX
    case PurgeUpTo(id) => log.first <= id.index + 1 <= I64_MAX
    case Install(leader, l) =>
      && leader.lastApplied.Some?
      && (hasPath && leader.hasPath ==> Represents(leader.disk.log, l))
      && (if hasPath && leader.hasPath then l else log).first <= leader.lastApplied.value.index + 1
      && leader.lastApplied.value.index + 1 <= I64_MAX
    case _ => true
  }

  ghost function StepLog<Db>(hasPath: bool, log: RaftLog, op: Op<Db>): RaftLog
    requires Legal(hasPath, log, op)
  {
    match op
    case Append(es) => RaftLogTable.Append(log, es)
    case TruncateSince(id) => Truncate(log, id.index)
    case PurgeUpTo(id) => Purge(log, id.index)
    case Install(leader, l) =>
      Purge(if hasPath && leader.hasPath then l else log, leader.lastApplied.value.index)
    case _ => log
  }

  /** `logs` are the abstract logs the run passes through. */
  ghost predicate LegalRun<Db>(hasPath: bool, logs: seq<RaftLog>, ops: seq<Op<Db>>) {
    && |logs| == |ops| + 1
    && forall i | 0 <= i < |ops| ::
         Legal(hasPath, logs[i], ops[i]) && logs[i + 1] == StepLog(hasPath, logs[i], ops[i])
  }

  function FirstAfter(purged: Option<LogId>): nat { if purged.Some? then purged.value.index + 1 else 0 }

  ghost predicate LogInvariant<Db>(st: Store<Db>, log: RaftLog) {
    && Represents(st.disk.log, log)
    && log.first == FirstAfter(st.lastPurged)
    && st.lastPurged == st.disk.purged
  }

  lemma {:induction false} ApplyEntriesFrame<Db>(exec: Exec<Db>, st: Store<Db>, es: seq<Entry>)
    ensures var after := ApplyEntries(exec, st, es).0;
            && after.disk == st.disk.(game := after.disk.game)
            && after.hasPath == st.hasPath && after.vote == st.vote && after.lastPurged == st.lastPurged
            && after.snapshot == st.snapshot
            && after.lastApplied == (if es == [] then st.lastApplied else Some(es[|es| - 1].logId))
    decreases |es|
  {
    if es != [] { ApplyEntriesFrame(exec, st, es[..|es| - 1]); }
  }

  lemma StepKeepsLog<Db>(exec: Exec<Db>, st: Store<Db>, log: RaftLog, op: Op<Db>)
    requires LogInvariant(st, log) && Legal(st.hasPath, log, op)
    ensures LogInvariant(Step(exec, st, op), StepLog(st.hasPath, log, op)) && Step(exec, st, op).hasPath == st.hasPath
  {
    match op
    case Append(es) => AppendRefines(st.disk.log, log, es);
    case TruncateSince(id) => TruncateRefines(st.disk.log, log, id.index);
    case PurgeUpTo(id) => PurgeRefines(st.disk.log, log, id.index);
    case Apply(es) => ApplyEntriesFrame(exec, st, es);
    case Save(v) =>
    case Reopen =>
    case Install(leader, l) =>
      if st.hasPath && leader.hasPath {
        PurgeRefines(leader.disk.log, l, leader.lastApplied.value.index);
      } else {
        PurgeRefines(st.disk.log, log, leader.lastApplied.value.index);
      }
  }

  /** Over every legal run the table is one interval that starts just after the last purge. */
  lemma {:induction false} RunKeepsLog<Db>(exec: Exec<Db>, st: Store<Db>, logs: seq<RaftLog>, ops: seq<Op<Db>>)
    requires LegalRun(st.hasPath, logs, ops) && LogInvariant(st, logs[0])
    ensures LogInvariant(Run(exec, st, ops), logs[|ops|]) && Run(exec, st, ops).hasPath == st.hasPath
    decreases |ops|
  {
    if ops != [] {
      var n := |ops| - 1;
      RunKeepsLog(exec, st, logs[..|ops|], ops[..n]);
      StepKeepsLog(exec, Run(exec, st, ops[..n]), logs[n], ops[n]);
    }
  }

  /** What a reader sees after any legal run: the abstract slice, and the abstract end of the log. */
  lemma RunReads<Db>(exec: Exec<Db>, st: Store<Db>, logs: seq<RaftLog>, ops: seq<Op<Db>>, low: Bound, high: Bound)
    requires LegalRun(st.hasPath, logs, ops) && LogInvariant(st, logs[0])
    requires LowIndex(low) <= I64_MAX && HighIndex(high) <= I64_MAX
    ensures var log := logs[|ops|];
            var t := Run(exec, st, ops).disk.log;
            && ReadEntries(t, low, high) == Ok(AnonymousAll(Slice(log, LowIndex(low), HighIndex(high))))
            && LastLogId(t) == if log.entries == [] then None
                               else Some(Anonymous(log.entries[|log.entries| - 1]).logId)
  {
    RunKeepsLog(exec, st, logs, ops);
    ReadRefines(Run(exec, st, ops).disk.log, logs[|ops|], low, high);
    LastLogIdRefines(Run(exec, st, ops).disk.log, logs[|ops|]);
  }

  /** The vote in memory, and the one a restart would find. */
  datatype Votes = Votes(memory: Option<Vote>, stored: Option<Vote>)

  /** The last saved vote in both places, but for an installed file, which brings its sender's vote to the disk. */
  function LastVotes<Db>(hasPath: bool, ops: seq<Op<Db>>, start: Votes): Votes
    decreases |ops|
  {
    if ops == [] then start
    else
      var before := LastVotes(hasPath, ops[..|ops| - 1], start);
      match ops[|ops| - 1]
      case Save(v) => Votes(Some(v), Some(v))
      case Reopen => Votes(before.stored, before.stored)
      case Install(leader, _) =>
        if hasPath && leader.hasPath then before.(stored := DecodeVote(leader.disk.vote)) else before
      case _ => before
  }

  function LastVote<Db>(ops: seq<Op<Db>>, vote: Option<Vote>): Option<Vote>
    decreases |ops|
  {
    if ops == [] then vote
    else if ops[|ops| - 1].Save? then Some(ops[|ops| - 1].vote)
    else LastVote(ops[..|ops| - 1], vote)
  }

  lemma VoteRoundTrip(v: Vote)
    ensures DecodeVote(Some(EncodeVote(v))) == Some(v)
  {
    assert AsU64(AsI64(v.term)) == v.term && AsU64(AsI64(v.nodeId)) == v.nodeId;
  }

  /** A row without a node id reads as node 0, and any flag but 0 as committed. */
  lemma OtherVoteRows(term: I64, nodeId: I64, committed: I64)
    ensures DecodeVote(Some(VoteRow(term, None, committed))) == DecodeVote(Some(VoteRow(term, Some(0), committed)))
    ensures committed != 0 ==>
              DecodeVote(Some(VoteRow(term, Some(nodeId), committed)))
              == DecodeVote(Some(VoteRow(term, Some(nodeId), 1)))
  {
  }

  /** What a run leaves of the votes; where no file is installed, the last saved vote outlives every operation, restarts
      included. */
  lemma {:induction false} RunKeepsVote<Db>(exec: Exec<Db>, st: Store<Db>, ops: seq<Op<Db>>)
    ensures var after := Run(exec, st, ops);
            var votes := LastVotes(st.hasPath, ops, Votes(st.vote, DecodeVote(st.disk.vote)));
            && after.hasPath == st.hasPath && after.vote == votes.memory && DecodeVote(after.disk.vote) == votes.stored
    ensures st.vote == DecodeVote(st.disk.vote) && (forall i | 0 <= i < |ops| :: !ops[i].Install?) ==>
              var after := Run(exec, st, ops);
              after.vote == DecodeVote(after.disk.vote) == LastVote(ops, st.vote)
    decreases |ops|
  {
    if ops != [] {
      var n := |ops| - 1;
      RunKeepsVote(exec, st, ops[..n]);
      match ops[n]
      case Apply(es) => ApplyEntriesFrame(exec, Run(exec, st, ops[..n]), es);
      case Save(v) => VoteRoundTrip(v);
      case _ =>
    }
  }

  // ----- Snapshot plus tail equals full replay -----

  /** What Raft replicates: the game tables, the membership and how far both have come. */
  datatype Machine<Db> = Machine(game: Db, membership: StoredMembership, lastApplied: Option<LogId>)

  function MachineOf<Db>(st: Store<Db>): Machine<Db> { Machine(st.disk.game, st.membership, st.lastApplied) }

  function Flatten(batches: seq<seq<Entry>>): seq<Entry>
    decreases |batches|
  {
    if batches == [] then [] else Flatten(batches[..|batches| - 1]) + batches[|batches| - 1]
  }

  lemma {:induction false} SameMachineSameRun<Db>(exec: Exec<Db>, a: Store<Db>, b: Store<Db>, es: seq<Entry>)
    requires MachineOf(a) == MachineOf(b)
    ensures MachineOf(ApplyEntries(exec, a, es).0) == MachineOf(ApplyEntries(exec, b, es).0)
    ensures ApplyEntries(exec, a, es).1 == ApplyEntries(exec, b, es).1
    decreases |es|
  {
    if es != [] { SameMachineSameRun(exec, a, b, es[..|es| - 1]); }
  }

  lemma {:induction false} ApplyConcat<Db>(exec: Exec<Db>, st: Store<Db>, xs: seq<Entry>, ys: seq<Entry>)
    ensures var (mid, r) := ApplyEntries(exec, st, xs);
            var (end, s) := ApplyEntries(exec, mid, ys);
            ApplyEntries(exec, st, xs + ys) == (end, r + s)
    decreases |ys|
  {
    var (mid, r) := ApplyEntries(exec, st, xs);
    if ys == [] {
      assert xs + ys == xs && r + [] == r;
    } else {
      var n := |ys| - 1;
      ApplyConcat(exec, st, xs, ys[..n]);
      assert (xs + ys)[..|xs + ys| - 1] == xs + ys[..n] && (xs + ys)[|xs + ys| - 1] == ys[n];
      var (before, s) := ApplyEntries(exec, mid, ys[..n]);
      var (end, last) := ApplyEntry(exec, before, ys[n]);
      assert r + (s + [last]) == (r + s) + [last];
    }
  }

  /** The split into batches does not show in the machine or in the responses. */
  lemma {:induction false} BatchesFlatten<Db>(exec: Exec<Db>, st: Store<Db>, batches: seq<seq<Entry>>)
    ensures var (split, responses) := ApplyBatches(exec, st, batches);
            var (whole, all) := ApplyEntries(exec, st, Flatten(batches));
            && MachineOf(split) == MachineOf(whole)
            && responses == all
            && (batches != [] && Flatten(batches) != [] ==> split.disk.applied == split.lastApplied)
            && split.hasPath == st.hasPath
    decreases |batches|
  {
    if batches != [] {
      var n := |batches| - 1;
      BatchesFlatten(exec, st, batches[..n]);
      var before := ApplyBatches(exec, st, batches[..n]).0;
      var whole := ApplyEntries(exec, st, Flatten(batches[..n])).0;
      ApplyConcat(exec, st, Flatten(batches[..n]), batches[n]);
      SameMachineSameRun(exec, before, whole, batches[n]);
      ApplyEntriesFrame(exec, before, batches[n]);
      ApplyEntriesFrame(exec, st, Flatten(batches));
    }
  }

  /** One response per entry, in order: the i-th is the answer of the i-th entry on the state before it. */
  lemma {:induction false} ResponseOfEach<Db>(exec: Exec<Db>, st: Store<Db>, es: seq<Entry>, i: nat)
    requires i < |es|
    ensures |ApplyEntries(exec, st, es).1| == |es|
    ensures ApplyEntries(exec, st, es).1[i] == ApplyEntry(exec, ApplyEntries(exec, st, es[..i]).0, es[i]).1
    decreases |es|
  {
    var n := |es| - 1;
    if n > 0 { ResponseOfEach(exec, st, es[..n], if i < n then i else 0); }
    if i < n { assert es[..n][..i] == es[..i]; }
  }

  /** The requests among the entries, in order. */
  function RequestsOf(es: seq<Entry>): seq<Request>
    decreases |es|
  {
    if es == [] then []
    else RequestsOf(es[..|es| - 1]) + if es[|es| - 1].payload.Normal? then [es[|es| - 1].payload.request] else []
  }

  /** The tables that a list of requests leaves. */
  function GameFrom<Db>(exec: Exec<Db>, game: Db, requests: seq<Request>): Db
    decreases |requests|
  {
    if requests == [] then game
    else exec(GameFrom(exec, game, requests[..|requests| - 1]), requests[|requests| - 1]).0
  }

  /** The tables are what the requests make of them, whatever stands between. */
  lemma {:induction false} GameIsOfRequests<Db>(exec: Exec<Db>, st: Store<Db>, es: seq<Entry>)
    ensures ApplyEntries(exec, st, es).0.disk.game == GameFrom(exec, st.disk.game, RequestsOf(es))
    decreases |es|
  {
    if es != [] {
      var front, last := es[..|es| - 1], es[|es| - 1];
      GameIsOfRequests(exec, st, front);
      if last.payload.Normal? {
        assert RequestsOf(es)[..|RequestsOf(es)| - 1] == RequestsOf(front);
      } else {
        assert RequestsOf(es) == RequestsOf(front);
      }
    }
  }

  /** A request is answered on the tables that the requests before it leave; every other entry is acknowledged with
      no rows. */
  lemma ResponseIsOfRequest<Db>(exec: Exec<Db>, st: Store<Db>, es: seq<Entry>, i: nat)
    requires i < |es|
    ensures var responses := ApplyEntries(exec, st, es).1;
            && |responses| == |es|
            && (es[i].payload.Normal? ==>
                  responses[i] == exec(GameFrom(exec, st.disk.game, RequestsOf(es[..i])), es[i].payload.request).1)
            && (!es[i].payload.Normal? ==> responses[i] == Response(true, 0, None))
  {
    ResponseOfEach(exec, st, es, i);
    GameIsOfRequests(exec, st, es[..i]);
  }

  predicate LastChangeAt(es: seq<Entry>, i: nat) {
    i < |es| && es[i].payload.Change? && forall j | i < j < |es| :: !es[j].payload.Change?
  }

  /** The membership is the one of the last change, under that entry's id; without a change it stays. */
  lemma {:induction false} MembershipIsLastChange<Db>(exec: Exec<Db>, st: Store<Db>, es: seq<Entry>, i: nat)
    ensures LastChangeAt(es, i) ==>
              ApplyEntries(exec, st, es).0.membership
              == StoredMembership(Some(es[i].logId), es[i].payload.membership)
    ensures (forall j | 0 <= j < |es| :: !es[j].payload.Change?) ==>
              ApplyEntries(exec, st, es).0.membership == st.membership
    decreases |es|
  {
    if es != [] {
      var n := |es| - 1;
      assert forall j | 0 <= j < n :: es[..n][j] == es[j];
      MembershipIsLastChange(exec, st, es[..n], i);
    }
  }

  /** A snapshot names the last entry applied, as the last log id and in its own id, and carries the membership of the
      last change and the tables that the requests made. */
  lemma SnapshotDescribes<Db>(exec: Exec<Db>, st: Store<Db>, es: seq<Entry>, i: nat)
    requires es != [] && st.hasPath && LastChangeAt(es, i)
    ensures var last, stored := es[|es| - 1].logId, StoredMembership(Some(es[i].logId), es[i].payload.membership);
            var s := BuildSnapshot(ApplyEntries(exec, st, es).0);
            && s.meta == SnapshotMeta(Some(last), stored, (last.term, last.index))
            && s.bytes.Encoded? && s.bytes.data.lastApplied == Some(last) && s.bytes.data.membership == stored
            && s.bytes.data.file.Some?
            && s.bytes.data.file.value.game == GameFrom(exec, st.disk.game, RequestsOf(es))
  {
    MembershipIsLastChange(exec, st, es, i);
    ApplyEntriesFrame(exec, st, es);
    GameIsOfRequests(exec, st, es);
  }

  /** A follower that installs the leader's snapshot and applies the tail ends where the leader ends, and
      answers the tail alike, for every split of the tail into batches on either side. */
  lemma SnapshotThenTail<Db>(exec: Exec<Db>, leader: Store<Db>, follower: Store<Db>, tail: seq<seq<Entry>>,
                             tail': seq<seq<Entry>>)
    requires leader.hasPath && follower.hasPath && Flatten(tail) == Flatten(tail')
    ensures InstallSnapshot(follower, BuildSnapshot(leader)).Ok?
    ensures var restored := InstallSnapshot(follower, BuildSnapshot(leader)).value;
            && MachineOf(ApplyBatches(exec, restored, tail').0) == MachineOf(ApplyBatches(exec, leader, tail).0)
            && ApplyBatches(exec, restored, tail').1 == ApplyBatches(exec, leader, tail).1
  {
    var restored := InstallSnapshot(follower, BuildSnapshot(leader)).value;
    BatchesFlatten(exec, leader, tail);
    BatchesFlatten(exec, restored, tail');
    SameMachineSameRun(exec, leader, restored, Flatten(tail));
  }

  /** Snapshot at entry i then i+1..n, against 1..n in one go, from the leader's start. */
  lemma SnapshotEqualsFullReplay<Db>(exec: Exec<Db>, start: Store<Db>, follower: Store<Db>, head: seq<seq<Entry>>,
                                     tail: seq<seq<Entry>>, all: seq<seq<Entry>>)
    requires start.hasPath && follower.hasPath && Flatten(head) + Flatten(tail) == Flatten(all)
    ensures var (leader, r) := ApplyBatches(exec, start, head);
            var snapshot := BuildSnapshot(leader);
            && InstallSnapshot(follower, snapshot).Ok?
            && var (caughtUp, s) := ApplyBatches(exec, InstallSnapshot(follower, snapshot).value, tail);
            && MachineOf(caughtUp) == MachineOf(ApplyBatches(exec, start, all).0)
            && r + s == ApplyBatches(exec, start, all).1
  {
    BatchesFlatten(exec, start, head);
    BatchesFlatten(exec, start, all);
    ApplyConcat(exec, start, Flatten(head), Flatten(tail));
    var leader := ApplyBatches(exec, start, head).0;
    SnapshotThenTail(exec, leader, follower, tail, tail);
    BatchesFlatten(exec, leader, tail);
    SameMachineSameRun(exec, leader, ApplyEntries(exec, start, Flatten(head)).0, Flatten(tail));
  }

  /** A new file stands for the empty log from index 0 on; a process on it has no vote, has applied nothing and knows no
      members, and its snapshot says so. */
  lemma NewFile<Db>(hasPath: bool, game: Db)
    ensures var st := Open(hasPath, Disk(game, map[], None, None, None));
            && LogInvariant(st, RaftLog(0, []))
            && st.vote == None && st.snapshot == None
            && MachineOf(st) == Machine(game, StoredMembership(None, Membership([], map[])), None)
            && BuildSnapshot(st).meta == SnapshotMeta(None, StoredMembership(None, Membership([], map[])), (0, 0))
  {
  }

  /** The snapshot that a follower installed is the one it passes on: a third node that installs it gets the leader's
      machine too. */
  lemma InstalledIsPassedOn<Db>(leader: Store<Db>, follower: Store<Db>, third: Store<Db>)
    requires leader.hasPath && third.hasPath
    ensures var restored := InstallSnapshot(follower, BuildSnapshot(leader));
            && restored.Ok? && restored.value.snapshot.Some?
            && var again := InstallSnapshot(third, restored.value.snapshot.value);
               again.Ok? && MachineOf(again.value) == MachineOf(leader)
  {
  }

  /** Exactly when an installed snapshot leaves the follower with the leader's machine. Storage made by `new`
      has no path: its snapshots carry no tables, and it restores none. */
  lemma InstallAgreesIff<Db>(leader: Store<Db>, follower: Store<Db>)
    ensures InstallSnapshot(follower, BuildSnapshot(leader)).Ok?
    ensures MachineOf(InstallSnapshot(follower, BuildSnapshot(leader)).value) == MachineOf(leader)
            <==> (leader.hasPath && follower.hasPath) || follower.disk.game == leader.disk.game
  {
  }

  /** The builder as the code runs it: made from `made`, run when the file has moved on to `later`. */
  function StaleBuilder<Db>(made: Store<Db>, later: Store<Db>): Store<Db> { made.(disk := later.disk) }

  /** What has happened when the builder runs: some apply calls are over, and one may be under way. */
  function LaterStore<Db>(exec: Exec<Db>, made: Store<Db>, done: seq<seq<Entry>>, running: seq<Entry>): Store<Db> {
    ApplyEntries(exec, ApplyBatches(exec, made, done).0, running).0
  }

  /** Index order of what was applied in between: every entry comes after the builder's mark. */
  ghost predicate Later(es: seq<Entry>, mark: Option<LogId>) {
    forall i | 0 <= i < |es| :: mark.Some? ==> mark.value.index < es[i].logId.index
  }

  lemma {:induction false} EmptyBatches<Db>(exec: Exec<Db>, st: Store<Db>, batches: seq<seq<Entry>>)
    requires st.disk.applied == st.lastApplied && Flatten(batches) == []
    ensures ApplyBatches(exec, st, batches).0 == st
    decreases |batches|
  {
    if batches != [] {
      assert Flatten(batches[..|batches| - 1]) == [] && batches[|batches| - 1] == [];
      EmptyBatches(exec, st, batches[..|batches| - 1]);
    }
  }

  /** A snapshot shows by itself whether an apply call was completed between making and running its builder: the mark
      beside its file differs from the mark inside exactly then. The entries of a call under way have run, and
      do not show. */
  lemma StaleBuilderIff<Db>(exec: Exec<Db>, made: Store<Db>, done: seq<seq<Entry>>, running: seq<Entry>)
    requires made.hasPath && made.disk.applied == made.lastApplied && Later(Flatten(done), made.lastApplied)
    ensures var later := LaterStore(exec, made, done, running);
            var data := BuilderData(StaleBuilder(made, later));
            && (data.file.Some? && data.file.value.applied == data.lastApplied <==> Flatten(done) == [])
            && (Flatten(done) == [] && running == [] ==> data == BuilderData(made))
  {
    var es := Flatten(done);
    BatchesFlatten(exec, made, done);
    ApplyEntriesFrame(exec, made, es);
    ApplyEntriesFrame(exec, ApplyBatches(exec, made, done).0, running);
    if es == [] {
      EmptyBatches(exec, made, done);
    } else {
      assert done != [];
      assert made.lastApplied.Some? ==> made.lastApplied.value.index < es[|es| - 1].logId.index;
    }
  }

  /** A database that counts the statements it has run. */
  function Count(n: nat, r: Request): (nat, Response) { (n + 1, OkRows(1)) }

  ghost predicate NoRequests(es: seq<Entry>) {
    forall i | 0 <= i < |es| :: !es[i].payload.Normal?
  }

  /** The follower restored from a stale builder, and the leader it is to follow. */
  function RestoredStale<Db>(made: Store<Db>, later: Store<Db>, follower: Store<Db>): Store<Db> {
    InstallData(follower, BuildSnapshot(StaleBuilder(made, later)).meta, BuilderData(StaleBuilder(made, later)))
  }

  /** The follower applies what came after its mark, the entries in between and the tail, and ends where the leader
      does, with the leader's answers. */
  ghost predicate StaleReplayRight<Db>(exec: Exec<Db>, made: Store<Db>, follower: Store<Db>, done: seq<seq<Entry>>,
                                       running: seq<Entry>, tail: seq<Entry>)
  {
    var later, between := LaterStore(exec, made, done, running), Flatten(done) + running;
    var (caughtUp, responses) := ApplyEntries(exec, RestoredStale(made, later, follower), between + tail);
    var (end, answers) := ApplyEntries(exec, later, tail);
    MachineOf(caughtUp) == MachineOf(end) && responses == ApplyEntries(exec, made, between).1 + answers
  }

  lemma LaterMachine<Db>(exec: Exec<Db>, made: Store<Db>, done: seq<seq<Entry>>, running: seq<Entry>)
    ensures MachineOf(LaterStore(exec, made, done, running))
         == MachineOf(ApplyEntries(exec, made, Flatten(done) + running).0)
  {
    BatchesFlatten(exec, made, done);
    ApplyConcat(exec, made, Flatten(done), running);
    SameMachineSameRun(exec, ApplyBatches(exec, made, done).0, ApplyEntries(exec, made, Flatten(done)).0, running);
  }

  lemma {:induction false} NoRequestsKeepGame<Db>(exec: Exec<Db>, st: Store<Db>, es: seq<Entry>)
    requires NoRequests(es)
    ensures ApplyEntries(exec, st, es).0.disk.game == st.disk.game
    decreases |es|
  {
    if es != [] { NoRequestsKeepGame(exec, st, es[..|es| - 1]); }
  }

  /** Without requests in between, a stale snapshot replays right, for every database and every tail. */
  lemma StaleReplayWithoutRequests<Db>(exec: Exec<Db>, made: Store<Db>, follower: Store<Db>, done: seq<seq<Entry>>,
                                       running: seq<Entry>, tail: seq<Entry>)
    requires made.hasPath && follower.hasPath && NoRequests(Flatten(done) + running)
    ensures StaleReplayRight(exec, made, follower, done, running, tail)
  {
    var later, between := LaterStore(exec, made, done, running), Flatten(done) + running;
    var restored := RestoredStale(made, later, follower);
    LaterMachine(exec, made, done, running);
    NoRequestsKeepGame(exec, made, between);
    assert MachineOf(restored) == MachineOf(made);
    SameMachineSameRun(exec, made, restored, between + tail);
    ApplyConcat(exec, made, between, tail);
    SameMachineSameRun(exec, ApplyEntries(exec, made, between).0, later, tail);
  }

  lemma {:induction false} CountCounts(st: Store<nat>, es: seq<Entry>)
    ensures ApplyEntries(Count, st, es).0.disk.game == st.disk.game + |RequestsOf(es)|
    ensures |RequestsOf(es)| == 0 <==> NoRequests(es)
    decreases |es|
  {
    if es != [] { CountCounts(st, es[..|es| - 1]); }
  }

  /** Counting the statements tells every stale snapshot with requests in between from a right one. */
  lemma StaleReplayCounts(made: Store<nat>, follower: Store<nat>, done: seq<seq<Entry>>, running: seq<Entry>,
                          tail: seq<Entry>)
    requires made.hasPath && follower.hasPath && StaleReplayRight(Count, made, follower, done, running, tail)
    ensures NoRequests(Flatten(done) + running)
  {
    var later, between := LaterStore(Count, made, done, running), Flatten(done) + running;
    var restored := RestoredStale(made, later, follower);
    LaterMachine(Count, made, done, running);
    CountCounts(made, between);
    CountCounts(later, tail);
    ApplyConcat(Count, restored, between, tail);
    CountCounts(restored, between);
    CountCounts(ApplyEntries(Count, restored, between).0, tail);
  }

  /** Snapshot plus tail equals full replay, for every meaning of the statements, exactly when no request was applied
      between making the builder and running it, in a completed call or in one under way. */
  lemma StaleReplayIff(made: Store<nat>, follower: Store<nat>, done: seq<seq<Entry>>, running: seq<Entry>,
                       tail: seq<Entry>)
    requires made.hasPath && follower.hasPath
    ensures (forall exec: Exec<nat> :: StaleReplayRight(exec, made, follower, done, running, tail))
            <==> NoRequests(Flatten(done) + running)
  {
    if NoRequests(Flatten(done) + running) {
      forall exec: Exec<nat> ensures StaleReplayRight(exec, made, follower, done, running, tail) {
        StaleReplayWithoutRequests(exec, made, follower, done, running, tail);
      }
    } else if StaleReplayRight(Count, made, follower, done, running, tail) {
      StaleReplayCounts(made, follower, done, running, tail);
    }
  }

  /** With an apply between making and running the builder, the follower runs that entry twice. */
  lemma StaleBuilderRunsTwice(made: Store<nat>, follower: Store<nat>, e: Entry)
    requires made.hasPath && follower.hasPath && e.payload.Normal?
    ensures var later := ApplyToStateMachine(Count, made, [e]).0;
            var restored := InstallData(follower, BuildSnapshot(made).meta, BuilderData(StaleBuilder(made, later)));
            && MachineOf(restored).lastApplied == made.lastApplied
            && ApplyToStateMachine(Count, restored, [e]).0.disk.game == later.disk.game + 1
  {
    assert [e][..0] == [] && [e][0] == e;
    var later := ApplyToStateMachine(Count, made, [e]).0;
    var restored := InstallData(follower, BuildSnapshot(made).meta, BuilderData(StaleBuilder(made, later)));
    assert ApplyEntries(Count, made, [e][..0]).0 == made && ApplyEntries(Count, restored, [e][..0]).0 == restored;
  }

  /** The file is the sender's whole database, so installing it also replaces the log. Purging up to the
      snapshot, as Raft does next, leaves the leader's own tail as the follower's log. */
  lemma InstallThenPurge<Db>(leader: Store<Db>, log: RaftLog, follower: Store<Db>)
    requires leader.hasPath && follower.hasPath && leader.lastApplied.Some? && Represents(leader.disk.log, log)
    requires log.first <= leader.lastApplied.value.index + 1 <= I64_MAX
    ensures var restored := InstallSnapshot(follower, BuildSnapshot(leader)).value;
            LogInvariant(PurgeLogsUpTo(restored, leader.lastApplied.value), Purge(log, leader.lastApplied.value.index))
  {
    PurgeRefines(leader.disk.log, log, leader.lastApplied.value.index);
  }

  /** Until that purge, the log invariant holds exactly when the two nodes had purged up to the same mark. */
  lemma InstallKeepsLogIff<Db>(leader: Store<Db>, log: RaftLog, follower: Store<Db>)
    requires leader.hasPath && follower.hasPath && LogInvariant(leader, log)
    ensures LogInvariant(InstallSnapshot(follower, BuildSnapshot(leader)).value, log)
            <==> follower.lastPurged == leader.lastPurged
  {
  }

  /** The sender's vote row comes with the file: after a restart the follower has its own vote exactly when
      no file was restored or the sender had recorded the same vote. */
  lemma VoteSurvivesInstallIff<Db>(leader: Store<Db>, follower: Store<Db>)
    requires follower.vote == DecodeVote(follower.disk.vote)
    ensures Restart(InstallSnapshot(follower, BuildSnapshot(leader)).value).vote == follower.vote
            <==> !(leader.hasPath && follower.hasPath) || DecodeVote(leader.disk.vote) == follower.vote
  {
  }

  // ----- Crashes while applying -----

  /** Finer than one call: a crash may come between executing entries and recording how far they got. */
  datatype MicroStep = ExecuteNext | Persist | Crash

  /** `trace` records which committed entries ran, in the order they ran. */
  datatype Progress<Db> = Progress(st: Store<Db>, trace: seq<nat>)

  function NextOf(mark: Option<LogId>): nat { FirstAfter(mark) }

  predicate Enabled<Db>(committed: seq<Entry>, p: Progress<Db>, s: MicroStep) {
    s.ExecuteNext? ==> NextOf(p.st.lastApplied) < |committed|
  }

  function Micro<Db>(exec: Exec<Db>, committed: seq<Entry>, p: Progress<Db>, s: MicroStep): Progress<Db>
    requires Enabled(committed, p, s)
  {
    match s
    case ExecuteNext =>
      var i := NextOf(p.st.lastApplied);
      Progress(ApplyEntry(exec, p.st, committed[i]).0, p.trace + [i])
    case Persist => p.(st := PersistApplied(p.st))
    case Crash => p.(st := Restart(p.st))
  }

  ghost predicate MicroRun<Db>(exec: Exec<Db>, committed: seq<Entry>, ps: seq<Progress<Db>>, ss: seq<MicroStep>) {
    && |ps| == |ss| + 1
    && forall i | 0 <= i < |ss| :: Enabled(committed, ps[i], ss[i]) && ps[i + 1] == Micro(exec, committed, ps[i], ss[i])
  }

  /** The executed but unrecorded entries that a crash forgets. */
  function Forgotten<Db>(p: Progress<Db>, s: MicroStep): int {
    if s.Crash? then NextOf(p.st.lastApplied) - NextOf(p.st.disk.applied) else 0
  }

  ghost function Lost<Db>(ps: seq<Progress<Db>>, ss: seq<MicroStep>): int
    requires |ps| == |ss| + 1
    decreases |ss|
  {
    if ss == [] then 0
    else var n := |ss| - 1; Lost(ps[..n + 1], ss[..n]) + Forgotten(ps[n], ss[n])
  }

  function GameAfter<Db>(exec: Exec<Db>, game: Db, committed: seq<Entry>, trace: seq<nat>): Db
    requires forall i | 0 <= i < |trace| :: trace[i] < |committed|
    decreases |trace|
  {
    if trace == [] then game
    else
      var before := GameAfter(exec, game, committed, trace[..|trace| - 1]);
      var e := committed[trace[|trace| - 1]];
      if e.payload.Normal? then exec(before, e.payload.request).0 else before
  }

  /** Every entry from the starting point up to the next one has run. */
  ghost predicate Covers(trace: seq<nat>, start: nat, next: nat) {
    forall i: nat | start <= i < next :: i in trace
  }

  ghost predicate Within(trace: seq<nat>, start: nat, end: nat) {
    forall k | 0 <= k < |trace| :: start <= trace[k] < end
  }

  ghost predicate AfterPredecessor(trace: seq<nat>, start: nat, k: nat)
    requires k < |trace|
  {
    trace[k] > start ==> trace[k] - 1 in trace[..k]
  }

  /** None ran before its predecessor. */
  ghost predicate PredecessorsFirst(trace: seq<nat>, start: nat) {
    forall k | 0 <= k < |trace| :: AfterPredecessor(trace, start, k)
  }

  ghost predicate MarksInOrder<Db>(start: nat, committed: seq<Entry>, p: Progress<Db>) {
    start <= NextOf(p.st.disk.applied) <= NextOf(p.st.lastApplied) <= |committed|
  }

  ghost predicate CrashSafe<Db>(exec: Exec<Db>, game: Db, start: nat, committed: seq<Entry>, p: Progress<Db>) {
    && MarksInOrder(start, committed, p)
    && Covers(p.trace, start, NextOf(p.st.lastApplied))
    && Within(p.trace, start, |committed|)
    && PredecessorsFirst(p.trace, start)
    && p.st.disk.game == GameAfter(exec, game, committed, p.trace)
  }

  lemma ExtendCovers(trace: seq<nat>, start: nat, i: nat)
    requires start <= i && Covers(trace, start, i)
    ensures Covers(trace + [i], start, i + 1)
  {
    forall j: nat | start <= j < i + 1 ensures j in trace + [i] {
      assert (trace + [i])[|trace|] == i;
    }
  }

  lemma ExtendPredecessors(trace: seq<nat>, start: nat, i: nat)
    requires start <= i && Covers(trace, start, i) && PredecessorsFirst(trace, start)
    ensures PredecessorsFirst(trace + [i], start)
  {
    var longer := trace + [i];
    forall k | 0 <= k < |longer| ensures AfterPredecessor(longer, start, k) {
      if k < |trace| {
        assert AfterPredecessor(trace, start, k) && longer[..k] == trace[..k] && longer[k] == trace[k];
      } else {
        assert longer[..k] == trace && longer[k] == i;
      }
    }
  }

  lemma GameAfterNext<Db>(exec: Exec<Db>, game: Db, committed: seq<Entry>, trace: seq<nat>, i: nat)
    requires i < |committed| && forall k | 0 <= k < |trace| :: trace[k] < |committed|
    ensures forall k | 0 <= k < |trace + [i]| :: (trace + [i])[k] < |committed|
    ensures var before := GameAfter(exec, game, committed, trace);
            GameAfter(exec, game, committed, trace + [i])
            == if committed[i].payload.Normal? then exec(before, committed[i].payload.request).0 else before
  {
    assert (trace + [i])[..|trace|] == trace;
  }

  lemma ExecuteAdvances<Db>(exec: Exec<Db>, committed: seq<Entry>, p: Progress<Db>)
    requires Consecutive(committed, 0) && Enabled(committed, p, ExecuteNext)
    ensures var i, q := NextOf(p.st.lastApplied), Micro(exec, committed, p, ExecuteNext);
            && q.trace == p.trace + [i] && NextOf(q.st.lastApplied) == i + 1 && q.st.disk.applied == p.st.disk.applied
            && q.st.disk.game == if committed[i].payload.Normal?
                                 then exec(p.st.disk.game, committed[i].payload.request).0 else p.st.disk.game
  {
  }

  lemma ExecuteKeepsSafe<Db>(exec: Exec<Db>, game: Db, start: nat, committed: seq<Entry>, p: Progress<Db>)
    requires Consecutive(committed, 0) && Enabled(committed, p, ExecuteNext)
    requires CrashSafe(exec, game, start, committed, p)
    ensures CrashSafe(exec, game, start, committed, Micro(exec, committed, p, ExecuteNext))
  {
    hide Covers, PredecessorsFirst, GameAfter;
    var i := NextOf(p.st.lastApplied);
    ExtendCovers(p.trace, start, i);
    ExtendPredecessors(p.trace, start, i);
    GameAfterNext(exec, game, committed, p.trace, i);
    ExecuteAdvances(exec, committed, p);
    hide Within;
  }

  lemma MicroKeepsSafe<Db>(exec: Exec<Db>, game: Db, start: nat, committed: seq<Entry>, p: Progress<Db>, s: MicroStep)
    requires Consecutive(committed, 0) && Enabled(committed, p, s) && CrashSafe(exec, game, start, committed, p)
    ensures CrashSafe(exec, game, start, committed, Micro(exec, committed, p, s))
  {
    if s.ExecuteNext? {
      ExecuteKeepsSafe(exec, game, start, committed, p);
    }
  }

  /** How far the trace is ahead of the log position. */
  function Surplus<Db>(start: nat, p: Progress<Db>): int { start + |p.trace| - NextOf(p.st.lastApplied) }

  lemma MicroSurplus<Db>(exec: Exec<Db>, start: nat, committed: seq<Entry>, p: Progress<Db>, s: MicroStep)
    requires Consecutive(committed, 0) && Enabled(committed, p, s)
    ensures Surplus(start, Micro(exec, committed, p, s)) == Surplus(start, p) + Forgotten(p, s)
  {
  }

  lemma RunPrefix<Db>(exec: Exec<Db>, committed: seq<Entry>, ps: seq<Progress<Db>>, ss: seq<MicroStep>)
    requires MicroRun(exec, committed, ps, ss) && ss != []
    ensures MicroRun(exec, committed, ps[..|ss|], ss[..|ss| - 1])
  {
  }

  /** A process that has just opened or installed its file: nothing is executed beyond the mark. */
  ghost predicate Starts<Db>(committed: seq<Entry>, p: Progress<Db>) {
    p.trace == [] && p.st.lastApplied == p.st.disk.applied && NextOf(p.st.lastApplied) <= |committed|
  }

  /** After any number of crashes: the recorded mark names only executed entries, every entry from the starting
      mark up to it ran, none ran before its predecessor, the tables are the result of the trace, and the trace is
      longer than the log position by exactly what the crashes forgot. */
  lemma {:induction false} ReplayIsSafe<Db>(exec: Exec<Db>, committed: seq<Entry>, ps: seq<Progress<Db>>,
                                            ss: seq<MicroStep>)
    requires Consecutive(committed, 0) && MicroRun(exec, committed, ps, ss) && Starts(committed, ps[0])
    ensures var start := NextOf(ps[0].st.lastApplied);
            && CrashSafe(exec, ps[0].st.disk.game, start, committed, ps[|ss|])
            && Surplus(start, ps[|ss|]) == Lost(ps, ss)
    ensures Lost(ps, ss) >= 0
    decreases |ss|
  {
    if ss != [] {
      var n, start := |ss| - 1, NextOf(ps[0].st.lastApplied);
      RunPrefix(exec, committed, ps, ss);
      ReplayIsSafe(exec, committed, ps[..n + 1], ss[..n]);
      MicroKeepsSafe(exec, ps[0].st.disk.game, start, committed, ps[n], ss[n]);
      MicroSurplus(exec, start, committed, ps[n], ss[n]);
    }
  }

  ghost predicate InOrder(trace: seq<nat>, start: nat) {
    forall i | 0 <= i < |trace| :: trace[i] == start + i
  }

  lemma MicroInOrder<Db>(exec: Exec<Db>, start: nat, committed: seq<Entry>, p: Progress<Db>, s: MicroStep)
    requires Enabled(committed, p, s) && InOrder(p.trace, start) && Surplus(start, p) == 0
    ensures InOrder(Micro(exec, committed, p, s).trace, start)
  {
  }

  lemma {:induction false} NothingLostInOrder<Db>(exec: Exec<Db>, committed: seq<Entry>, ps: seq<Progress<Db>>,
                                                  ss: seq<MicroStep>)
    requires Consecutive(committed, 0) && MicroRun(exec, committed, ps, ss) && Starts(committed, ps[0])
    requires Lost(ps, ss) == 0
    ensures InOrder(ps[|ss|].trace, NextOf(ps[0].st.lastApplied))
    decreases |ss|
  {
    if ss != [] {
      var n := |ss| - 1;
      RunPrefix(exec, committed, ps, ss);
      ReplayIsSafe(exec, committed, ps[..n + 1], ss[..n]);
      assert Forgotten(ps[n], ss[n]) >= 0;
      NothingLostInOrder(exec, committed, ps[..n + 1], ss[..n]);
      MicroInOrder(exec, NextOf(ps[0].st.lastApplied), committed, ps[n], ss[n]);
    }
  }

  /** An empty call on a store that has applied nothing writes no mark. */
  lemma EmptyCall<Db>(exec: Exec<Db>, st: Store<Db>)
    requires st.lastApplied == None
    ensures ApplyToStateMachine(exec, st, []).0 == st
  {
  }

  /** What has been persisted no crash forgets. */
  lemma PersistedSurvives<Db>(exec: Exec<Db>, committed: seq<Entry>, p: Progress<Db>)
    requires p.st.lastApplied.Some?
    ensures var saved := Micro(exec, committed, p, Persist);
            && Forgotten(saved, Crash) == 0
            && Micro(exec, committed, saved, Crash).st.lastApplied == p.st.lastApplied
            && Micro(exec, committed, saved, Crash).trace == p.trace
  {
  }

  /** Each entry from the starting mark on runs exactly once, in order, if and only if no crash forgot an executed
      entry. */
  lemma ExactlyOnceIff<Db>(exec: Exec<Db>, committed: seq<Entry>, ps: seq<Progress<Db>>, ss: seq<MicroStep>)
    requires Consecutive(committed, 0) && MicroRun(exec, committed, ps, ss) && Starts(committed, ps[0])
    ensures var start := NextOf(ps[0].st.lastApplied);
            InOrder(ps[|ss|].trace, start) && start + |ps[|ss|].trace| == NextOf(ps[|ss|].st.lastApplied)
            <==> Lost(ps, ss) == 0
  {
    ReplayIsSafe(exec, committed, ps, ss);
    if Lost(ps, ss) == 0 { NothingLostInOrder(exec, committed, ps, ss); }
  }
}
