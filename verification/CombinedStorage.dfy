/** The imperative `CombinedStorage`: fields updated in place and a database file that copies of the store
    share. Each method runs the source's statements and is proved to take the step of `RaftStorage`. */
module CombinedStorageClass {
  import opened Wrappers
  import opened Integers
  import opened RaftLogTable
  import opened RaftStorage

  class DatabaseFile<Db> {
    var disk: Disk<Db>

    constructor (disk: Disk<Db>)
      ensures this.disk == disk
    {
      this.disk := disk;
    }
  }

  /** The connections to a file. Clones of a pool are one pool: closing it closes them all. */
  class Pool {
    var open: bool

    constructor ()
      ensures open
    {
      open := true;
    }
  }

  /** The store's own pool is always open: the constructor opens one, and an install replaces it. */
  class CombinedStorage<Db> {
    const exec: Exec<Db>
    const file: DatabaseFile<Db>
    const hasPath: bool
    var pool: Pool
    var vote: Option<Vote>
    var lastPurged: Option<LogId>
    var lastApplied: Option<LogId>
    var membership: StoredMembership
    var currentSnapshot: Option<Snapshot<Db>>

    ghost function Model(): Store<Db>
      reads this, file
    {
      Store(hasPath, file.disk, vote, lastPurged, lastApplied, membership, currentSnapshot)
    }

    /** `new` and `with_db_path`, which differ in whether a path is known. */
    constructor (exec: Exec<Db>, file: DatabaseFile<Db>, hasPath: bool)
      ensures this.exec == exec && this.file == file
      ensures pool.open && fresh(pool)
      ensures Model() == Open(hasPath, file.disk)
    {
      this.exec, this.file, this.hasPath := exec, file, hasPath;
      pool := new Pool();
      vote, lastPurged, lastApplied := None, None, None;
      membership := DEFAULT_MEMBERSHIP;
      currentSnapshot := None;
      new;
      if file.disk.vote.Some? {
        vote := DecodeVote(file.disk.vote);
      }
      if file.disk.purged.Some? {
        lastPurged := file.disk.purged;
      }
      if file.disk.applied.Some? {
        lastApplied := file.disk.applied;
      }
    }

    /** `get_snapshot_builder` and `get_log_reader`: a copy of the fields on the same file and pool. */
    constructor Copy(other: CombinedStorage<Db>)
      ensures exec == other.exec && file == other.file && pool == other.pool
      ensures Model() == other.Model()
    {
      exec, file, hasPath, pool := other.exec, other.file, other.hasPath, other.pool;
      vote, lastPurged, lastApplied := other.vote, other.lastPurged, other.lastApplied;
      membership := other.membership;
      currentSnapshot := other.currentSnapshot;
    }

    method SaveVote(v: Vote)
      requires pool.open
      modifies this`vote, file
      ensures Model() == RaftStorage.SaveVote(old(Model()), v)
    {
      file.disk := file.disk.(vote := Some(EncodeVote(v)));
      vote := Some(v);
    }

    /** The rows go in one by one inside a transaction; the file changes at the commit. */
    method AppendToLog(entries: seq<Entry>)
      requires pool.open
      modifies file
      ensures Model() == RaftStorage.AppendToLog(old(Model()), entries)
    {
      if entries == [] {
        return;
      }
      var tx := file.disk.log;
      for i := 0 to |entries|
        invariant tx == UpsertAll(file.disk.log, entries[..i])
        invariant file.disk == old(file.disk)
      {
        assert entries[..i + 1][..i] == entries[..i];
        tx := Upsert(tx, entries[i]);
      }
      assert entries[..|entries|] == entries;
      file.disk := file.disk.(log := tx);
    }

    /** A log reader made before an install reads nothing more. */
    method TryGetLogEntries(low: Bound, high: Bound) returns (result: Result<seq<Entry>, string>)
      ensures pool.open ==> result == ReadEntries(file.disk.log, low, high)
      ensures !pool.open ==> result.Err?
    {
      if !pool.open {
        return Err("pool closed");
      }
      var rows := SelectRange(file.disk.log, StartKey(low), EndKey(high));
      var entries := [];
      assert rows[0..] == rows && forall rest: seq<Entry> :: [] + rest == rest;
      for i := 0 to |rows|
        invariant CollectEntries(rows) ==
                  match CollectEntries(rows[i..]) case Err(m) => Err(m) case Ok(rest) => Ok(entries + rest)
      {
        assert rows[i..][0] == rows[i] && rows[i..][1..] == rows[i + 1..];
        var entry := RowToEntry(rows[i].0, rows[i].1);
        match entry
        case Err(m) =>
          return Err(m);
        case Ok(e) =>
          assert forall rest: seq<Entry> :: entries + ([e] + rest) == entries + [e] + rest;
          entries := entries + [e];
      }
      assert rows[|rows|..] == [] && entries + [] == entries;
      result := Ok(entries);
    }

    method GetLogState() returns (purged: Option<LogId>, last: Option<LogId>)
      requires pool.open
      ensures purged == lastPurged && last == LastLogId(file.disk.log)
      ensures last.None? <==> file.disk.log == map[]
      ensures last.Some? ==> forall k | k in file.disk.log :: k <= AsI64(last.value.index)
      ensures last.Some? ==> AsI64(last.value.index) in file.disk.log
      ensures forall log | LogInvariant(Model(), log) ::
        && log.first == FirstAfter(purged)
        && last == if log.entries == [] then None else Some(Anonymous(log.entries[|log.entries| - 1]).logId)
    {
      purged := lastPurged;
      last := LastLogId(file.disk.log);
      forall log | LogInvariant(Model(), log)
        ensures last == if log.entries == [] then None else Some(Anonymous(log.entries[|log.entries| - 1]).logId)
      {
        LastLogIdRefines(file.disk.log, log);
      }
    }

    method DeleteConflictLogsSince(id: LogId)
      requires pool.open
      modifies file
      ensures Model() == RaftStorage.DeleteConflictLogsSince(old(Model()), id)
    {
      file.disk := file.disk.(log := DeleteFrom(file.disk.log, AsI64(id.index)));
    }

    method PurgeLogsUpTo(id: LogId)
      requires pool.open
      modifies this`lastPurged, file
      ensures Model() == RaftStorage.PurgeLogsUpTo(old(Model()), id)
    {
      file.disk := file.disk.(log := DeleteUpTo(file.disk.log, AsI64(id.index)));
      file.disk := file.disk.(purged := Some(id));
      lastPurged := Some(id);
    }

    method ApplyToStateMachine(entries: seq<Entry>) returns (responses: seq<Response>)
      requires pool.open
      modifies this`lastApplied, this`membership, file
      ensures (Model(), responses) == RaftStorage.ApplyToStateMachine(exec, old(Model()), entries)
    {
      responses := [];
      assert entries[..0] == [];
      for i := 0 to |entries|
        invariant (Model(), responses) == ApplyEntries(exec, old(Model()), entries[..i])
      {
        assert entries[..i + 1][..i] == entries[..i];
        var entry := entries[i];
        lastApplied := Some(entry.logId);
        match entry.payload
        case Blank =>
          responses := responses + [OkRows(0)];
        case Normal(request) =>
          var (game, response) := exec(file.disk.game, request);
          file.disk := file.disk.(game := game);
          responses := responses + [response];
        case Change(m) =>
          membership := StoredMembership(Some(entry.logId), m);
          responses := responses + [OkRows(0)];
      }
      assert entries[..|entries|] == entries;
      if lastApplied.Some? {
        file.disk := file.disk.(applied := lastApplied);
      }
    }

    /** Called on a builder: the snapshot is remembered in the builder, not in the store it was copied from. With a path
        the file is read after a checkpoint through the pool, so a builder made before an install fails. */
    method BuildSnapshot() returns (result: Result<Snapshot<Db>, string>)
      modifies this`currentSnapshot
      ensures result.Err? <==> hasPath && !pool.open
      ensures result.Err? ==> Model() == old(Model())
      ensures result.Ok? ==> result.value == RaftStorage.BuildSnapshot(old(Model()))
                             && Model() == old(Model()).(snapshot := Some(result.value))
    {
      var bytes: Option<Disk<Db>> := None;
      if hasPath {
        if !pool.open {
          return Err("pool closed");
        }
        bytes := Some(file.disk);
      }
      var data := SnapshotData(lastApplied, membership, bytes);
      var id: (U64, U64) := (0, 0);
      if lastApplied.Some? {
        id := (lastApplied.value.term, lastApplied.value.index);
      }
      var snapshot := Snapshot(SnapshotMeta(lastApplied, membership, id), Encoded(data));
      currentSnapshot := Some(snapshot);
      result := Ok(snapshot);
    }

    /** Restoring a file closes the pool that earlier copies share, and opens a new one. */
    method InstallSnapshot(snapshot: Snapshot<Db>) returns (ok: bool)
      requires pool.open
      modifies this`pool, this`lastApplied, this`membership, this`currentSnapshot, pool, file
      ensures pool.open
      ensures match RaftStorage.InstallSnapshot(old(Model()), snapshot)
              case Ok(after) => ok && Model() == after
              case Err(_) => !ok && Model() == old(Model())
      ensures if ok && snapshot.bytes.data.file.Some? && hasPath then fresh(pool) && !old(pool).open
              else pool == old(pool)
    {
      if snapshot.bytes.Malformed? {
        return false;
      }
      var data := snapshot.bytes.data;
      if data.file.Some? {
        if hasPath {
          pool.open := false;
          file.disk := data.file.value;
          pool := new Pool();
        }
      }
      lastApplied := data.lastApplied;
      membership := data.membership;
      currentSnapshot := Some(snapshot);
      ok := true;
    }
  }
}
