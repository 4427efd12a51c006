/** The timer manager as the server holds it, over the rows of the timers table (mudd/src/timers/mod.rs:119-317). */
module TimerManagerClass {
  import opened Wrappers
  import M = Timers
  import T = Text

  class TimerManager {
    var timers: map<string, M.Timer>
    var heartbeats: map<string, M.HeartBeat>
    /** The stored rows, by id. */
    var table: map<string, M.Timer>

    ghost function State(): M.State reads this { M.State(timers, table, heartbeats) }

    /** A fresh process over the rows that are there. */
    constructor (rows: map<string, M.Timer>)
      ensures State() == M.State(map[], rows, map[])
    {
      timers := map[];
      heartbeats := map[];
      table := rows;
    }

    method AddTimer(timer: M.Timer) returns (id: string)
      modifies this
      ensures id == timer.id && State() == M.Step(old(State()), M.Add(timer))
    {
      id := timer.id;
      table := table[id := timer];
      timers := timers[id := timer];
    }

    method RemoveTimer(id: string) returns (removed: bool)
      modifies this
      ensures removed == (id in old(timers)) && State() == M.Step(old(State()), M.Remove(id))
    {
      table := table - {id};
      removed := id in timers;
      timers := timers - {id};
    }

    method RemoveTimersForObject(objectId: string)
      requires M.Keyed(State())
      modifies this
      ensures State() == M.Step(old(State()), M.RemoveForObject(objectId))
    {
      var ids := {};
      var todo := timers.Keys;
      while todo != {}
        invariant todo <= timers.Keys && State() == old(State())
        invariant forall id :: id in ids <==> id in timers && id !in todo && timers[id].objectId == objectId
      {
        var id :| id in todo;
        if timers[id].objectId == objectId {
          ids := ids + {timers[id].id};
        }
        todo := todo - {id};
      }
      todo := ids;
      while todo != {}
        invariant todo <= ids && heartbeats == old(heartbeats)
        invariant timers == old(timers) - (ids - todo) && table == old(table) - (ids - todo)
      {
        var id :| id in todo;
        timers := timers - {id};
        table := table - {id};
        todo := todo - {id};
      }
      assert timers == M.OfOthers(old(timers), objectId);
      assert old(timers).Keys - timers.Keys == ids;
    }

    method SetHeartbeat(heartbeat: M.HeartBeat)
      modifies this
      ensures State() == M.Step(old(State()), M.SetHeartbeat(heartbeat))
    {
      heartbeats := heartbeats[heartbeat.objectId := heartbeat];
    }

    method RemoveHeartbeat(objectId: string) returns (removed: bool)
      modifies this
      ensures removed == (objectId in old(heartbeats)) && State() == M.Step(old(State()), M.RemoveHeartbeat(objectId))
    {
      removed := objectId in heartbeats;
      heartbeats := heartbeats - {objectId};
    }

    method Tick(now: int, instant: int) returns (fired: seq<M.Fired>)
      requires M.Keyed(State())
      modifies this
      ensures State() == M.Step(old(State()), M.Tick(now, instant))
      ensures fired == M.Output(old(State()), M.Tick(now, instant))
    {
      var due := DueTimers(now);
      fired := FireTimers(due, now);
      var beats := Beat(instant);
      fired := fired + beats;
    }

    /** The keys of a `BTreeMap`, in order. */
    method KeysInOrder(keys: set<string>) returns (ids: seq<string>)
      ensures ids == T.Ascending(keys)
    {
      hide T.Ascending;
      ids := [];
      var todo := keys;
      T.AscendingEmpty();
      while todo != {}
        invariant T.Ascending(keys) == ids + T.Ascending(todo)
        decreases |todo|
      {
        T.HasLeast(todo);
        var id :| id in todo && T.IsLeast(todo, id);
        T.AscendingFrom(todo, id);
        ids := ids + [id];
        todo := todo - {id};
      }
    }

    method DueTimers(now: int) returns (due: seq<M.Timer>)
      ensures due == M.Due(timers, now)
    {
      hide T.Ascending, T.Less;
      var ids := KeysInOrder(timers.Keys);
      T.AscendingHasAll(timers.Keys);
      due := [];
      var i := 0;
      while i < |ids|
        invariant 0 <= i <= |ids| && due == M.DueIn(timers, ids[..i], now)
      {
        assert ids[..i + 1][..i] == ids[..i];
        assert ids[i] in ids;
        if timers[ids[i]].fireAt <= now {
          due := due + [timers[ids[i]]];
        }
        i := i + 1;
      }
      assert ids[..i] == ids;
    }

    method FireTimers(due: seq<M.Timer>, now: int) returns (fired: seq<M.Fired>)
      requires M.Keyed(State()) && due == M.Due(timers, now)
      modifies this
      ensures fired == M.CallTimers(due)
      ensures heartbeats == old(heartbeats) && timers == M.NotDue(old(timers), now)
      ensures table == old(table) - (old(timers).Keys - timers.Keys)
    {
      fired := [];
      ghost var gone := {};
      var i := 0;
      while i < |due|
        invariant 0 <= i <= |due| && fired == M.CallTimers(due[..i])
        invariant forall id :: id in gone <==> exists j | 0 <= j < i :: due[j].id == id
        invariant heartbeats == old(heartbeats) && timers == old(timers) - gone && table == old(table) - gone
      {
        var timer := due[i];
        fired := fired + [M.Fired(timer.objectId, timer.universeId, timer.callback, timer.args)];
        var _ := RemoveTimer(timer.id);
        gone := gone + {timer.id};
        i := i + 1;
      }
      assert due[..i] == due;
      DueIds(old(timers), now, due, gone);
    }

    static lemma DueIds(before: map<string, M.Timer>, now: int, due: seq<M.Timer>, gone: set<string>)
      requires forall id | id in before :: before[id].id == id
      requires due == M.Due(before, now)
      requires forall id :: id in gone <==> exists j | 0 <= j < |due| :: due[j].id == id
      ensures before - gone == M.NotDue(before, now)
      ensures before.Keys - M.NotDue(before, now).Keys == gone
    {
      forall id ensures id in gone <==> id in before && before[id].fireAt <= now {
        if id in before { M.DueExactly(before, now, before[id]); }
        if id in gone {
          var j :| 0 <= j < |due| && due[j].id == id;
          M.DueExactly(before, now, due[j]);
        }
      }
    }

    method Beat(instant: int) returns (fired: seq<M.Fired>)
      modifies this
      ensures fired == M.CallHeartbeats(M.Beating(old(heartbeats), instant))
      ensures timers == old(timers) && table == old(table)
      ensures heartbeats == M.AfterBeat(old(heartbeats), instant)
    {
      hide T.Ascending, T.Less, M.BeatSome, M.BeatingIn, M.CallHeartbeats;
      var ids := KeysInOrder(heartbeats.Keys);
      T.AscendingHasAll(heartbeats.Keys);
      ghost var before := heartbeats;
      fired := [];
      M.BeatNone(before, instant);
      var i := 0;
      while i < |ids|
        invariant 0 <= i <= |ids| && timers == old(timers) && table == old(table)
        invariant fired == M.CallHeartbeats(M.BeatingIn(before, ids[..i], instant))
        invariant heartbeats == M.BeatSome(before, ids[..i], instant)
      {
        forall j | 0 <= j < i ensures ids[j] != ids[i] { T.AscendingDistinct(before.Keys, j, i); }
        M.BeatNext(before, ids[..i], ids[i], instant);
        M.CallNext(before, ids[..i], ids[i], instant);
        assert ids[..i + 1] == ids[..i] + [ids[i]];
        var h := heartbeats[ids[i]];
        if instant - h.lastFired >= h.intervalMs {
          fired := fired + [M.Fired(h.objectId, h.universeId, h.callback, None)];
          heartbeats := heartbeats[ids[i] := h.(lastFired := instant)];
        }
        i := i + 1;
      }
      assert ids[..i] == ids;
      M.BeatAll(before, ids, instant);
    }

    /** Every row goes into memory. */
    method LoadFromDb()
      requires forall id | id in table :: table[id].id == id
      modifies this
      ensures State() == old(State()).(timers := old(timers) + table)
    {
      var todo := table.Keys;
      while todo != {}
        invariant todo <= table.Keys && table == old(table) && heartbeats == old(heartbeats)
        invariant timers == old(timers) + (table - todo)
      {
        var id :| id in todo;
        var row := table[id];
        timers := timers[row.id := row];
        todo := todo - {id};
      }
    }
  }

  /** A restart: a new manager over the old rows, which then loads them. */
  method Restart(oldManager: TimerManager) returns (manager: TimerManager)
    requires forall id | id in oldManager.table :: oldManager.table[id].id == id
    ensures manager.State() == M.Step(oldManager.State(), M.Restart)
  {
    manager := new TimerManager(oldManager.table);
    manager.LoadFromDb();
  }
}
