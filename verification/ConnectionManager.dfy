/** The connection manager as it runs: two maps behind locks (mudd/src/api/websocket.rs:37-99). */
module ConnectionManagerClass {
  import G = GracePeriod

  class ConnectionManager {
    var sessions: map<G.Player, nat>
    var pendingDisconnects: map<G.Player, nat>
    var ready: set<nat>
    var nextChannel: nat

    ghost function Model(): G.Hub
      reads this
    {
      G.Hub(sessions, pendingDisconnects, ready, nextChannel)
    }

    constructor ()
      ensures Model() == G.Hub(map[], map[], {}, 0)
    {
      sessions, pendingDisconnects, ready, nextChannel := map[], map[], {}, 0;
    }

    method CancelPendingDisconnect(p: G.Player) returns (cancelled: bool)
      modifies this
      ensures Model() == G.CancelPending(old(Model()), p)
      ensures cancelled <==> p in old(pendingDisconnects)
    {
      if p !in pendingDisconnects {
        return false;
      }
      var sender := pendingDisconnects[p];
      pendingDisconnects := pendingDisconnects - {p};
      ready := ready + {sender};
      cancelled := true;
    }

    method ScheduleDisconnect(p: G.Player) returns (receiver: nat)
      modifies this
      ensures Model() == G.ScheduleDisconnect(old(Model()), p)
      ensures receiver == old(nextChannel) && pendingDisconnects[p] == receiver
    {
      receiver := nextChannel;
      nextChannel := nextChannel + 1;
      if p in pendingDisconnects {
        ready := ready + {pendingDisconnects[p]};
      }
      pendingDisconnects := pendingDisconnects[p := receiver];
    }

    method ClearPendingDisconnect(p: G.Player)
      modifies this
      ensures Model() == G.ClearPending(old(Model()), p)
    {
      if p in pendingDisconnects {
        ready := ready + {pendingDisconnects[p]};
        pendingDisconnects := pendingDisconnects - {p};
      }
    }

    method Register(p: G.Player, socket: nat)
      modifies this
      ensures Model() == G.Register(old(Model()), p, socket)
    {
      sessions := sessions[p := socket];
    }

    method Unregister(p: G.Player)
      modifies this
      ensures Model() == G.Unregister(old(Model()), p)
    {
      sessions := sessions - {p};
    }
  }
}
