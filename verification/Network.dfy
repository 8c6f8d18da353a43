/**
The running master and monitors do the steps of the cluster.
*/
module Networks {
  import opened Applications
  import opened Watchdogs
  import opened Memberships

  class Network {
    const watchdog: Watchdog
    // The application of every monitor that ever connected.
    var apps: map<string, Application>

    ghost function State(): Cluster
      reads this, watchdog, watchdog.agent, set id | id in apps :: apps[id]
    {
      Cluster(watchdog.State(), map id | id in apps :: apps[id].State())
    }

    ghost predicate Valid()
      reads this, watchdog
    {
      watchdog.Valid() && forall i, j :: i in apps && j in apps && i != j ==> apps[i] != apps[j]
    }

    constructor (count: int)
      ensures Valid() && State() == START && fresh(watchdog) && fresh(watchdog.agent)
    {
      var agent := new Agent();
      watchdog := new Watchdog(agent, count);
      apps := map[];
    }

    // A process registers, and has tables of its own.
    method Register(server: Server)
      requires Valid() && Enabled(State(), Event.Register(server))
      modifies this, watchdog, watchdog.agent
      ensures Valid() && State() == Step(old(State()), Event.Register(server))
    {
      hide Added;
      Announce(server);
      var app := new Application();
      apps := apps[server.id := app];
    }

    method Announce(server: Server)
      requires Valid()
      modifies watchdog, watchdog.agent
      ensures Valid() && State().tables == old(State()).tables
      ensures var n := Connected(old(State()).master, server.id);
              State().master == if Watched(server) then Added(n, server) else n
    {
      hide Added;
      watchdog.agent.AddConnection(server.id);
      OnServerAdd(watchdog, server);
    }

    method Subscribe(id: string) returns (ghost entries: seq<Server>)
      requires Valid() && (id in watchdog.listeners || Untold(State(), id))
      requires id in watchdog.agent.channels
      modifies watchdog, watchdog.agent
      ensures Enabled(old(State()), Event.Subscribe(id, entries))
      ensures Valid() && State() == Step(old(State()), Event.Subscribe(id, entries))
    {
      entries := OnSubscribe(watchdog, id);
    }

    // A second process registers under the same id.
    method Duplicate(server: Server)
      requires Valid() && Enabled(State(), Event.Duplicate(server))
      modifies watchdog, watchdog.agent
      ensures Valid() && State() == Step(old(State()), Event.Duplicate(server))
    {
      OnServerAdd(watchdog, server);
    }

    // A second process leaves, and its record at the master is not that of the first.
    method Leave(id: string, kind: string)
      requires Valid()
      modifies watchdog, watchdog.agent
      ensures Valid()
      ensures State() == if kind == "client" then old(State()) else Step(old(State()), Event.Leave(id))
    {
      OnServerLeave(watchdog, id, kind);
    }

    method Disconnect(id: string, kind: string)
      requires Valid() && Enabled(State(), Event.Disconnect(id, kind))
      modifies watchdog, watchdog.agent
      ensures Valid() && State() == Step(old(State()), Event.Disconnect(id, kind))
    {
      if kind != "client" {
        watchdog.agent.RemoveConnection(id);
      }
      OnServerLeave(watchdog, id, kind);
    }

    method Reconnect(server: Server) returns (ghost entries: seq<Server>)
      requires Valid() && Watched(server) && server.id != ""
      requires server.id !in watchdog.agent.channels && server.id in apps
      modifies watchdog, watchdog.agent
      ensures Enabled(old(State()), Event.Reconnect(server, entries))
      ensures Valid() && State() == Step(old(State()), Event.Reconnect(server, entries))
    {
      watchdog.agent.AddConnection(server.id);
      hide Reconnected, Enumerates;
      entries := OnServerReconnect(watchdog, server);
    }

    // The last of the configured servers to report that it has started starts the cluster.
    method Record()
      requires Valid()
      modifies watchdog, watchdog.agent
      ensures Valid()
      ensures State() ==
              if watchdog.isStarted && !old(watchdog.isStarted) then Step(old(State()), Start) else old(State())
    {
      watchdog.Record();
    }

    method Deliver(id: string)
      requires Valid() && Enabled(State(), Event.Deliver(id))
      modifies watchdog.agent, apps[id]
      ensures Valid() && State() == Step(old(State()), Event.Deliver(id))
    {
      hide Handle;
      var msg := watchdog.agent.Arrive(id);
      MonitorHandler(apps[id], msg);
    }
  }
}
