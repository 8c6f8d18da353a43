/**
The watchdog of the master: the servers, the monitors that listen, and what it sends to them.
*/
module Watchdogs {
  import opened Applications

  // A message to a monitor. A map of servers is sent as its entries in some order; Subscribed is
  // the answer to a request to subscribe.
  datatype Message =
    | AddServer(server: Server)
    | RemoveServer(id: string)
    | ReplaceServer(entries: seq<Server>)
    | Subscribed(entries: seq<Server>)
    | StartOver

  type Channels = map<string, seq<Message>>

  datatype Master = Master(servers: map<string, Server>, listeners: set<string>, channels: Channels)

  // Without a connection the message is lost.
  function Send(channels: Channels, id: string, msg: Message): Channels {
    if id in channels then channels[id := channels[id] + [msg]] else channels
  }

  function SendAll(channels: Channels, ids: set<string>, msg: Message): Channels {
    map id | id in channels :: if id in ids then channels[id] + [msg] else channels[id]
  }

  /* ---------- what each event does to the master ---------- */

  function Added(m: Master, server: Server): Master {
    m.(servers := m.servers[server.id := server], channels := SendAll(m.channels, m.listeners, AddServer(server)))
  }

  function Removed(m: Master, id: string): Master {
    if id == "" then m
    else
      var listeners := m.listeners - {id};
      Master(m.servers - {id}, listeners, SendAll(m.channels, listeners, RemoveServer(id)))
  }

  // A server that is known already keeps its record.
  function Kept(servers: map<string, Server>, server: Server): map<string, Server> {
    if server.id in servers then servers else servers[server.id := server]
  }

  function Reconnected(m: Master, server: Server, entries: seq<Server>): Master {
    Master(Kept(m.servers, server), m.listeners + {server.id},
           SendAll(Send(m.channels, server.id, ReplaceServer(entries)), m.listeners, AddServer(server)))
  }

  // The monitor listens from now on, and is told of all servers.
  function Joined(m: Master, id: string, entries: seq<Server>): Master {
    m.(listeners := m.listeners + {id}, channels := Send(m.channels, id, Subscribed(entries)))
  }

  predicate Watched(server: Server) {
    server.kind != "client" && server.serverType != ""
  }

  /* ---------- the connections ---------- */

  class Agent {
    var channels: Channels

    constructor ()
      ensures channels == map[]
    {
      channels := map[];
    }

    method AddConnection(id: string)
      modifies this
      ensures channels == old(channels)[id := []]
    {
      channels := channels[id := []];
    }

    method RemoveConnection(id: string)
      modifies this
      ensures channels == old(channels) - {id}
    {
      channels := channels - {id};
    }

    // The first message on the way arrives.
    method Arrive(id: string) returns (msg: Message)
      requires id in channels && channels[id] != []
      modifies this
      ensures msg == old(channels)[id][0] && channels == old(channels)[id := old(channels)[id][1..]]
    {
      msg := channels[id][0];
      channels := channels[id := channels[id][1..]];
    }

    method Request(id: string, msg: Message)
      modifies this
      ensures channels == Send(old(channels), id, msg)
    {
      if id !in channels {
        return;
      }
      channels := channels[id := channels[id] + [msg]];
    }
  }

  method Entries(servers: map<string, Server>) returns (entries: seq<Server>)
    requires forall id :: id in servers ==> servers[id].id == id
    ensures Enumerates(entries, servers)
  {
    entries := [];
    var rest := servers.Keys;
    while rest != {}
      invariant rest <= servers.Keys && DistinctIds(entries)
      invariant forall s :: s in entries ==> s.id in servers && s.id !in rest && servers[s.id] == s
      invariant forall id :: id in servers && id !in rest ==> servers[id] in entries
    {
      var id :| id in rest;
      entries := entries + [servers[id]];
      rest := rest - {id};
    }
  }

  class Watchdog {
    const agent: Agent
    var servers: map<string, Server>
    var listeners: set<string>
    var count: int
    var isStarted: bool

    ghost function State(): Master
      reads this, agent
    {
      Master(servers, listeners, agent.channels)
    }

    ghost predicate Valid()
      reads this
    {
      forall id :: id in servers ==> servers[id].id == id
    }

    // count is the number of configured servers.
    constructor (agent: Agent, count: int)
      ensures Valid() && this.agent == agent && servers == map[] && listeners == {} && !isStarted
    {
      this.agent := agent;
      servers, listeners := map[], {};
      this.count, isStarted := count, false;
    }

    method Notify(msg: Message)
      modifies agent
      ensures agent.channels == SendAll(old(agent.channels), listeners, msg)
    {
      if |listeners| == 0 {
        assert listeners == {};
        return;
      }
      var rest := listeners;
      while rest != {}
        invariant rest <= listeners
        invariant agent.channels == SendAll(old(agent.channels), listeners - rest, msg)
      {
        var id :| id in rest;
        agent.Request(id, msg);
        rest := rest - {id};
      }
      assert listeners - rest == listeners;
    }

    method AddServer(server: Server)
      requires Valid()
      modifies this, agent
      ensures Valid() && State() == Added(old(State()), server)
    {
      servers := servers[server.id := server];
      Notify(Message.AddServer(server));
    }

    method RemoveServer(id: string)
      requires Valid()
      modifies this, agent
      ensures Valid() && State() == Removed(old(State()), id)
    {
      if id == "" {
        return;
      }
      Unsubscribe(id);
      servers := servers - {id};
      Notify(Message.RemoveServer(id));
    }

    method ReconnectServer(server: Server) returns (ghost entries: seq<Server>)
      requires Valid()
      modifies this, agent
      ensures Valid() && State() == Reconnected(old(State()), server, entries)
      ensures Enumerates(entries, servers)
    {
      if server.id !in servers {
        servers := servers[server.id := server];
      }
      var list := Entries(servers);
      entries := list;
      agent.Request(server.id, ReplaceServer(list));
      Notify(Message.AddServer(server));
      Subscribe(server.id);
    }

    method Subscribe(id: string)
      modifies this
      ensures State() == old(State()).(listeners := old(listeners) + {id})
      ensures count == old(count) && isStarted == old(isStarted)
    {
      listeners := listeners + {id};
    }

    method Unsubscribe(id: string)
      modifies this
      ensures State() == old(State()).(listeners := old(listeners) - {id})
      ensures count == old(count) && isStarted == old(isStarted)
    {
      listeners := listeners - {id};
    }

    // One more server has started.
    method Record()
      requires Valid()
      modifies this, agent
      ensures Valid() && servers == old(servers) && listeners == old(listeners)
      ensures count == if old(isStarted) then old(count) else old(count) - 1
      ensures isStarted <==> old(isStarted) || old(count) <= 0
      ensures agent.channels == if !old(isStarted) && isStarted then SendAll(old(agent.channels), listeners, StartOver)
                                else old(agent.channels)
    {
      if !isStarted {
        count := count - 1;
        if count < 0 {
          Notify(StartOver);
          isStarted := true;
        }
      }
    }
  }

  /* ---------- the events of the master ---------- */

  method OnServerAdd(watchdog: Watchdog, record: Server)
    requires watchdog.Valid()
    modifies watchdog, watchdog.agent
    ensures watchdog.Valid()
    ensures watchdog.State() == if Watched(record) then Added(old(watchdog.State()), record) else old(watchdog.State())
  {
    if record.kind == "client" || record.serverType == "" {
      return;
    }
    watchdog.AddServer(record);
  }

  method OnServerReconnect(watchdog: Watchdog, record: Server) returns (ghost entries: seq<Server>)
    requires watchdog.Valid()
    modifies watchdog, watchdog.agent
    ensures watchdog.Valid()
    ensures if Watched(record) then
              && watchdog.State() == Reconnected(old(watchdog.State()), record, entries)
              && Enumerates(entries, watchdog.servers)
            else watchdog.State() == old(watchdog.State())
  {
    entries := [];
    if record.kind == "client" || record.serverType == "" {
      return;
    }
    entries := watchdog.ReconnectServer(record);
  }

  method OnServerLeave(watchdog: Watchdog, id: string, kind: string)
    requires watchdog.Valid()
    modifies watchdog, watchdog.agent
    ensures watchdog.Valid()
    ensures watchdog.State() == if kind != "client" then Removed(old(watchdog.State()), id) else old(watchdog.State())
  {
    if id == "" {
      return;
    }
    if kind != "client" {
      watchdog.RemoveServer(id);
    }
  }

  // The answer goes out after the monitor has been made a listener.
  method OnSubscribe(watchdog: Watchdog, id: string) returns (ghost entries: seq<Server>)
    requires watchdog.Valid()
    modifies watchdog, watchdog.agent
    ensures watchdog.Valid() && watchdog.State() == Joined(old(watchdog.State()), id, entries)
    ensures Enumerates(entries, watchdog.servers)
  {
    watchdog.Subscribe(id);
    var list := Entries(watchdog.servers);
    entries := list;
    watchdog.agent.Request(id, Subscribed(list));
  }
}
