/**
The cluster: the master, a channel to every connected monitor, and the tables of the monitors.
*/
module Memberships {
  import opened Applications
  import opened Watchdogs

  // Whatever the order of events, a monitor that listens will have the servers of the master once it has
  // received what has been sent to it.

  /* ---------- a monitor handles a message ---------- */

  function Handle(t: Tables, msg: Message): Tables {
    match msg
    case AddServer(server) => AddAll(t, [server])
    case RemoveServer(id) => if id == "" then t else RemoveAll(t, [id])
    case ReplaceServer(entries) => ReplaceAll(entries)
    case Subscribed(entries) => AddAll(t, entries)
    case StartOver => t
  }

  method MonitorHandler(app: Application, msg: Message)
    modifies app
    ensures app.State() == Handle(old(app.State()), msg)
  {
    match msg {
      case AddServer(server) =>
        app.AddServers([server]);
      case RemoveServer(id) =>
        if id == "" {
          return;
        }
        app.RemoveServers([id]);
      case ReplaceServer(entries) =>
        app.ReplaceServers(entries);
      case Subscribed(entries) =>
        var res := [];
        for i := 0 to |entries|
          invariant res == entries[..i]
        {
          res := res + [entries[i]];
        }
        assert entries[..|entries|] == entries;
        app.AddServers(res);
      case StartOver =>
    }
  }

  /* ---------- what the messages do to the table of servers ---------- */

  function Apply(servers: map<string, Server>, msg: Message): map<string, Server> {
    match msg
    case AddServer(server) => servers[server.id := server]
    case RemoveServer(id) => if id == "" then servers else servers - {id}
    case ReplaceServer(entries) => MapOf(entries)
    case Subscribed(entries) => servers + MapOf(entries)
    case StartOver => servers
  }

  function After(servers: map<string, Server>, msgs: seq<Message>): map<string, Server> {
    if msgs == [] then servers else Apply(After(servers, msgs[..|msgs| - 1]), msgs[|msgs| - 1])
  }

  lemma HandleServers(t: Tables, msg: Message)
    ensures Handle(t, msg).servers == Apply(t.servers, msg)
  {
    match msg {
      case AddServer(server) =>
        AddAllServers(t, [server]);
        assert MapOf([server]) == map[server.id := server];
      case RemoveServer(id) =>
        assert RemoveAll(t, [id]) == RemoveOne(t, id);
        if id !in t.servers {
          assert t.servers - {id} == t.servers;
        }
      case ReplaceServer(entries) =>
        SamePushes(MapOf(entries), MapOf(entries), entries);
      case Subscribed(entries) =>
        AddAllServers(t, entries);
      case StartOver =>
    }
  }

  lemma AfterSend(servers: map<string, Server>, msgs: seq<Message>, msg: Message)
    ensures After(servers, msgs + [msg]) == Apply(After(servers, msgs), msg)
  {
    assert (msgs + [msg])[..|msgs|] == msgs;
  }

  lemma {:induction false} AfterDeliver(servers: map<string, Server>, msgs: seq<Message>)
    requires msgs != []
    ensures After(Apply(servers, msgs[0]), msgs[1..]) == After(servers, msgs)
  {
    var n := |msgs| - 1;
    if n > 0 {
      AfterDeliver(servers, msgs[..n]);
      assert msgs[..n][1..] == msgs[1..][..n - 1];
    }
  }

  /* ---------- the cluster ---------- */

  // Every monitor that ever connected has its tables.
  datatype Cluster = Cluster(master: Master, tables: map<string, Tables>)

  datatype Event =
    | Register(server: Server)
    | Subscribe(id: string, entries: seq<Server>)
    | Duplicate(server: Server)
    | Leave(id: string)
    | Disconnect(id: string, kind: string)
    | Reconnect(server: Server, entries: seq<Server>)
    | Start
    | Deliver(id: string)

  function Connected(m: Master, id: string): Master {
    m.(channels := m.channels[id := []])
  }

  // The monitor has just started: nothing has been sent to it.
  ghost predicate Untold(c: Cluster, id: string) {
    id in c.master.channels && id in c.tables && c.master.channels[id] == [] && c.tables[id].servers == map[]
  }

  // Registering is the first thing a process does; reconnecting follows a disconnect of the same process. A
  // second process may register under an id that is connected: the connection stays that of the first, but the
  // record is announced. When it leaves, the server under this id is taken for gone. Clients have no channel. A
  // monitor subscribes once, when it starts: see NothingToldBefore.
  ghost predicate Enabled(c: Cluster, e: Event) {
    var m := c.master;
    match e
    case Register(server) => server.id != "" && server.id !in m.channels
    case Subscribe(id, entries) => (id in m.listeners || Untold(c, id)) && Enumerates(entries, m.servers)
    case Duplicate(server) => server.id in m.channels
    case Leave(_) => true
    case Disconnect(id, kind) => kind == "client" || (id != "" && id in m.channels)
    case Reconnect(server, entries) =>
      && Watched(server) && server.id != "" && server.id !in m.channels && server.id in c.tables
      && Enumerates(entries, Kept(m.servers, server))
    case Start => true
    case Deliver(id) => id in m.channels && m.channels[id] != [] && id in c.tables
  }

  function Step(c: Cluster, e: Event): Cluster
    requires Enabled(c, e)
  {
    var m := c.master;
    match e
    case Register(server) =>
      var n := Connected(m, server.id);
      Cluster(if Watched(server) then Added(n, server) else n, c.tables[server.id := EMPTY])
    case Subscribe(id, entries) => c.(master := Joined(m, id, entries))
    case Duplicate(server) => c.(master := if Watched(server) then Added(m, server) else m)
    case Leave(id) => c.(master := Removed(m, id))
    case Disconnect(id, kind) =>
      if kind == "client" then c else c.(master := Removed(m.(channels := m.channels - {id}), id))
    case Reconnect(server, entries) => c.(master := Reconnected(Connected(m, server.id), server, entries))
    case Start => c.(master := m.(channels := SendAll(m.channels, m.listeners, StartOver)))
    case Deliver(id) =>
      Cluster(m.(channels := m.channels[id := m.channels[id][1..]]),
              c.tables[id := Handle(c.tables[id], m.channels[id][0])])
  }

  const START := Cluster(Master(map[], {}, map[]), map[])

  /* ---------- convergence ---------- */

  // The monitor will have the servers of the master after what is on the way to it.
  ghost predicate Converges(c: Cluster, id: string) {
    id in c.master.channels && id in c.tables && After(c.tables[id].servers, c.master.channels[id]) == c.master.servers
  }

  ghost predicate Inv(c: Cluster) {
    && (forall id :: id in c.master.listeners ==> Converges(c, id))
    && (forall id :: id in c.master.servers ==> id in c.master.channels && c.master.servers[id].id == id)
  }

  lemma RegisterKeeps(c: Cluster, server: Server)
    requires Inv(c) && Enabled(c, Register(server))
    ensures Inv(Step(c, Register(server)))
  {
    var d := Step(c, Register(server));
    forall id | id in d.master.listeners
      ensures Converges(d, id)
    {
      assert Converges(c, id);
      AfterSend(c.tables[id].servers, c.master.channels[id], AddServer(server));
    }
  }

  lemma SubscribeKeeps(c: Cluster, id: string, entries: seq<Server>)
    requires Inv(c) && Enabled(c, Subscribe(id, entries))
    ensures Inv(Step(c, Subscribe(id, entries)))
  {
    var d := Step(c, Subscribe(id, entries));
    assert id in c.master.listeners ==> Converges(c, id);
    AfterSend(c.tables[id].servers, c.master.channels[id], Subscribed(entries));
    MapOfUnique(entries, c.master.servers);
    assert Converges(d, id);
    assert forall i :: i in c.master.listeners ==> Converges(c, i);
  }

  lemma DuplicateKeeps(c: Cluster, server: Server)
    requires Inv(c) && Enabled(c, Duplicate(server))
    ensures Inv(Step(c, Duplicate(server)))
  {
    var d := Step(c, Duplicate(server));
    forall id | id in d.master.listeners
      ensures Converges(d, id)
    {
      assert Converges(c, id);
      AfterSend(c.tables[id].servers, c.master.channels[id], AddServer(server));
    }
  }

  lemma LeaveKeeps(c: Cluster, id: string)
    requires Inv(c)
    ensures Inv(Step(c, Leave(id)))
  {
    var d := Step(c, Leave(id));
    forall i | i in d.master.listeners
      ensures Converges(d, i)
    {
      assert Converges(c, i);
      AfterSend(c.tables[i].servers, c.master.channels[i], RemoveServer(id));
    }
  }

  lemma DisconnectKeeps(c: Cluster, id: string, kind: string)
    requires Inv(c) && Enabled(c, Disconnect(id, kind))
    ensures Inv(Step(c, Disconnect(id, kind)))
  {
    if kind != "client" {
      var d := Step(c, Disconnect(id, kind));
      forall i | i in d.master.listeners
        ensures Converges(d, i)
      {
        assert Converges(c, i);
        AfterSend(c.tables[i].servers, c.master.channels[i], RemoveServer(id));
      }
    }
  }

  lemma ReconnectKeeps(c: Cluster, server: Server, entries: seq<Server>)
    requires Inv(c) && Enabled(c, Reconnect(server, entries))
    ensures Inv(Step(c, Reconnect(server, entries)))
  {
    hide After, MapOf, Enumerates;
    var d := Step(c, Reconnect(server, entries));
    assert server.id !in c.master.listeners;
    forall i | i in d.master.listeners
      ensures Converges(d, i)
    {
      if i == server.id {
        assert d.master.channels[i] == [] + [ReplaceServer(entries)];
        AfterSend(c.tables[i].servers, [], ReplaceServer(entries));
        MapOfUnique(entries, d.master.servers);
      } else {
        assert Converges(c, i);
        AfterSend(c.tables[i].servers, c.master.channels[i], AddServer(server));
      }
    }
  }

  lemma StartKeeps(c: Cluster)
    requires Inv(c)
    ensures Inv(Step(c, Start))
  {
    var d := Step(c, Start);
    forall i | i in d.master.listeners
      ensures Converges(d, i)
    {
      assert Converges(c, i);
      AfterSend(c.tables[i].servers, c.master.channels[i], StartOver);
    }
  }

  lemma DeliverKeeps(c: Cluster, id: string)
    requires Inv(c) && Enabled(c, Deliver(id))
    ensures Inv(Step(c, Deliver(id)))
  {
    var d := Step(c, Deliver(id));
    HandleServers(c.tables[id], c.master.channels[id][0]);
    AfterDeliver(c.tables[id].servers, c.master.channels[id]);
    forall i | i in d.master.listeners
      ensures Converges(d, i)
    {
      assert Converges(c, i);
    }
  }

  lemma StepKeeps(c: Cluster, e: Event)
    requires Inv(c) && Enabled(c, e)
    ensures Inv(Step(c, e))
  {
    hide Inv, Step;
    match e {
      case Register(server) => RegisterKeeps(c, server);
      case Subscribe(id, entries) => SubscribeKeeps(c, id, entries);
      case Duplicate(server) => DuplicateKeeps(c, server);
      case Leave(id) => LeaveKeeps(c, id);
      case Disconnect(id, kind) => DisconnectKeeps(c, id, kind);
      case Reconnect(server, entries) => ReconnectKeeps(c, server, entries);
      case Start => StartKeeps(c);
      case Deliver(id) => DeliverKeeps(c, id);
    }
  }

  // The states of a run of these events.
  ghost predicate Run(states: seq<Cluster>, events: seq<Event>) {
    && |states| == |events| + 1 && states[0] == START
    && forall i :: 0 <= i < |events| ==> Enabled(states[i], events[i]) && states[i + 1] == Step(states[i], events[i])
  }

  // In every state of every run each listening monitor converges, and has converged when nothing is on the way.
  lemma {:induction false} Convergence(states: seq<Cluster>, events: seq<Event>, i: nat)
    requires Run(states, events) && i < |states|
    ensures Inv(states[i])
    ensures forall id :: id in states[i].master.listeners && states[i].master.channels[id] == [] ==>
              states[i].tables[id].servers == states[i].master.servers
  {
    if i > 0 {
      Convergence(states, events, i - 1);
      assert states[(i - 1) + 1] == Step(states[i - 1], events[i - 1]);
      StepKeeps(states[i - 1], events[i - 1]);
    }
    var c := states[i];
    forall id | id in c.master.listeners && c.master.channels[id] == []
      ensures c.tables[id].servers == c.master.servers
    {
      assert Converges(c, id);
    }
  }

  // Nothing has been sent to a connected monitor that does not listen, if no second process under its id has left:
  // such a monitor may subscribe.
  lemma {:induction false} NothingToldBefore(states: seq<Cluster>, events: seq<Event>, i: nat, id: string)
    requires Run(states, events) && i < |states|
    requires forall j :: 0 <= j < i ==> events[j] != Leave(id)
    ensures id in states[i].master.channels && id !in states[i].master.listeners ==> Untold(states[i], id)
  {
    if i > 0 {
      NothingToldBefore(states, events, i - 1, id);
      assert states[(i - 1) + 1] == Step(states[i - 1], events[i - 1]);
    }
  }

  /* ---------- a second process leaves ---------- */

  // The monitor does not listen any more, and will have these servers after what is on the way to it.
  ghost predicate CutOff(c: Cluster, id: string, servers: map<string, Server>) {
    && id in c.master.channels && id in c.tables && id !in c.master.listeners
    && servers != map[] && After(c.tables[id].servers, c.master.channels[id]) == servers
  }

  // Nothing reaches it until it disconnects.
  lemma CutOffStays(c: Cluster, e: Event, id: string, servers: map<string, Server>)
    requires CutOff(c, id, servers) && Enabled(c, e) && (e.Disconnect? && e.id == id ==> e.kind == "client")
    ensures CutOff(Step(c, e), id, servers)
  {
    if e == Deliver(id) {
      HandleServers(c.tables[id], c.master.channels[id][0]);
      AfterDeliver(c.tables[id].servers, c.master.channels[id]);
    }
  }

  lemma {:induction false} CutOffUntilDisconnect(states: seq<Cluster>, events: seq<Event>, i: nat, j: nat, id: string,
                                                 servers: map<string, Server>)
    requires Run(states, events) && i <= j < |states| && CutOff(states[i], id, servers)
    requires forall k :: i <= k < j && events[k].Disconnect? && events[k].id == id ==> events[k].kind == "client"
    ensures CutOff(states[j], id, servers)
  {
    if i < j {
      CutOffUntilDisconnect(states, events, i, j - 1, id, servers);
      assert states[(j - 1) + 1] == Step(states[j - 1], events[j - 1]);
      CutOffStays(states[j - 1], events[j - 1], id, servers);
    }
  }

  // When a second process leaves, the first, which is connected still, is left with the servers of that moment until
  // it disconnects, whatever happens. It still agreed with the master only if that had no server under the id.
  lemma LeaveCutsOff(states: seq<Cluster>, events: seq<Event>, i: nat, j: nat, id: string)
    requires Run(states, events) && i < j < |states| && events[i] == Leave(id) && id != ""
    requires id in states[i].master.listeners && states[i].master.servers != map[]
    requires forall k :: i < k < j && events[k].Disconnect? && events[k].id == id ==> events[k].kind == "client"
    ensures CutOff(states[j], id, states[i].master.servers)
    ensures states[i + 1].master.servers == states[i].master.servers <==> id !in states[i].master.servers
  {
    var c, servers := states[i], states[i].master.servers;
    Convergence(states, events, i);
    assert Converges(c, id);
    assert states[i + 1] == Step(c, Leave(id));
    if id !in servers {
      assert servers - {id} == servers;
    }
    CutOffUntilDisconnect(states, events, i + 1, j, id, servers);
  }

  /* ---------- where convergence needs its conditions ---------- */

  // The answer to a subscription only adds: it converges exactly when the table has no server that is gone.
  lemma SubscribeExactly(table: map<string, Server>, msgs: seq<Message>, servers: map<string, Server>,
                         entries: seq<Server>)
    requires Enumerates(entries, servers)
    ensures After(table, msgs + [Subscribed(entries)]) == servers <==> After(table, msgs).Keys <= servers.Keys
  {
    AfterSend(table, msgs, Subscribed(entries));
    MapOfUnique(entries, servers);
    var t := After(table, msgs);
    assert (t + servers).Keys == t.Keys + servers.Keys;
    if t.Keys <= servers.Keys {
      assert t + servers == servers;
    }
  }

  // A server that reconnects under a record that the master still has in another form is kept there in
  // the old form and announced in the new one.
  lemma ReconnectExactly(m: Master, table: map<string, Server>, msgs: seq<Message>, server: Server)
    requires After(table, msgs) == m.servers
    ensures After(table, msgs + [AddServer(server)]) == Kept(m.servers, server)
       <==> (server.id in m.servers ==> m.servers[server.id] == server)
  {
    AfterSend(table, msgs, AddServer(server));
  }

  /* ---------- agreement of the lists of types ---------- */

  // The tables after all these messages.
  function Final(t: Tables, msgs: seq<Message>): Tables {
    if msgs == [] then t else Handle(Final(t, msgs[..|msgs| - 1]), msgs[|msgs| - 1])
  }

  // The tables agree now and after every one of these messages.
  ghost predicate Throughout(t: Tables, msgs: seq<Message>) {
    Agree(Final(t, msgs)) && (msgs != [] ==> Throughout(t, msgs[..|msgs| - 1]))
  }

  // The tables of every monitor agree, and will when what is on the way to it arrives.
  ghost predicate AllAgree(c: Cluster) {
    forall id :: id in c.tables ==>
      if id in c.master.channels then Throughout(c.tables[id], c.master.channels[id]) else Agree(c.tables[id])
  }

  lemma {:induction false} FinalServers(t: Tables, msgs: seq<Message>)
    ensures Final(t, msgs).servers == After(t.servers, msgs)
  {
    if msgs != [] {
      FinalServers(t, msgs[..|msgs| - 1]);
      HandleServers(Final(t, msgs[..|msgs| - 1]), msgs[|msgs| - 1]);
    }
  }

  lemma {:induction false} FinalDeliver(t: Tables, msgs: seq<Message>)
    requires msgs != []
    ensures Final(Handle(t, msgs[0]), msgs[1..]) == Final(t, msgs)
  {
    var n := |msgs| - 1;
    if n > 0 {
      FinalDeliver(t, msgs[..n]);
      assert msgs[..n][1..] == msgs[1..][..n - 1];
    }
  }

  lemma {:induction false} ThroughoutDeliver(t: Tables, msgs: seq<Message>)
    requires msgs != [] && Throughout(t, msgs)
    ensures Throughout(Handle(t, msgs[0]), msgs[1..])
  {
    hide Agree;
    var n := |msgs| - 1;
    FinalDeliver(t, msgs);
    if n > 0 {
      ThroughoutDeliver(t, msgs[..n]);
      assert msgs[..n][1..] == msgs[1..][..n - 1];
    }
  }

  lemma {:induction false} ThroughoutNow(t: Tables, msgs: seq<Message>)
    requires Throughout(t, msgs)
    ensures Agree(t)
  {
    hide Agree;
    if msgs != [] {
      ThroughoutNow(t, msgs[..|msgs| - 1]);
    }
  }

  lemma ThroughoutSend(t: Tables, msgs: seq<Message>, msg: Message)
    requires Throughout(t, msgs)
    ensures Throughout(t, msgs + [msg]) <==> Agree(Handle(Final(t, msgs), msg))
  {
    hide Agree, Handle;
    assert (msgs + [msg])[..|msgs|] == msgs;
  }

  // No id of the message has another type in the table.
  ghost predicate Fits(servers: map<string, Server>, msg: Message) {
    match msg
    case AddServer(server) => server.id in servers ==> servers[server.id].serverType == server.serverType
    case ReplaceServer(entries) => DistinctIds(entries)
    case Subscribed(entries) =>
      && DistinctIds(entries)
      && forall s :: s in entries && s.id in servers ==> servers[s.id].serverType == s.serverType
    case _ => true
  }

  lemma HandleAgrees(t: Tables, msg: Message)
    requires Agree(t) && Fits(t.servers, msg)
    ensures Agree(Handle(t, msg))
  {
    hide Agree;
    match msg {
      case AddServer(server) =>
        AddAllAgrees(t, [server]);
      case RemoveServer(id) =>
        assert RemoveAll(t, [id]) == RemoveOne(t, id);
        RemoveAgrees(t, id);
      case ReplaceServer(entries) =>
        MapOfEntries(entries);
        ReplaceAgrees(entries, MapOf(entries));
      case Subscribed(entries) =>
        AddAllAgrees(t, entries);
      case StartOver =>
    }
  }

  // A message that fits the servers that the monitor will have keeps the agreement.
  lemma SentAgrees(t: Tables, msgs: seq<Message>, msg: Message)
    requires Throughout(t, msgs) && Fits(After(t.servers, msgs), msg)
    ensures Throughout(t, msgs + [msg])
  {
    hide Agree, Handle, Fits, After;
    FinalServers(t, msgs);
    HandleAgrees(Final(t, msgs), msg);
    ThroughoutSend(t, msgs, msg);
  }

  lemma SentToAllAgrees(c: Cluster, i: string, msg: Message)
    requires Inv(c) && AllAgree(c) && i in c.master.listeners && Fits(c.master.servers, msg)
    ensures Throughout(c.tables[i], c.master.channels[i] + [msg])
  {
    hide Throughout, Fits, After;
    assert Converges(c, i);
    SentAgrees(c.tables[i], c.master.channels[i], msg);
  }

  // A second process under a connected id has the type of the first.
  ghost predicate SameType(c: Cluster, e: Event) {
    e.Duplicate? && Watched(e.server) && e.server.id in c.master.servers ==>
      c.master.servers[e.server.id].serverType == e.server.serverType
  }

  lemma AnnouncedAgrees(c: Cluster, server: Server)
    requires Inv(c) && AllAgree(c)
    requires server.id in c.master.servers ==> c.master.servers[server.id].serverType == server.serverType
    ensures forall i :: i in c.master.listeners ==> Throughout(c.tables[i], c.master.channels[i] + [AddServer(server)])
  {
    assert forall i :: i in c.master.listeners ==> Converges(c, i);
    hide Throughout, AllAgree, After;
    forall i | i in c.master.listeners
      ensures Throughout(c.tables[i], c.master.channels[i] + [AddServer(server)])
    {
      SentToAllAgrees(c, i, AddServer(server));
    }
  }

  lemma SubscribeAgrees(c: Cluster, id: string, entries: seq<Server>)
    requires Inv(c) && AllAgree(c) && Enabled(c, Subscribe(id, entries))
    ensures AllAgree(Step(c, Subscribe(id, entries)))
  {
    hide Throughout, Agree, After;
    var t, msgs := c.tables[id], c.master.channels[id];
    if id in c.master.listeners {
      assert Converges(c, id);
      SentAgrees(t, msgs, Subscribed(entries));
    } else {
      assert Untold(c, id);
      NothingYet(t.servers);
      SentAgrees(t, msgs, Subscribed(entries));
    }
  }

  lemma NothingYet(servers: map<string, Server>)
    ensures After(servers, []) == servers
  {}

  lemma LeaveAgrees(c: Cluster, id: string)
    requires Inv(c) && AllAgree(c)
    ensures AllAgree(Step(c, Leave(id)))
  {
    hide Throughout, Agree, After;
    forall i | i in c.master.listeners
      ensures Throughout(c.tables[i], c.master.channels[i] + [RemoveServer(id)])
    {
      SentToAllAgrees(c, i, RemoveServer(id));
    }
  }

  lemma DisconnectAgrees(c: Cluster, id: string, kind: string)
    requires Inv(c) && AllAgree(c) && Enabled(c, Disconnect(id, kind))
    ensures AllAgree(Step(c, Disconnect(id, kind)))
  {
    hide Throughout, Agree, After;
    forall i | i in c.master.listeners
      ensures Throughout(c.tables[i], c.master.channels[i] + [RemoveServer(id)])
    {
      SentToAllAgrees(c, i, RemoveServer(id));
    }
    if id in c.tables && id in c.master.channels {
      ThroughoutNow(c.tables[id], c.master.channels[id]);
    }
  }

  lemma ReconnectAgrees(c: Cluster, server: Server, entries: seq<Server>)
    requires Inv(c) && AllAgree(c) && Enabled(c, Reconnect(server, entries))
    ensures AllAgree(Step(c, Reconnect(server, entries)))
  {
    hide Throughout, Agree, After;
    AnnouncedAgrees(c, server);
    ReplacedAgrees(c.tables[server.id], entries);
    assert [] + [ReplaceServer(entries)] == [ReplaceServer(entries)];
  }

  lemma ReplacedAgrees(t: Tables, entries: seq<Server>)
    requires Agree(t) && DistinctIds(entries)
    ensures Throughout(t, [ReplaceServer(entries)])
  {
    ThroughoutSend(t, [], ReplaceServer(entries));
    HandleAgrees(t, ReplaceServer(entries));
    assert [] + [ReplaceServer(entries)] == [ReplaceServer(entries)];
  }

  lemma RegisterAgrees(c: Cluster, server: Server)
    requires Inv(c) && AllAgree(c) && Enabled(c, Register(server))
    ensures AllAgree(Step(c, Register(server)))
  {
    AnnouncedAgrees(c, server);
    EmptyAgrees();
    hide Throughout, Agree, After;
  }

  lemma DuplicateAgrees(c: Cluster, server: Server)
    requires Inv(c) && AllAgree(c) && Enabled(c, Duplicate(server)) && SameType(c, Duplicate(server))
    ensures AllAgree(Step(c, Duplicate(server)))
  {
    hide Throughout, Agree, After;
    if Watched(server) {
      AnnouncedAgrees(c, server);
    }
  }

  lemma StartAgrees(c: Cluster)
    requires Inv(c) && AllAgree(c)
    ensures AllAgree(Step(c, Start))
  {
    hide Throughout, Agree, After;
    forall i | i in c.master.listeners
      ensures Throughout(c.tables[i], c.master.channels[i] + [StartOver])
    {
      SentToAllAgrees(c, i, StartOver);
    }
  }

  lemma DeliverAgrees(c: Cluster, id: string)
    requires AllAgree(c) && Enabled(c, Deliver(id))
    ensures AllAgree(Step(c, Deliver(id)))
  {
    hide Throughout, Agree, Handle;
    ThroughoutDeliver(c.tables[id], c.master.channels[id]);
  }

  lemma StepAgrees(c: Cluster, e: Event)
    requires Inv(c) && AllAgree(c) && Enabled(c, e) && SameType(c, e)
    ensures AllAgree(Step(c, e))
  {
    hide AllAgree, Inv, Step, Enabled, SameType;
    match e {
      case Register(server) => RegisterAgrees(c, server);
      case Subscribe(id, entries) => SubscribeAgrees(c, id, entries);
      case Duplicate(server) => DuplicateAgrees(c, server);
      case Leave(id) => LeaveAgrees(c, id);
      case Disconnect(id, kind) => DisconnectAgrees(c, id, kind);
      case Reconnect(server, entries) => ReconnectAgrees(c, server, entries);
      case Start => StartAgrees(c);
      case Deliver(id) => DeliverAgrees(c, id);
    }
  }

  lemma EmptyAgrees()
    ensures Throughout(EMPTY, [])
  {}

  // In every state of every run the tables of every monitor agree, if a second process under a connected id has
  // the type of the first; an id that comes back may have another type.
  lemma {:induction false} Agreement(states: seq<Cluster>, events: seq<Event>, i: nat)
    requires Run(states, events) && i < |states|
    requires forall j :: 0 <= j < |events| ==> SameType(states[j], events[j])
    ensures AllAgree(states[i]) && forall id :: id in states[i].tables ==> Agree(states[i].tables[id])
  {
    hide Throughout, Agree, Enabled, Step;
    if i > 0 {
      Agreement(states, events, i - 1);
      Convergence(states, events, i - 1);
      assert states[(i - 1) + 1] == Step(states[i - 1], events[i - 1]);
      StepAgrees(states[i - 1], events[i - 1]);
    }
    var c := states[i];
    forall id | id in c.tables
      ensures Agree(c.tables[id])
    {
      if id in c.master.channels {
        ThroughoutNow(c.tables[id], c.master.channels[id]);
      }
    }
  }

  // When somebody listens, a second process with another type than the first breaks the agreement.
  lemma DuplicateExactly(c: Cluster, server: Server, listener: string)
    requires Inv(c) && AllAgree(c) && Enabled(c, Duplicate(server)) && Watched(server)
    requires server.id in c.master.servers && listener in c.master.listeners
    ensures AllAgree(Step(c, Duplicate(server))) <==> SameType(c, Duplicate(server))
  {
    hide Agree, After;
    if SameType(c, Duplicate(server)) {
      StepAgrees(c, Duplicate(server));
    } else {
      var t, msgs := c.tables[listener], c.master.channels[listener];
      assert Converges(c, listener);
      FinalServers(t, msgs);
      ThroughoutSend(t, msgs, AddServer(server));
      AddAgrees(Final(t, msgs), server);
      OneAdded(Final(t, msgs), server);
    }
  }

  lemma OneAdded(t: Tables, server: Server)
    ensures Handle(t, AddServer(server)) == AddAll(t, [server]) == AddOne(t, server)
  {
    assert [server][..0] == [];
    assert AddAll(t, []) == t;
  }

  // The run in which it happens: a listening server, and a second process under its id with another type.
  const FIRST := Server("a", "monitor", "chat", "x")
  const SECOND := Server("a", "monitor", "gate", "y")
  const TOLD := Tables(map["a" := FIRST], map["chat" := [FIRST]], ["chat"])

  lemma FirstListens() returns (c1: Cluster, c2: Cluster, c3: Cluster)
    ensures Enabled(START, Register(FIRST)) && c1 == Step(START, Register(FIRST))
    ensures Enabled(c1, Subscribe("a", [FIRST])) && c2 == Step(c1, Subscribe("a", [FIRST]))
    ensures Enabled(c2, Deliver("a")) && c3 == Step(c2, Deliver("a"))
    ensures c3 == Cluster(Master(map["a" := FIRST], {"a"}, map["a" := []]), map["a" := TOLD])
  {
    c1 := Cluster(Master(map["a" := FIRST], {}, map["a" := []]), map["a" := EMPTY]);
    assert c1.master.channels["a"] + [Subscribed([FIRST])] == [Subscribed([FIRST])];
    c2 := Cluster(Master(map["a" := FIRST], {"a"}, map["a" := [Subscribed([FIRST])]]), map["a" := EMPTY]);
    OneAdded(EMPTY, FIRST);
    assert AddOne(EMPTY, FIRST) == TOLD;
    assert [Subscribed([FIRST])][1..] == [];
    c3 := Step(c2, Deliver("a"));
  }

  lemma SecondAnnounced(c3: Cluster) returns (c4: Cluster, c5: Cluster)
    requires c3 == Cluster(Master(map["a" := FIRST], {"a"}, map["a" := []]), map["a" := TOLD])
    ensures Enabled(c3, Duplicate(SECOND)) && c4 == Step(c3, Duplicate(SECOND))
    ensures Enabled(c4, Deliver("a")) && c5 == Step(c4, Deliver("a"))
    ensures "a" in c5.tables && !Agree(c5.tables["a"])
  {
    assert c3.master.channels["a"] + [AddServer(SECOND)] == [AddServer(SECOND)];
    c4 := Cluster(Master(map["a" := SECOND], {"a"}, map["a" := [AddServer(SECOND)]]), map["a" := TOLD]);
    OneAdded(TOLD, SECOND);
    c5 := Step(c4, Deliver("a"));
    assert FIRST in AddOne(TOLD, SECOND).typeMaps["chat"];
  }

  lemma SecondProcessDisagrees() returns (states: seq<Cluster>, events: seq<Event>)
    ensures Run(states, events) && |states| == 6 && "a" in states[5].tables && !Agree(states[5].tables["a"])
  {
    var c1, c2, c3 := FirstListens();
    var c4, c5 := SecondAnnounced(c3);
    hide Agree, Enabled, Step;
    states := [START, c1, c2, c3, c4, c5];
    events := [Register(FIRST), Subscribe("a", [FIRST]), Deliver("a"), Duplicate(SECOND), Deliver("a")];
  }
}
