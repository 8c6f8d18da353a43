/**
The server tables of an application: the servers by id, the servers of each type, and the types.
*/
module Applications {

  datatype Server = Server(id: string, kind: string, serverType: string, address: string)

  datatype Tables = Tables(servers: map<string, Server>, typeMaps: map<string, seq<Server>>, types: seq<string>)

  const EMPTY := Tables(map[], map[], [])

  predicate DistinctIds(list: seq<Server>) {
    forall i, j :: 0 <= i < j < |list| ==> list[i].id != list[j].id
  }

  // Every server is in the list of its type.
  ghost predicate EachListed(t: Tables) {
    forall id :: id in t.servers ==>
      && t.servers[id].id == id && t.servers[id].serverType in t.typeMaps
      && t.servers[id] in t.typeMaps[t.servers[id].serverType]
  }

  // The lists hold nothing else, and nothing twice.
  ghost predicate NoneElse(t: Tables) {
    forall ty :: ty in t.typeMaps ==>
      && DistinctIds(t.typeMaps[ty])
      && forall s :: s in t.typeMaps[ty] ==> s.serverType == ty && s.id in t.servers && t.servers[s.id] == s
  }

  // The types are those that have a list.
  ghost predicate TypesListed(t: Tables) {
    && (forall ty :: ty in t.typeMaps <==> ty in t.types)
    && (forall i, j :: 0 <= i < j < |t.types| ==> t.types[i] != t.types[j])
  }

  ghost predicate Agree(t: Tables) {
    EachListed(t) && NoneElse(t) && TypesListed(t)
  }

  // In tables that agree, the list of a type holds the servers of this type and no others, each once.
  lemma ListsByType(t: Tables, ty: string)
    requires Agree(t)
    ensures forall s :: s in ListOf(t, ty) <==> s.serverType == ty && s.id in t.servers && t.servers[s.id] == s
    ensures DistinctIds(ListOf(t, ty))
    ensures ty in t.types <==> ty in t.typeMaps
    ensures forall i, j :: 0 <= i < |t.types| && 0 <= j < |t.types| && t.types[i] == t.types[j] ==> i == j
  {
    forall s: Server | s.serverType == ty && s.id in t.servers && t.servers[s.id] == s
      ensures s in ListOf(t, ty)
    {
      assert t.servers[s.id].serverType in t.typeMaps;
    }
  }

  /* ---------- one list ---------- */

  // The first entry with the id of s becomes s; without one, s goes to the end.
  function ReplaceIn(list: seq<Server>, s: Server): seq<Server> {
    if list == [] then [s]
    else if list[0].id == s.id then [s] + list[1..]
    else [list[0]] + ReplaceIn(list[1..], s)
  }

  // Without the first entry with this id.
  function RemoveIn(list: seq<Server>, id: string): seq<Server> {
    if list == [] then []
    else if list[0].id == id then list[1..]
    else [list[0]] + RemoveIn(list[1..], id)
  }

  function ListOf(t: Tables, ty: string): seq<Server> {
    if ty in t.typeMaps then t.typeMaps[ty] else []
  }

  lemma {:induction false} ReplaceInMembers(list: seq<Server>, s: Server)
    requires DistinctIds(list)
    ensures DistinctIds(ReplaceIn(list, s))
    ensures forall r :: r in ReplaceIn(list, s) <==> r == s || (r in list && r.id != s.id)
  {
    if list != [] {
      var rest := list[1..];
      if list[0].id == s.id {
        assert forall r :: r in rest ==> r.id != s.id;
        assert list == [list[0]] + rest;
      } else {
        ReplaceInMembers(rest, s);
        assert forall r :: r in rest ==> r.id != list[0].id;
        assert list == [list[0]] + rest;
      }
    }
  }

  lemma {:induction false} RemoveInMembers(list: seq<Server>, id: string)
    requires DistinctIds(list)
    ensures DistinctIds(RemoveIn(list, id))
    ensures forall r :: r in RemoveIn(list, id) <==> r in list && r.id != id
  {
    if list != [] {
      var rest := list[1..];
      if list[0].id == id {
        assert forall r :: r in rest ==> r.id != id;
        assert list == [list[0]] + rest;
      } else {
        RemoveInMembers(rest, id);
        assert forall r :: r in rest ==> r.id != list[0].id;
        assert list == [list[0]] + rest;
      }
    }
  }

  /* ---------- the tables ---------- */

  function AddType(types: seq<string>, ty: string): seq<string> {
    if ty in types then types else types + [ty]
  }

  function AddOne(t: Tables, s: Server): Tables {
    Tables(t.servers[s.id := s],
           t.typeMaps[s.serverType := ReplaceIn(ListOf(t, s.serverType), s)],
           AddType(t.types, s.serverType))
  }

  function RemoveOne(t: Tables, id: string): Tables {
    if id !in t.servers then t
    else
      var ty := t.servers[id].serverType;
      t.(servers := t.servers - {id},
         typeMaps := if ty in t.typeMaps then t.typeMaps[ty := RemoveIn(t.typeMaps[ty], id)] else t.typeMaps)
  }

  function AddAll(t: Tables, list: seq<Server>): Tables {
    if list == [] then t else AddOne(AddAll(t, list[..|list| - 1]), list[|list| - 1])
  }

  function RemoveAll(t: Tables, ids: seq<string>): Tables {
    if ids == [] then t else RemoveOne(RemoveAll(t, ids[..|ids| - 1]), ids[|ids| - 1])
  }

  // The lists are built anew by pushing each server.
  function PushOne(t: Tables, s: Server): Tables {
    Tables(t.servers,
           t.typeMaps[s.serverType := ListOf(t, s.serverType) + [s]],
           AddType(t.types, s.serverType))
  }

  function PushAll(servers: map<string, Server>, list: seq<Server>): Tables {
    if list == [] then Tables(servers, map[], [])
    else PushOne(PushAll(servers, list[..|list| - 1]), list[|list| - 1])
  }

  // The list holds every entry of the map once.
  ghost predicate Enumerates(list: seq<Server>, servers: map<string, Server>) {
    && DistinctIds(list)
    && (forall s :: s in list ==> s.id in servers && servers[s.id] == s)
    && (forall id :: id in servers ==> servers[id] in list && servers[id].id == id)
  }

  function MapOf(list: seq<Server>): map<string, Server> {
    if list == [] then map[] else MapOf(list[..|list| - 1])[list[|list| - 1].id := list[|list| - 1]]
  }

  function ReplaceAll(list: seq<Server>): Tables {
    PushAll(MapOf(list), list)
  }

  /* ---------- agreement ---------- */

  lemma AddTypes(t: Tables, s: Server)
    requires TypesListed(t)
    ensures TypesListed(AddOne(t, s)) && TypesListed(PushOne(t, s))
  {}

  lemma AddListed(t: Tables, s: Server)
    requires EachListed(t) && NoneElse(t)
    ensures EachListed(AddOne(t, s))
  {
    ReplaceInMembers(ListOf(t, s.serverType), s);
    hide ReplaceIn, AddType, DistinctIds;
  }

  lemma AddNoneElse(t: Tables, s: Server)
    requires NoneElse(t) && (s.id in t.servers ==> t.servers[s.id].serverType == s.serverType)
    ensures NoneElse(AddOne(t, s))
  {
    ReplaceInMembers(ListOf(t, s.serverType), s);
    hide ReplaceIn, AddType, DistinctIds;
  }

  // Adding a server keeps the tables in agreement exactly when its id does not change its type.
  lemma AddAgrees(t: Tables, s: Server)
    requires Agree(t)
    ensures Agree(AddOne(t, s)) <==> (s.id in t.servers ==> t.servers[s.id].serverType == s.serverType)
  {
    AddTypes(t, s);
    AddListed(t, s);
    if s.id in t.servers && t.servers[s.id].serverType != s.serverType {
      var before := t.servers[s.id];
      assert before in AddOne(t, s).typeMaps[before.serverType];
    } else {
      AddNoneElse(t, s);
    }
  }

  lemma RemoveAgrees(t: Tables, id: string)
    requires Agree(t)
    ensures Agree(RemoveOne(t, id))
  {
    if id in t.servers {
      RemoveInMembers(t.typeMaps[t.servers[id].serverType], id);
      hide RemoveIn, DistinctIds;
    }
  }

  /* ---------- building the tables anew ---------- */

  lemma {:induction false} MapOfEntries(list: seq<Server>)
    requires DistinctIds(list)
    ensures Enumerates(list, MapOf(list))
  {
    if list != [] {
      var n := |list| - 1;
      MapOfEntries(list[..n]);
      assert list == list[..n] + [list[n]];
    }
  }

  lemma MapOfUnique(list: seq<Server>, servers: map<string, Server>)
    requires Enumerates(list, servers)
    ensures MapOf(list) == servers
  {
    MapOfEntries(list);
  }

  // The lists hold the servers pushed so far, in agreement with what the map will say.
  lemma {:induction false} PushedAgree(list: seq<Server>)
    requires DistinctIds(list)
    ensures Agree(PushAll(MapOf(list), list))
  {
    if list != [] {
      var n := |list| - 1;
      var before, s := list[..n], list[n];
      PushedAgree(before);
      SamePushes(MapOf(before), MapOf(list), before);
      MapOfEntries(before);
      PushAgrees(PushAll(MapOf(before), before), s);
    }
  }

  // Pushing does not look at the map.
  lemma {:induction false} SamePushes(a: map<string, Server>, b: map<string, Server>, list: seq<Server>)
    ensures PushAll(a, list).(servers := b) == PushAll(b, list) && PushAll(a, list).servers == a
  {
    if list != [] {
      SamePushes(a, b, list[..|list| - 1]);
    }
  }

  lemma {:induction false} ReplaceInAbsent(list: seq<Server>, s: Server)
    requires forall r :: r in list ==> r.id != s.id
    ensures ReplaceIn(list, s) == list + [s]
  {
    if list != [] {
      assert list == [list[0]] + list[1..];
      ReplaceInAbsent(list[1..], s);
    }
  }

  lemma PushAgrees(t: Tables, s: Server)
    requires Agree(t) && s.id !in t.servers
    ensures Agree(PushOne(t.(servers := t.servers[s.id := s]), s))
  {
    ReplaceInAbsent(ListOf(t, s.serverType), s);
    assert PushOne(t.(servers := t.servers[s.id := s]), s) == AddOne(t, s);
    AddAgrees(t, s);
  }

  // Whatever the tables were, replacing them brings them into agreement.
  lemma ReplaceAgrees(list: seq<Server>, servers: map<string, Server>)
    requires Enumerates(list, servers)
    ensures Agree(ReplaceAll(list)) && ReplaceAll(list).servers == servers
  {
    PushedAgree(list);
    MapOfUnique(list, servers);
    SamePushes(servers, servers, list);
  }

  lemma {:induction false} AddAllServers(t: Tables, list: seq<Server>)
    ensures AddAll(t, list).servers == t.servers + MapOf(list)
  {
    if list != [] {
      AddAllServers(t, list[..|list| - 1]);
    }
  }

  // Adding a list keeps the agreement if no id of it changes its type.
  lemma {:induction false} AddAllAgrees(t: Tables, list: seq<Server>)
    requires Agree(t) && DistinctIds(list)
    requires forall s :: s in list && s.id in t.servers ==> t.servers[s.id].serverType == s.serverType
    ensures Agree(AddAll(t, list))
  {
    if list != [] {
      var n := |list| - 1;
      AddAllAgrees(t, list[..n]);
      AddAllServers(t, list[..n]);
      MapOfEntries(list[..n]);
      assert list[n] in list;
      AddAgrees(AddAll(t, list[..n]), list[n]);
    }
  }

  /* ---------- the application ---------- */

  lemma ReplaceFrom(list: seq<Server>, i: nat, s: Server)
    requires i < |list|
    ensures ReplaceIn(list[i..], s) ==
            if list[i].id == s.id then [s] + list[i + 1..] else [list[i]] + ReplaceIn(list[i + 1..], s)
  {
    assert list[i..][1..] == list[i + 1..];
  }

  lemma UpdateParts(list: seq<Server>, i: nat, s: Server)
    requires i < |list|
    ensures list[i := s] == list[..i] + ([s] + list[i + 1..])
  {}

  lemma TakeOneMore(list: seq<Server>, i: nat, rest: seq<Server>)
    requires i < |list|
    ensures list[..i] + ([list[i]] + rest) == list[..i + 1] + rest
  {}

  // What the loop knows of the first i entries, one entry later.
  lemma ReplaceAt(list: seq<Server>, i: nat, s: Server)
    requires i < |list| && ReplaceIn(list, s) == list[..i] + ReplaceIn(list[i..], s)
    ensures list[i].id == s.id ==> ReplaceIn(list, s) == list[i := s]
    ensures list[i].id != s.id ==> ReplaceIn(list, s) == list[..i + 1] + ReplaceIn(list[i + 1..], s)
  {
    hide ReplaceIn;
    ReplaceFrom(list, i, s);
    UpdateParts(list, i, s);
    TakeOneMore(list, i, ReplaceIn(list[i + 1..], s));
  }

  method ReplaceServer(slist: seq<Server>, serverInfo: Server) returns (r: seq<Server>)
    ensures r == ReplaceIn(slist, serverInfo)
  {
    r := slist;
    var i := 0;
    while i < |r|
      invariant 0 <= i <= |r| && r == slist
      invariant ReplaceIn(slist, serverInfo) == slist[..i] + ReplaceIn(slist[i..], serverInfo)
    {
      hide ReplaceIn;
      ReplaceAt(slist, i, serverInfo);
      if r[i].id == serverInfo.id {
        r := r[i := serverInfo];
        return;
      }
      i := i + 1;
    }
    assert slist[..i] == slist && slist[i..] == [];
    r := r + [serverInfo];
  }

  method RemoveServer(slist: seq<Server>, id: string) returns (r: seq<Server>)
    ensures r == RemoveIn(slist, id)
  {
    r := slist;
    var i := 0;
    while i < |r|
      invariant 0 <= i <= |r| && r == slist
      invariant RemoveIn(slist, id) == slist[..i] + RemoveIn(slist[i..], id)
    {
      assert slist[..i + 1] == slist[..i] + [slist[i]] && slist[i..][1..] == slist[i + 1..];
      if r[i].id == id {
        r := r[..i] + r[i + 1..];
        return;
      }
      i := i + 1;
    }
  }

  class Application {
    var servers: map<string, Server>
    var serverTypeMaps: map<string, seq<Server>>
    var serverTypes: seq<string>

    ghost function State(): Tables
      reads this
    {
      Tables(servers, serverTypeMaps, serverTypes)
    }

    constructor ()
      ensures State() == EMPTY
    {
      servers, serverTypeMaps, serverTypes := map[], map[], [];
    }

    method AddServers(items: seq<Server>)
      modifies this
      ensures State() == AddAll(old(State()), items)
    {
      if |items| == 0 {
        return;
      }
      assert items[..0] == [];
      for i := 0 to |items|
        invariant State() == AddAll(old(State()), items[..i])
      {
        assert items[..i + 1][..i] == items[..i];
        var item := items[i];
        servers := servers[item.id := item];
        var slist := if item.serverType in serverTypeMaps then serverTypeMaps[item.serverType] else [];
        slist := ReplaceServer(slist, item);
        serverTypeMaps := serverTypeMaps[item.serverType := slist];
        if item.serverType !in serverTypes {
          serverTypes := serverTypes + [item.serverType];
        }
      }
      assert items[..|items|] == items;
    }

    method RemoveServers(ids: seq<string>)
      modifies this
      ensures State() == RemoveAll(old(State()), ids)
    {
      if |ids| == 0 {
        return;
      }
      assert ids[..0] == [];
      for i := 0 to |ids|
        invariant State() == RemoveAll(old(State()), ids[..i])
      {
        assert ids[..i + 1][..i] == ids[..i];
        var id := ids[i];
        if id in servers {
          var item := servers[id];
          servers := servers - {id};
          if item.serverType in serverTypeMaps {
            var slist := RemoveServer(serverTypeMaps[item.serverType], id);
            serverTypeMaps := serverTypeMaps[item.serverType := slist];
          }
        }
      }
      assert ids[..|ids|] == ids;
    }

    // The entries of the new map, in the order in which they are visited.
    method ReplaceServers(entries: seq<Server>)
      modifies this
      ensures State() == ReplaceAll(entries)
    {
      servers := MapOf(entries);
      serverTypeMaps := map[];
      serverTypes := [];
      assert entries[..0] == [];
      for i := 0 to |entries|
        invariant State() == PushAll(MapOf(entries), entries[..i])
      {
        assert entries[..i + 1][..i] == entries[..i];
        var server := entries[i];
        var slist := if server.serverType in serverTypeMaps then serverTypeMaps[server.serverType] else [];
        serverTypeMaps := serverTypeMaps[server.serverType := slist + [server]];
        if server.serverType !in serverTypes {
          serverTypes := serverTypes + [server.serverType];
        }
      }
      assert entries[..|entries|] == entries;
    }
  }
}
