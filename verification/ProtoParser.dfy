/**
The parsed schema of a message: its fields by name, the name of each tag, and the messages
declared inside it.
*/
module ProtoParsers {

  datatype Field = Field(option: string, kind: string, tag: nat)

  datatype Proto = Proto(fields: map<string, Field>, messages: map<string, Proto>, tags: map<nat, string>)

  // One property of the schema object: its name split at the blanks, and a tag or a nested object.
  datatype Entry = Property(params: seq<string>, tag: nat) | Submessage(params: seq<string>, body: Schema)

  datatype Schema = Schema(entries: seq<Entry>)

  const NO_PROTO := Proto(map[], map[], map[])

  predicate IsField(params: seq<string>) {
    params != [] && (params[0] == "required" || params[0] == "optional" || params[0] == "repeated")
  }

  // A tag counts as taken if its name is not empty.
  predicate Taken(p: Proto, tag: nat) {
    tag in p.tags && p.tags[tag] != ""
  }

  function AddField(p: Proto, params: seq<string>, tag: nat): Proto
    requires IsField(params)
  {
    if |params| != 3 || Taken(p, tag) then p
    else p.(fields := p.fields[params[2] := Field(params[0], params[1], tag)], tags := p.tags[tag := params[2]])
  }

  function AddMessage(p: Proto, params: seq<string>, message: Proto): Proto {
    if |params| != 2 then p else p.(messages := p.messages[params[1] := message])
  }

  function AddEntry(p: Proto, e: Entry): Proto
    decreases e, 0
  {
    match e
    case Property(params, tag) =>
      if IsField(params) then AddField(p, params, tag)
      else if params != [] && params[0] == "message" then AddMessage(p, params, NO_PROTO)
      else p
    case Submessage(params, body) =>
      if params != [] && params[0] == "message" then AddMessage(p, params, Parsed(body.entries)) else p
  }

  function Parsed(entries: seq<Entry>): Proto
    decreases entries
  {
    if entries == [] then NO_PROTO
    else AddEntry(Parsed(entries[..|entries| - 1]), entries[|entries| - 1])
  }

  // The tag of every field leads back to its name, here and in the messages inside.
  ghost predicate Indexed(p: Proto) {
    && (forall n :: n in p.fields && n != "" ==> p.fields[n].tag in p.tags && p.tags[p.fields[n].tag] == n)
    && (forall n :: n in p.fields ==>
          p.fields[n].option == "required" || p.fields[n].option == "optional" || p.fields[n].option == "repeated")
    && (forall k :: k in p.messages ==> Indexed(p.messages[k]))
  }

  lemma {:induction false} ParsedIndexed(entries: seq<Entry>)
    ensures Indexed(Parsed(entries))
    decreases entries
  {
    if entries != [] {
      var n := |entries| - 1;
      var p, e := Parsed(entries[..n]), entries[n];
      ParsedIndexed(entries[..n]);
      match e {
        case Property(params, tag) =>
          if IsField(params) {
            AddFieldIndexed(p, params, tag);
          } else {
            assert Indexed(NO_PROTO);
          }
        case Submessage(params, body) =>
          ParsedIndexed(body.entries);
      }
    }
  }

  lemma AddFieldIndexed(p: Proto, params: seq<string>, tag: nat)
    requires Indexed(p) && IsField(params)
    ensures Indexed(AddField(p, params, tag))
  {}

  // The name or the tag of this entry.
  predicate Clashes(e: Entry, name: string, tag: nat) {
    e.Property? && IsField(e.params) && |e.params| == 3 && (e.params[2] == name || e.tag == tag)
  }

  // A field whose name and tag occur once is kept as it is declared.
  lemma {:induction false} FieldKept(entries: seq<Entry>, i: nat)
    requires i < |entries| && entries[i].Property? && IsField(entries[i].params) && |entries[i].params| == 3
    requires forall j :: 0 <= j < |entries| && j != i ==> !Clashes(entries[j], entries[i].params[2], entries[i].tag)
    ensures var params := entries[i].params;
            && params[2] in Parsed(entries).fields
            && Parsed(entries).fields[params[2]] == Field(params[0], params[1], entries[i].tag)
    decreases entries
  {
    var n := |entries| - 1;
    if i < n {
      FieldKept(entries[..n], i);
    } else {
      NotTaken(entries[..n], entries[i].params[2], entries[i].tag);
    }
  }

  lemma {:induction false} NotTaken(entries: seq<Entry>, name: string, tag: nat)
    requires forall j :: 0 <= j < |entries| ==> !Clashes(entries[j], name, tag)
    ensures tag !in Parsed(entries).tags
    decreases entries
  {
    if entries != [] {
      NotTaken(entries[..|entries| - 1], name, tag);
    }
  }

  // Fills the three tables entry by entry, going into nested messages.
  method ParseObject(obj: Schema) returns (proto: Proto)
    ensures proto == Parsed(obj.entries)
    decreases obj
  {
    var fields: map<string, Field> := map[];
    var nestProtos: map<string, Proto> := map[];
    var tags: map<nat, string> := map[];
    assert obj.entries[..0] == [];
    for i := 0 to |obj.entries|
      invariant Proto(fields, nestProtos, tags) == Parsed(obj.entries[..i])
    {
      assert obj.entries[..i + 1][..i] == obj.entries[..i];
      var entry := obj.entries[i];
      var params := entry.params;
      if params == [] {
        continue;
      }
      if params[0] == "message" {
        if |params| != 2 {
          continue;
        }
        var message := NO_PROTO;
        if entry.Submessage? {
          message := ParseObject(entry.body);
        }
        nestProtos := nestProtos[params[1] := message];
      } else if (params[0] == "required" || params[0] == "optional" || params[0] == "repeated") && entry.Property? {
        if |params| != 3 || (entry.tag in tags && tags[entry.tag] != "") {
          continue;
        }
        fields := fields[params[2] := Field(params[0], params[1], entry.tag)];
        tags := tags[entry.tag := params[2]];
      }
    }
    assert obj.entries[..|obj.entries|] == obj.entries;
    proto := Proto(fields, nestProtos, tags);
  }

  function ParsedAll(protos: map<string, Schema>): map<string, Proto> {
    map key | key in protos :: Parsed(protos[key].entries)
  }

  method Parse(protos: map<string, Schema>) returns (maps: map<string, Proto>)
    ensures maps == ParsedAll(protos)
  {
    maps := map[];
    var keys := protos.Keys;
    while keys != {}
      invariant keys <= protos.Keys && maps.Keys == protos.Keys - keys
      invariant forall key :: key in maps ==> maps[key] == Parsed(protos[key].entries)
    {
      var key :| key in keys;
      var proto := ParseObject(protos[key]);
      maps := maps[key := proto];
      keys := keys - {key};
    }
  }
}
