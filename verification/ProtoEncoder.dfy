/**
The encoder: writes a message into a buffer at an offset that it carries along.
*/
module ProtoEncoders {
  import opened Buffers
  import opened Options
  import opened ProtoParsers
  import opened ProtoWires
  import opened Varints

  method WriteUInt(buffer: array<byte>, offset: nat, n: nat) returns (end: nat)
    requires offset + |UIntBytes(n)| <= buffer.Length
    modifies buffer
    ensures end == offset + |UIntBytes(n)| && Wrote(old(buffer[..]), buffer[..], offset, UIntBytes(n))
  {
    var bytes := EncodeUInt32(n);
    end := WriteBytes(buffer, offset, bytes.value);
  }

  // The low bits of a head by type; 2 for what is not listed.
  const TYPES: map<string, nat> :=
    map["uInt32" := 0, "sInt32" := 0, "int32" := 0, "double" := 1, "string" := 2, "message" := 2, "float" := 5]

  method EncodeTag(kind: string, tag: nat) returns (bytes: seq<byte>)
    requires tag < TAG_LIMIT
    ensures bytes == TagBytes(kind, tag)
  {
    var value := if kind in TYPES then TYPES[kind] else 2;
    var encoded := EncodeUInt32(tag * 8 + value);
    bytes := encoded.value;
  }

  // The properties in order; room bounds every buffer that is needed for a nested message.
  method EncodeMsg(buffer: array<byte>, offset: nat, p: Proto, g: Globals, msg: seq<Prop>, room: nat) returns (end: nat)
    requires TypedProps(p, g, msg) && offset + |EncProps(p, g, msg)| <= buffer.Length && |EncProps(p, g, msg)| <= room
    modifies buffer
    ensures end == offset + |EncProps(p, g, msg)|
    ensures Wrote(old(buffer[..]), buffer[..], offset, EncProps(p, g, msg))
    decreases msg, 0
  {
    hide EncProp, TypedProp, Wrote;
    end := offset;
    ghost var done: seq<byte> := [];
    WroteNothing(buffer[..], offset);
    for i := 0 to |msg|
      invariant EncProps(p, g, msg) == done + EncProps(p, g, msg[i..])
      invariant end == offset + |done| && Wrote(old(buffer[..]), buffer[..], offset, done)
    {
      ghost var before, s := buffer[..], EncProp(p, g, msg[i]);
      end := EncodeProperty(buffer, end, p, g, msg[i], room);
      WroteThen(old(buffer[..]), before, buffer[..], offset, done, s);
      assert done + (s + EncProps(p, g, msg[i + 1..])) == (done + s) + EncProps(p, g, msg[i + 1..]);
      done := done + s;
    }
    assert done + [] == done;
  }

  // One property: its tag and value, or its array; nothing if the schema does not know it.
  method EncodeProperty(buffer: array<byte>, offset: nat, p: Proto, g: Globals, prop: Prop, room: nat)
    returns (end: nat)
    requires TypedProp(p, g, prop) && offset + |EncProp(p, g, prop)| <= buffer.Length && |EncProp(p, g, prop)| <= room
    modifies buffer
    ensures end == offset + |EncProp(p, g, prop)|
    ensures Wrote(old(buffer[..]), buffer[..], offset, EncProp(p, g, prop))
    decreases prop, 0
  {
    hide Wrote, Enc, EncArray, TagBytes, Typed, TypedItems;
    end := offset;
    WroteNothing(buffer[..], offset);
    if prop.name in p.fields {
      var proto := p.fields[prop.name];
      if proto.option == "repeated" {
        if |prop.value.items| > 0 {
          end := EncodeArray(buffer, offset, p, g, proto, prop.value.items, room);
        }
      } else {
        end := EncodeTagged(buffer, offset, p, g, proto, prop.value, room);
      }
    }
  }

  // A tag and one value.
  method EncodeTagged(buffer: array<byte>, offset: nat, p: Proto, g: Globals, proto: Field, value: Value, room: nat)
    returns (end: nat)
    requires proto.tag < TAG_LIMIT && Typed(p, g, proto.kind, value)
    requires offset + |TagBytes(proto.kind, proto.tag)| + |Enc(p, g, proto.kind, value)| <= buffer.Length
    requires |Enc(p, g, proto.kind, value)| <= room
    modifies buffer
    ensures end == offset + |TagBytes(proto.kind, proto.tag)| + |Enc(p, g, proto.kind, value)|
    ensures Wrote(old(buffer[..]), buffer[..], offset, TagBytes(proto.kind, proto.tag) + Enc(p, g, proto.kind, value))
    decreases value, 1
  {
    hide Wrote, Enc, TagBytes, Typed;
    var tag := EncodeTag(proto.kind, proto.tag);
    end := WriteBytes(buffer, offset, tag);
    ghost var before := buffer[..];
    end := EncodeProp(buffer, end, p, g, proto.kind, value, room);
    WroteThen(old(buffer[..]), before, buffer[..], offset, tag, Enc(p, g, proto.kind, value));
  }

  // A nested message is built in a buffer of its own and copied behind its length.
  method EncodeProp(buffer: array<byte>, offset: nat, p: Proto, g: Globals, kind: string, value: Value, room: nat)
    returns (end: nat)
    requires Typed(p, g, kind, value) && offset + |Enc(p, g, kind, value)| <= buffer.Length
    requires |Enc(p, g, kind, value)| <= room
    modifies buffer
    ensures end == offset + |Enc(p, g, kind, value)|
    ensures Wrote(old(buffer[..]), buffer[..], offset, Enc(p, g, kind, value))
    decreases value, 0
  {
    hide Wrote, EncProps, UIntBytes;
    if kind == "uInt32" {
      end := WriteUInt(buffer, offset, value.n);
    } else if kind == "int32" || kind == "sInt32" {
      var bytes := EncodeSInt32(value.n);
      end := WriteBytes(buffer, offset, bytes.value);
    } else if kind == "float" || kind == "double" {
      end := WriteBytes(buffer, offset, value.bits);
    } else if kind == "string" {
      end := WriteUInt(buffer, offset, |value.utf8|);
      ghost var before := buffer[..];
      end := WriteBytes(buffer, end, value.utf8);
      WroteThen(old(buffer[..]), before, buffer[..], offset, UIntBytes(|value.utf8|), value.utf8);
    } else {
      var found := FindMessage(p, g, kind);
      var message := found.value;
      ghost var body := EncProps(message, g, value.props);
      var tmpBuffer := new byte[room];
      ghost var blank := tmpBuffer[..];
      var length := EncodeMsg(tmpBuffer, 0, message, g, value.props, room);
      FromStart(blank, tmpBuffer[..], body);
      end := WriteUInt(buffer, offset, length);
      ghost var before := buffer[..];
      end := WriteBytes(buffer, end, tmpBuffer[..length]);
      WroteThen(old(buffer[..]), before, buffer[..], offset, UIntBytes(length), body);
    }
  }

  // Packed values share one head and a count; others have a head each.
  method EncodeArray(buffer: array<byte>, offset: nat, p: Proto, g: Globals, proto: Field, items: seq<Value>, room: nat)
    returns (end: nat)
    requires proto.tag < TAG_LIMIT && TypedItems(p, g, proto.kind, items)
    requires offset + |EncArray(p, g, proto, items)| <= buffer.Length && |EncArray(p, g, proto, items)| <= room
    modifies buffer
    ensures end == offset + |EncArray(p, g, proto, items)|
    ensures Wrote(old(buffer[..]), buffer[..], offset, EncArray(p, g, proto, items))
    decreases items, 1
  {
    hide Wrote, TagBytes, EncItems, EncTagged, UIntBytes, TypedItems;
    var simple := IsSimpleType(proto.kind);
    if simple {
      ghost var tagBytes, count := TagBytes(proto.kind, proto.tag), UIntBytes(|items|);
      ghost var packed := EncItems(p, g, proto.kind, items);
      var tag := EncodeTag(proto.kind, proto.tag);
      end := WriteBytes(buffer, offset, tag);
      ghost var first := buffer[..];
      end := WriteUInt(buffer, end, |items|);
      ghost var second := buffer[..];
      end := EncodeItems(buffer, end, p, g, proto.kind, items, room);
      WroteThen(first, second, buffer[..], offset + |tagBytes|, count, packed);
      WroteThen(old(buffer[..]), first, buffer[..], offset, tagBytes, count + packed);
    } else {
      end := EncodeEach(buffer, offset, p, g, proto, items, room);
    }
  }

  method EncodeItems(buffer: array<byte>, offset: nat, p: Proto, g: Globals, kind: string, items: seq<Value>, room: nat)
    returns (end: nat)
    requires TypedItems(p, g, kind, items)
    requires offset + |EncItems(p, g, kind, items)| <= buffer.Length && |EncItems(p, g, kind, items)| <= room
    modifies buffer
    ensures end == offset + |EncItems(p, g, kind, items)|
    ensures Wrote(old(buffer[..]), buffer[..], offset, EncItems(p, g, kind, items))
    decreases items, 0
  {
    hide Wrote, Enc, Typed, EncItems;
    end := offset;
    ghost var done: seq<byte> := [];
    WroteNothing(buffer[..], offset);
    for i := 0 to |items|
      invariant EncItems(p, g, kind, items) == done + EncItems(p, g, kind, items[i..])
      invariant end == offset + |done| && Wrote(old(buffer[..]), buffer[..], offset, done)
    {
      ghost var before, s := buffer[..], Enc(p, g, kind, items[i]);
      FirstItem(p, g, kind, items, i);
      end := EncodeProp(buffer, end, p, g, kind, items[i], room);
      WroteThen(old(buffer[..]), before, buffer[..], offset, done, s);
      assert done + (s + EncItems(p, g, kind, items[i + 1..])) == (done + s) + EncItems(p, g, kind, items[i + 1..]);
      done := done + s;
    }
    assert items[|items|..] == [];
    NoItems(p, g, kind);
    assert done + [] == done;
  }

  lemma FirstItem(p: Proto, g: Globals, kind: string, items: seq<Value>, i: nat)
    requires i < |items|
    ensures EncItems(p, g, kind, items[i..]) == Enc(p, g, kind, items[i]) + EncItems(p, g, kind, items[i + 1..])
  {
    assert items[i..][1..] == items[i + 1..];
  }

  lemma NoItems(p: Proto, g: Globals, kind: string)
    ensures EncItems(p, g, kind, []) == []
  {}

  method EncodeEach(buffer: array<byte>, offset: nat, p: Proto, g: Globals, proto: Field, items: seq<Value>, room: nat)
    returns (end: nat)
    requires proto.tag < TAG_LIMIT && TypedItems(p, g, proto.kind, items)
    requires offset + |EncTagged(p, g, proto, items)| <= buffer.Length && |EncTagged(p, g, proto, items)| <= room
    modifies buffer
    ensures end == offset + |EncTagged(p, g, proto, items)|
    ensures Wrote(old(buffer[..]), buffer[..], offset, EncTagged(p, g, proto, items))
    decreases items, 0
  {
    hide Wrote, Enc, Typed, EncTagged, TagBytes;
    end := offset;
    ghost var done: seq<byte> := [];
    WroteNothing(buffer[..], offset);
    for i := 0 to |items|
      invariant EncTagged(p, g, proto, items) == done + EncTagged(p, g, proto, items[i..])
      invariant end == offset + |done| && Wrote(old(buffer[..]), buffer[..], offset, done)
    {
      ghost var before, s := buffer[..], TagBytes(proto.kind, proto.tag) + Enc(p, g, proto.kind, items[i]);
      FirstTagged(p, g, proto, items, i);
      end := EncodeTagged(buffer, end, p, g, proto, items[i], room);
      WroteThen(old(buffer[..]), before, buffer[..], offset, done, s);
      assert done + (s + EncTagged(p, g, proto, items[i + 1..])) == (done + s) + EncTagged(p, g, proto, items[i + 1..]);
      done := done + s;
    }
    assert items[|items|..] == [];
    NoneTagged(p, g, proto);
    assert done + [] == done;
  }

  lemma FirstTagged(p: Proto, g: Globals, proto: Field, items: seq<Value>, i: nat)
    requires i < |items|
    ensures EncTagged(p, g, proto, items[i..])
         == (TagBytes(proto.kind, proto.tag) + Enc(p, g, proto.kind, items[i])) + EncTagged(p, g, proto, items[i + 1..])
  {
    assert items[i..][1..] == items[i + 1..];
  }

  lemma NoneTagged(p: Proto, g: Globals, proto: Field)
    ensures EncTagged(p, g, proto, []) == []
  {}

  /* ---------- checking a message ---------- */

  // Every required field is there, here and in the messages inside.
  ghost predicate Complete(p: Proto, g: Globals, msg: seq<Prop>)
    decreases msg, 1
  {
    forall n :: n in p.fields ==> CompleteField(p, g, n, msg)
  }

  ghost predicate CompleteField(p: Proto, g: Globals, name: string, msg: seq<Prop>)
    requires name in p.fields
    decreases msg, 0
  {
    && (p.fields[name].option == "required" ==> exists i :: 0 <= i < |msg| && msg[i].name == name)
    && (forall i :: 0 <= i < |msg| && msg[i].name == name ==> CompleteValue(p, g, p.fields[name], msg[i].value))
  }

  ghost predicate CompleteValue(p: Proto, g: Globals, f: Field, v: Value)
    decreases v
  {
    IsNested(f.kind) && Find(p, g, f.kind).Some? ==>
      var m := Find(p, g, f.kind).value;
      if f.option == "repeated" then
        v.List? ==> forall i :: 0 <= i < |v.items| && v.items[i].Message? ==> Complete(m, g, v.items[i].props)
      else v.Message? ==> Complete(m, g, v.props)
  }

  method CheckMsg(p: Proto, g: Globals, msg: seq<Prop>) returns (ok: bool)
    requires TypedProps(p, g, msg)
    ensures ok == Complete(p, g, msg)
    decreases msg, 1
  {
    var names := p.fields.Keys;
    while names != {}
      invariant names <= p.fields.Keys
      invariant forall n :: n in p.fields && n !in names ==> CompleteField(p, g, n, msg)
    {
      var name :| name in names;
      var complete := CheckField(p, g, name, msg);
      if !complete {
        return false;
      }
      names := names - {name};
    }
    return true;
  }

  method CheckField(p: Proto, g: Globals, name: string, msg: seq<Prop>) returns (ok: bool)
    requires name in p.fields && TypedProps(p, g, msg)
    ensures ok == CompleteField(p, g, name, msg)
    decreases msg, 0
  {
    var proto := p.fields[name];
    var i := 0;
    while i < |msg| && msg[i].name != name
      invariant 0 <= i <= |msg|
      invariant forall j :: 0 <= j < i ==> msg[j].name != name
    {
      i := i + 1;
    }
    if i == |msg| {
      return proto.option != "required";
    }
    assert TypedProp(p, g, msg[i]);
    ok := CheckValue(p, g, proto, msg[i].value);
  }

  method CheckValue(p: Proto, g: Globals, proto: Field, value: Value) returns (ok: bool)
    requires if proto.option == "repeated" then value.List? && TypedItems(p, g, proto.kind, value.items)
             else Typed(p, g, proto.kind, value)
    ensures ok == CompleteValue(p, g, proto, value)
    decreases value, 0
  {
    var message := FindMessage(p, g, proto.kind);
    if message.None? || !IsNested(proto.kind) {
      return true;
    }
    if proto.option == "repeated" {
      for i := 0 to |value.items|
        invariant forall j :: 0 <= j < i ==> Complete(message.value, g, value.items[j].props)
      {
        var complete := CheckMsg(message.value, g, value.items[i].props);
        if !complete {
          return false;
        }
      }
      return true;
    }
    ok := CheckMsg(message.value, g, value.props);
  }

  // null for an unknown route, for a message that lacks a required field, and for one without any bytes.
  method Encode(g: Globals, route: string, msg: seq<Prop>, room: nat) returns (bytes: Option<seq<byte>>)
    requires route in g ==> TypedProps(g[route], g, msg) && |EncProps(g[route], g, msg)| <= room
    ensures bytes ==
            if route == "" || route !in g || !Complete(g[route], g, msg) || EncProps(g[route], g, msg) == [] then None
            else Some(EncProps(g[route], g, msg))
  {
    hide Wrote, EncProps, TypedProps, Complete;
    if route == "" || route !in g {
      return None;
    }
    var protos := g[route];
    var checked := CheckMsg(protos, g, msg);
    if !checked {
      return None;
    }
    var buffer := new byte[room];
    ghost var blank := buffer[..];
    var offset := EncodeMsg(buffer, 0, protos, g, msg, room);
    FromStart(blank, buffer[..], EncProps(protos, g, msg));
    if offset > 0 {
      return Some(buffer[..offset]);
    }
    return None;
  }
}
