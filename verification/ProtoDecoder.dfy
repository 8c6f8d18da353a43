/**
The decoder: a cursor over a buffer, and a message that is filled as fields are read.
*/
module ProtoDecoders {
  import opened Options
  import opened ProtoParsers
  import opened ProtoRoundTrips
  import opened ProtoWires
  import opened Varints

  class Decoder {
    var buffer: seq<byte>
    var offset: nat

    constructor (buf: seq<byte>)
      ensures buffer == buf && offset == 0
    {
      buffer, offset := buf, 0;
    }

    // The bytes up to the first one below 128; None is an exception at the end of the buffer.
    method GetBytes() returns (bytes: Option<seq<byte>>)
      modifies this`offset
      ensures bytes.None? ==> ReadUInt(buffer, old(offset)) == Fail
      ensures bytes.Some? ==> ReadUInt(buffer, old(offset)) == Got(UIntValue(bytes.value), offset)
    {
      var s: seq<byte> := [];
      var pos: nat := offset;
      var more := true;
      while more
        invariant offset == old(offset) && buffer == old(buffer)
        invariant more ==> Reads(buffer, offset, s, pos)
        invariant !more ==> ReadUInt(buffer, offset) == Got(UIntValue(s), pos)
        decreases more, |buffer| - pos
      {
        if pos >= |buffer| {
          NothingLeft(buffer, offset, s, pos);
          return None;
        }
        var b := buffer[pos];
        ReadsNext(buffer, offset, s, pos);
        s := s + [b];
        pos := pos + 1;
        more := b >= 128;
      }
      offset := pos;
      return Some(s);
    }

    method GetUInt() returns (n: Option<nat>)
      modifies this`offset
      ensures Matches(n, offset, ReadUInt(buffer, old(offset)))
    {
      var bytes := GetBytes();
      if bytes.None? {
        return None;
      }
      var v := DecodeUInt32(bytes.value);
      return Some(v);
    }

    method ReadBytes(n: nat) returns (s: Option<seq<byte>>)
      modifies this`offset
      ensures Matches(s, offset, Slice(buffer, old(offset), n))
    {
      if offset + n > |buffer| {
        return None;
      }
      s := Some(buffer[offset..offset + n]);
      offset := offset + n;
    }

    // A value that is not a message.
    method DecodeSimple(kind: string) returns (value: Option<Value>)
      modifies this`offset
      ensures Matches(value, offset, ReadSimple(kind, buffer, old(offset)))
    {
      hide ReadUInt;
      if kind == "uInt32" {
        var n := GetUInt();
        return if n.None? then None else Some(Number(n.value));
      } else if kind == "int32" || kind == "sInt32" {
        var n := GetUInt();
        return if n.None? then None else Some(Number(Unzigzag(n.value)));
      } else if kind == "float" {
        var bits := ReadBytes(4);
        return if bits.None? then None else Some(Single(bits.value));
      } else if kind == "double" {
        var bits := ReadBytes(8);
        return if bits.None? then None else Some(Double(bits.value));
      } else if kind == "string" {
        var length := GetUInt();
        if length.None? {
          return None;
        }
        var n := length.value;
        value := Some(Text(if offset + n <= |buffer| then buffer[offset..offset + n] else buffer[offset..]));
        offset := offset + n;
      } else {
        return Some(Undefined);
      }
    }

    method DecodeProp(kind: string, p: Proto, g: Globals) returns (value: Option<Value>)
      modifies this`offset
      ensures Matches(value, offset, ReadProp(p, g, kind, buffer, old(offset)))
      decreases Left(buffer, offset), 1
    {
      hide ReadUInt, ReadSimple, Find;
      var message := FindMessage(p, g, kind);
      if message.None? || !IsNested(kind) {
        value := DecodeSimple(kind);
        return;
      }
      var length := GetUInt();
      if length.None? {
        return None;
      }
      var props := DecodeMsg([], message.value, g, offset + length.value);
      return if props.None? then None else Some(Message(props.value));
    }

    // The name of the field that the next head announces.
    method GetHead(p: Proto) returns (name: Option<string>)
      modifies this`offset
      ensures name.None? ==> NoHead(p, buffer, old(offset))
      ensures name.Some? ==> ReadsHead(p, name.value, buffer, old(offset), offset) && name.value in p.fields
    {
      hide ReadUInt;
      var head := GetUInt();
      if head.None? {
        return None;
      }
      var tag := ToInt32(head.value) / 8;
      if tag < 0 || tag !in p.tags || p.tags[tag] !in p.fields {
        return None;
      }
      return Some(p.tags[tag]);
    }

    // The values of a repeated field that one head announces, pushed to those there are.
    method DecodeArray(list: seq<Value>, f: Field, p: Proto, g: Globals) returns (items: Option<seq<Value>>)
      requires f.option == "repeated"
      modifies this`offset
      ensures Matches(items, offset, Joined(list, ReadField(p, g, f, buffer, old(offset))))
      decreases Left(buffer, offset), 2
    {
      hide ReadUInt, ReadProp, ReadItems;
      var simple := IsSimpleType(f.kind);
      if simple {
        var length := GetUInt();
        if length.None? {
          return None;
        }
        items := DecodeItems(list, f.kind, length.value);
        return;
      }
      var v := DecodeProp(f.kind, p, g);
      return if v.None? then None else Some(list + [v.value]);
    }

    method DecodeItems(list: seq<Value>, kind: string, length: nat) returns (items: Option<seq<Value>>)
      modifies this`offset
      ensures Matches(items, offset, Joined(list, ReadItems(kind, buffer, old(offset), length)))
    {
      hide ReadSimple, ReadItems;
      var vs := list;
      for i := 0 to length
        invariant Joined(list, ReadItems(kind, buffer, old(offset), length)) ==
                  Joined(vs, ReadItems(kind, buffer, offset, length - i))
      {
        ghost var pos := offset;
        var v := DecodeSimple(kind);
        NextItem(kind, buffer, pos, length - i, vs);
        if v.None? {
          return None;
        }
        vs := vs + [v.value];
      }
      NoItemsLeft(kind, buffer, offset, vs);
      return Some(vs);
    }

    method DecodeMsg(msg: seq<Prop>, p: Proto, g: Globals, length: nat) returns (r: Option<seq<Prop>>)
      modifies this`offset
      ensures Matches(r, offset, ReadProps(p, g, buffer, old(offset), length, msg))
      decreases Left(buffer, offset), 0
    {
      hide ReadUInt, ReadField, ReadProps, NameOf, Put, Extend, Existing, ReadsHead, NoHead;
      var filled := msg;
      while offset < length
        invariant old(offset) <= offset
        invariant ReadProps(p, g, buffer, old(offset), length, msg) == ReadProps(p, g, buffer, offset, length, filled)
        decreases Left(buffer, offset)
      {
        ghost var pos := offset;
        var name := GetHead(p);
        if name.None? {
          HeadFails(p, g, buffer, pos, length, filled);
          return None;
        }
        ghost var q := offset;
        HeadMoves(p, name.value, buffer, pos, q);
        var proto := p.fields[name.value];
        if proto.option == "repeated" {
          var list := DecodeArray(Existing(filled, name.value), proto, p, g);
          FieldTurn(p, g, name.value, buffer, pos, q, length, filled);
          if list.None? {
            return None;
          }
          filled := Put(filled, name.value, List(list.value));
        } else {
          var value := DecodeProp(proto.kind, p, g);
          FieldTurn(p, g, name.value, buffer, pos, q, length, filled);
          if value.None? {
            return None;
          }
          filled := Put(filled, name.value, value.value);
        }
      }
      NoPropsLeft(p, g, buffer, offset, length, filled);
      return Some(filled);
    }
  }

  // Unknown stands for the null of an unknown route.
  datatype Answer = Unknown | Exception | Answer(props: seq<Prop>)

  method Decode(g: Globals, route: string, buf: seq<byte>) returns (msg: Answer)
    ensures msg == if route !in g then Unknown
                   else
                     var c := ReadProps(g[route], g, buf, 0, |buf|, []);
                     if c.Fail? then Exception else Answer(c.value)
  {
    if route !in g {
      return Unknown;
    }
    var decoder := new Decoder(buf);
    var props := decoder.DecodeMsg([], g[route], g, |buf|);
    return if props.None? then Exception else Answer(props.value);
  }

  lemma NoPropsLeft(p: Proto, g: Globals, b: seq<byte>, pos: nat, end: nat, acc: seq<Prop>)
    requires pos >= end
    ensures ReadProps(p, g, b, pos, end, acc) == Got(acc, pos)
  {}

  ghost predicate NoHead(p: Proto, b: seq<byte>, pos: nat) {
    ReadUInt(b, pos).Fail? || NameOf(p, ReadUInt(b, pos).value) == None
  }

  lemma HeadFails(p: Proto, g: Globals, b: seq<byte>, pos: nat, end: nat, acc: seq<Prop>)
    requires pos < end && NoHead(p, b, pos)
    ensures ReadProps(p, g, b, pos, end, acc) == Fail
  {}

  lemma HeadMoves(p: Proto, name: string, b: seq<byte>, pos: nat, q: nat)
    requires ReadsHead(p, name, b, pos, q)
    ensures pos < q <= |b|
  {}

  // A turn of the loop, by what reading the field gives.
  lemma FieldTurn(p: Proto, g: Globals, name: string, b: seq<byte>, pos: nat, q: nat, end: nat, acc: seq<Prop>)
    requires pos < end && name in p.fields && ReadsHead(p, name, b, pos, q)
    ensures var c := ReadField(p, g, p.fields[name], b, q);
            && (c.Fail? ==> ReadProps(p, g, b, pos, end, acc) == Fail)
            && (c.Got? ==>
                  ReadProps(p, g, b, pos, end, acc) ==
                      ReadProps(p, g, b, c.pos, end, Store(acc, name, p.fields[name], c.value)))
            && (c.Got? && p.fields[name].option == "repeated" ==>
                  Store(acc, name, p.fields[name], c.value) == Put(acc, name, List(Existing(acc, name) + c.value)))
    ensures p.fields[name].option != "repeated" ==>
              var c := ReadProp(p, g, p.fields[name].kind, b, q);
              ReadField(p, g, p.fields[name], b, q) == if c.Fail? then Fail else Got([c.value], c.pos)
  {
    hide ReadUInt, NameOf, Put, Extend, Existing;
    var c := ReadField(p, g, p.fields[name], b, q);
    if c.Got? {
      ExtendIsPut(acc, name, c.value);
    }
  }

  lemma NextItem(kind: string, b: seq<byte>, pos: nat, n: nat, done: seq<Value>)
    requires n > 0
    ensures var c := ReadSimple(kind, b, pos);
            Joined(done, ReadItems(kind, b, pos, n))
            == if c.Fail? then Fail else Joined(done + [c.value], ReadItems(kind, b, c.pos, n - 1))
  {
    var c := ReadSimple(kind, b, pos);
    if c.Got? {
      var rest := ReadItems(kind, b, c.pos, n - 1);
      if rest.Got? {
        assert done + ([c.value] + rest.value) == done + [c.value] + rest.value;
      }
    }
  }

  lemma NoItemsLeft(kind: string, b: seq<byte>, pos: nat, done: seq<Value>)
    ensures Joined(done, ReadItems(kind, b, pos, 0)) == Got(done, pos)
  {
    assert done + [] == done;
  }

  // The list that a message has under a name, or an empty one.
  function Existing(msg: seq<Prop>, name: string): seq<Value> {
    if msg == [] then []
    else if msg[0].name == name then (if msg[0].value.List? then msg[0].value.items else [])
    else Existing(msg[1..], name)
  }

  lemma {:induction false} ExtendIsPut(msg: seq<Prop>, name: string, vs: seq<Value>)
    ensures Extend(msg, name, vs) == Put(msg, name, List(Existing(msg, name) + vs))
  {
    if msg != [] {
      ExtendIsPut(msg[1..], name, vs);
    } else {
      assert [] + vs == vs;
    }
  }

  // The values read before and those read next.
  ghost function Joined(done: seq<Value>, rest: Cursor<seq<Value>>): Cursor<seq<Value>> {
    if rest.Fail? then Fail else Got(done + rest.value, rest.pos)
  }

  // What a method returns and where it leaves the cursor, and what the reader computes.
  ghost predicate Matches<T>(value: Option<T>, offset: nat, c: Cursor<T>) {
    if c.Fail? then value == None else value == Some(c.value) && offset == c.pos
  }

  // The bytes s from offset up to pos all announce more.
  ghost predicate Reads(b: seq<byte>, offset: nat, s: seq<byte>, pos: nat) {
    && pos == offset + |s| && (pos <= |b| || s == []) && (pos <= |b| ==> s == b[offset..pos])
    && forall i :: 0 <= i < |s| ==> s[i] >= 128
  }

  lemma {:induction false} NothingLeft(b: seq<byte>, offset: nat, s: seq<byte>, pos: nat)
    requires Reads(b, offset, s, pos) && pos >= |b|
    ensures ReadUInt(b, offset) == Fail
    decreases |s|
  {
    if s != [] {
      NothingLeft(b, offset + 1, s[1..], pos);
    }
  }

  lemma {:induction false} ReadsNext(b: seq<byte>, offset: nat, s: seq<byte>, pos: nat)
    requires Reads(b, offset, s, pos) && pos < |b|
    ensures b[pos] >= 128 ==> Reads(b, offset, s + [b[pos]], pos + 1)
    ensures b[pos] < 128 ==> ReadUInt(b, offset) == Got(UIntValue(s + [b[pos]]), pos + 1)
    decreases |s|
  {
    if s != [] {
      ReadsNext(b, offset + 1, s[1..], pos);
      assert (s + [b[pos]])[1..] == s[1..] + [b[pos]];
    }
  }
}
