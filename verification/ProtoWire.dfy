/**
The bytes of a message under a schema, what a reader makes of bytes, and the proof that reading
gives back what was written.
*/
module ProtoWires {
  import opened Options
  import opened ProtoParsers
  import opened Varints

  // A floating-point number is its four or eight bytes, a string its UTF-8 bytes. The properties of a
  // message come in the order in which they are visited. Undefined is what a reader makes of a field
  // of an unknown type.
  datatype Value =
    | Number(n: int)
    | Single(bits: seq<byte>)
    | Double(bits: seq<byte>)
    | Text(utf8: seq<byte>)
    | Message(props: seq<Prop>)
    | List(items: seq<Value>)
    | Undefined

  datatype Prop = Prop(name: string, value: Value)

  // The schemas by route; a message declared at the top is under "message " and its name.
  type Globals = map<string, Proto>

  function Find(p: Proto, g: Globals, kind: string): Option<Proto> {
    if kind in p.messages then Some(p.messages[kind])
    else if "message " + kind in g then Some(g["message " + kind])
    else None
  }

  // A message declared inside goes before one declared at the top.
  method FindMessage(p: Proto, g: Globals, kind: string) returns (message: Option<Proto>)
    ensures message == Find(p, g, kind)
  {
    if kind in p.messages {
      return Some(p.messages[kind]);
    }
    if "message " + kind in g {
      return Some(g["message " + kind]);
    }
    return None;
  }

  predicate IsSimple(kind: string) {
    kind in ["uInt32", "sInt32", "int32", "uInt64", "sInt64", "float", "double"]
  }

  method IsSimpleType(kind: string) returns (simple: bool)
    ensures simple == IsSimple(kind)
  {
    var types := ["uInt32", "sInt32", "int32", "uInt64", "sInt64", "float", "double"];
    return kind in types;
  }

  predicate IsSigned(kind: string) {
    kind == "int32" || kind == "sInt32"
  }

  predicate IsNested(kind: string) {
    !IsSimple(kind) && kind != "string"
  }

  function WireType(kind: string): (w: nat)
    ensures w < 8
  {
    if kind == "uInt32" || IsSigned(kind) then 0
    else if kind == "double" then 1
    else if kind == "float" then 5
    else 2
  }

  const TAG_LIMIT := 0x1000_0000

  function TagBytes(kind: string, tag: nat): seq<byte> {
    UIntBytes(tag * 8 + WireType(kind))
  }

  /* ---------- writing ---------- */

  // A value of another type than its field has no bytes here.
  function Enc(p: Proto, g: Globals, kind: string, v: Value): seq<byte>
    decreases v
  {
    if kind == "uInt32" then (if v.Number? && v.n >= 0 then UIntBytes(v.n) else [])
    else if IsSigned(kind) then (if v.Number? then UIntBytes(Zigzag(v.n)) else [])
    else if kind == "float" then (if v.Single? then v.bits else [])
    else if kind == "double" then (if v.Double? then v.bits else [])
    else if kind == "string" then (if v.Text? then UIntBytes(|v.utf8|) + v.utf8 else [])
    else
      match Find(p, g, kind)
      case None => []
      case Some(m) =>
        if v.Message? then UIntBytes(|EncProps(m, g, v.props)|) + EncProps(m, g, v.props) else []
  }

  function EncProps(p: Proto, g: Globals, props: seq<Prop>): seq<byte>
    decreases props
  {
    if props == [] then [] else EncProp(p, g, props[0]) + EncProps(p, g, props[1..])
  }

  function EncProp(p: Proto, g: Globals, prop: Prop): seq<byte>
    decreases prop
  {
    if prop.name !in p.fields then []
    else
      var f := p.fields[prop.name];
      if f.option == "repeated" then
        if prop.value.List? && prop.value.items != [] then EncArray(p, g, f, prop.value.items) else []
      else TagBytes(f.kind, f.tag) + Enc(p, g, f.kind, prop.value)
  }

  function EncArray(p: Proto, g: Globals, f: Field, items: seq<Value>): seq<byte>
    decreases items, 1
  {
    if IsSimple(f.kind) then TagBytes(f.kind, f.tag) + (UIntBytes(|items|) + EncItems(p, g, f.kind, items))
    else EncTagged(p, g, f, items)
  }

  function EncItems(p: Proto, g: Globals, kind: string, items: seq<Value>): seq<byte>
    decreases items, 0
  {
    if items == [] then [] else Enc(p, g, kind, items[0]) + EncItems(p, g, kind, items[1..])
  }

  function EncTagged(p: Proto, g: Globals, f: Field, items: seq<Value>): seq<byte>
    decreases items, 0
  {
    if items == [] then []
    else TagBytes(f.kind, f.tag) + (Enc(p, g, f.kind, items[0]) + EncTagged(p, g, f, items[1..]))
  }

  /* ---------- messages that fit the schema ---------- */

  ghost predicate Typed(p: Proto, g: Globals, kind: string, v: Value)
    decreases v
  {
    if kind == "uInt32" then v.Number? && 0 <= v.n < 0x1_0000_0000
    else if IsSigned(kind) then v.Number? && -0x8000_0000 <= v.n < 0x8000_0000
    else if kind == "float" then v.Single? && |v.bits| == 4
    else if kind == "double" then v.Double? && |v.bits| == 8
    else if kind == "string" then v.Text?
    else IsNested(kind) && Find(p, g, kind).Some? && v.Message? && TypedProps(Find(p, g, kind).value, g, v.props)
  }

  ghost predicate TypedProps(p: Proto, g: Globals, props: seq<Prop>)
    decreases props
  {
    && (forall i, j :: 0 <= i < j < |props| ==> props[i].name != props[j].name)
    && (forall i :: 0 <= i < |props| ==> TypedProp(p, g, props[i]))
  }

  // Properties that the schema does not know may be anything.
  ghost predicate TypedProp(p: Proto, g: Globals, prop: Prop)
    decreases prop
  {
    prop.name != "" && (prop.name in p.fields ==>
      var f := p.fields[prop.name];
      && f.tag < TAG_LIMIT
      && if f.option == "repeated" then prop.value.List? && TypedItems(p, g, f.kind, prop.value.items)
         else Typed(p, g, f.kind, prop.value))
  }

  ghost predicate TypedItems(p: Proto, g: Globals, kind: string, items: seq<Value>)
    decreases items
  {
    forall i :: 0 <= i < |items| ==> Typed(p, g, kind, items[i])
  }

  // The message without what the schema does not know and without empty repeated fields.
  function Kept(p: Proto, g: Globals, kind: string, v: Value): Value
    decreases v
  {
    if IsNested(kind) && Find(p, g, kind).Some? && v.Message?
    then Message(KeptProps(Find(p, g, kind).value, g, v.props)) else v
  }

  function KeptItems(p: Proto, g: Globals, kind: string, items: seq<Value>): seq<Value>
    decreases items
  {
    if items == [] then [] else [Kept(p, g, kind, items[0])] + KeptItems(p, g, kind, items[1..])
  }

  function KeptProp(p: Proto, g: Globals, prop: Prop): seq<Prop>
    decreases prop
  {
    if prop.name !in p.fields then []
    else
      var f := p.fields[prop.name];
      if f.option == "repeated" then
        if prop.value.List? && prop.value.items != []
        then [Prop(prop.name, List(KeptItems(p, g, f.kind, prop.value.items)))] else []
      else [Prop(prop.name, Kept(p, g, f.kind, prop.value))]
  }

  function KeptProps(p: Proto, g: Globals, props: seq<Prop>): seq<Prop>
    decreases props
  {
    if props == [] then [] else KeptProp(p, g, props[0]) + KeptProps(p, g, props[1..])
  }

  /* ---------- reading ---------- */

  // Fail is an exception; otherwise the value and the position after it.
  datatype Cursor<T> = Fail | Got(value: T, pos: nat)

  function ReadUInt(b: seq<byte>, pos: nat): (r: Cursor<nat>)
    ensures r.Got? ==> pos < r.pos <= |b|
    decreases |b| - pos
  {
    if pos >= |b| then Fail
    else if b[pos] < 128 then Got(b[pos], pos + 1)
    else
      match ReadUInt(b, pos + 1)
      case Fail => Fail
      case Got(v, q) => Got(b[pos] - 128 + 128 * v, q)
  }

  function Slice(b: seq<byte>, pos: nat, n: nat): (r: Cursor<seq<byte>>)
    ensures r.Got? ==> r.pos == pos + n
  {
    if pos + n <= |b| then Got(b[pos..pos + n], pos + n) else Fail
  }

  // A string is cut at the end of the buffer.
  function ReadText(b: seq<byte>, pos: nat): (r: Cursor<Value>)
    ensures r.Got? ==> pos < r.pos
  {
    match ReadUInt(b, pos)
    case Fail => Fail
    case Got(n, q) => Got(Text(if q + n <= |b| then b[q..q + n] else b[q..]), q + n)
  }

  function ReadSimple(kind: string, b: seq<byte>, pos: nat): (r: Cursor<Value>)
    ensures r.Got? ==> pos <= r.pos
  {
    if kind == "uInt32" then
      match ReadUInt(b, pos)
      case Fail => Fail
      case Got(n, q) => Got(Number(n), q)
    else if IsSigned(kind) then
      match ReadUInt(b, pos)
      case Fail => Fail
      case Got(n, q) => Got(Number(Unzigzag(n)), q)
    else if kind == "float" then
      match Slice(b, pos, 4)
      case Fail => Fail
      case Got(s, q) => Got(Single(s), q)
    else if kind == "double" then
      match Slice(b, pos, 8)
      case Fail => Fail
      case Got(s, q) => Got(Double(s), q)
    else if kind == "string" then ReadText(b, pos)
    else Got(Undefined, pos)
  }

  function ReadItems(kind: string, b: seq<byte>, pos: nat, n: nat): (r: Cursor<seq<Value>>)
    ensures r.Got? ==> pos <= r.pos
    decreases n
  {
    if n == 0 then Got([], pos)
    else
      match ReadSimple(kind, b, pos)
      case Fail => Fail
      case Got(v, q) =>
        match ReadItems(kind, b, q, n - 1)
        case Fail => Fail
        case Got(vs, q') => Got([v] + vs, q')
  }

  function NameOf(p: Proto, head: nat): (name: Option<string>)
    ensures name.Some? ==> name.value in p.fields
  {
    var tag := ToInt32(head) / 8;
    if tag >= 0 && tag in p.tags && p.tags[tag] in p.fields then Some(p.tags[tag]) else None
  }

  function Put(acc: seq<Prop>, name: string, v: Value): seq<Prop> {
    if acc == [] then [Prop(name, v)]
    else if acc[0].name == name then [Prop(name, v)] + acc[1..]
    else [acc[0]] + Put(acc[1..], name, v)
  }

  // The value that is read under a name.
  function ValueOf(acc: seq<Prop>, name: string): Option<Value> {
    if acc == [] then None else if acc[0].name == name then Some(acc[0].value) else ValueOf(acc[1..], name)
  }

  // A value that is put replaces the one of its name, and leaves the others.
  lemma {:induction false} PutStores(acc: seq<Prop>, name: string, v: Value, other: string)
    ensures ValueOf(Put(acc, name, v), other) == if other == name then Some(v) else ValueOf(acc, other)
    ensures |Put(acc, name, v)| == |acc| + if ValueOf(acc, name) == None then 1 else 0
  {
    if acc != [] {
      PutStores(acc[1..], name, v, other);
    }
  }

  function Extend(acc: seq<Prop>, name: string, items: seq<Value>): seq<Prop> {
    if acc == [] then [Prop(name, List(items))]
    else if acc[0].name == name then
      [Prop(name, List((if acc[0].value.List? then acc[0].value.items else []) + items))] + acc[1..]
    else [acc[0]] + Extend(acc[1..], name, items)
  }

  function Left(b: seq<byte>, pos: nat): nat {
    if pos < |b| then |b| - pos else 0
  }

  // One value of the given type. Its nested messages are read up to their own length.
  function ReadProp(p: Proto, g: Globals, kind: string, b: seq<byte>, pos: nat): (r: Cursor<Value>)
    ensures r.Got? ==> pos <= r.pos
    decreases Left(b, pos), 1
  {
    if !IsNested(kind) || Find(p, g, kind).None? then ReadSimple(kind, b, pos)
    else
      match ReadUInt(b, pos)
      case Fail => Fail
      case Got(n, q) =>
        match ReadProps(Find(p, g, kind).value, g, b, q, q + n, [])
        case Fail => Fail
        case Got(props, q') => Got(Message(props), q')
  }

  // The values that one head announces: of a repeated field of a simple type, all of them.
  function ReadField(p: Proto, g: Globals, f: Field, b: seq<byte>, pos: nat): (r: Cursor<seq<Value>>)
    ensures r.Got? ==> pos <= r.pos
    decreases Left(b, pos), 2
  {
    if f.option == "repeated" && IsSimple(f.kind) then
      match ReadUInt(b, pos)
      case Fail => Fail
      case Got(n, q) => ReadItems(f.kind, b, q, n)
    else
      match ReadProp(p, g, f.kind, b, pos)
      case Fail => Fail
      case Got(v, q) => Got([v], q)
  }

  function Store(acc: seq<Prop>, name: string, f: Field, vs: seq<Value>): seq<Prop> {
    if f.option == "repeated" then Extend(acc, name, vs)
    else if |vs| == 1 then Put(acc, name, vs[0])
    else acc
  }

  // Properties up to position end, added to those read so far.
  function ReadProps(p: Proto, g: Globals, b: seq<byte>, pos: nat, end: nat, acc: seq<Prop>): (r: Cursor<seq<Prop>>)
    ensures r.Got? ==> pos <= r.pos
    decreases Left(b, pos), 0
  {
    if pos >= end then Got(acc, pos)
    else
      match ReadUInt(b, pos)
      case Fail => Fail
      case Got(head, q) =>
        match NameOf(p, head)
        case None => Fail
        case Some(name) =>
          match ReadField(p, g, p.fields[name], b, q)
          case Fail => Fail
          case Got(vs, q') => ReadProps(p, g, b, q', end, Store(acc, name, p.fields[name], vs))
  }
}
