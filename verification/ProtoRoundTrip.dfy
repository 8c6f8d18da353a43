/**
Reading what was written gives the message back and ends where the writing ended.
*/
module ProtoRoundTrips {
  import opened Options
  import opened ProtoParsers
  import opened ProtoWires
  import opened Varints

  // The bytes s are in b from pos on.
  ghost predicate At(b: seq<byte>, pos: nat, s: seq<byte>) {
    pos + |s| <= |b| && b[pos..pos + |s|] == s
  }

  lemma AtSplit(b: seq<byte>, pos: nat, s: seq<byte>, t: seq<byte>)
    requires At(b, pos, s + t)
    ensures At(b, pos, s) && At(b, pos + |s|, t)
  {
    assert b[pos..pos + |s + t|][..|s|] == s;
    assert b[pos..pos + |s + t|][|s|..] == t;
  }

  lemma {:induction false} ReadUIntAt(b: seq<byte>, pos: nat, n: nat)
    requires At(b, pos, UIntBytes(n))
    ensures ReadUInt(b, pos) == Got(n, pos + |UIntBytes(n)|)
    decreases n
  {
    assert b[pos] == b[pos..pos + |UIntBytes(n)|][0];
    if n >= 128 {
      AtSplit(b, pos, [n % 128 + 128], UIntBytes(n / 128));
      ReadUIntAt(b, pos + 1, n / 128);
    }
  }

  ghost predicate AllIndexed(p: Proto, g: Globals) {
    Indexed(p) && forall k :: k in g ==> Indexed(g[k])
  }

  lemma FoundIndexed(p: Proto, g: Globals, kind: string)
    requires AllIndexed(p, g) && Find(p, g, kind).Some?
    ensures AllIndexed(Find(p, g, kind).value, g)
  {}

  // A head below 2^31 is read as the name of its field.
  lemma HeadName(p: Proto, name: string)
    requires Indexed(p) && name in p.fields && name != "" && p.fields[name].tag < TAG_LIMIT
    ensures NameOf(p, p.fields[name].tag * 8 + WireType(p.fields[name].kind)) == Some(name)
  {
    var tag, w := p.fields[name].tag, WireType(p.fields[name].kind);
    assert ToInt32(tag * 8 + w) == tag * 8 + w;
    assert (tag * 8 + w) / 8 == tag;
  }

  lemma ReadSimpleAt(p: Proto, g: Globals, kind: string, v: Value, b: seq<byte>, pos: nat)
    requires Typed(p, g, kind, v) && !IsNested(kind) && At(b, pos, Enc(p, g, kind, v))
    ensures ReadSimple(kind, b, pos) == Got(v, pos + |Enc(p, g, kind, v)|)
  {
    hide ReadUInt, UIntBytes, Zigzag, Unzigzag, IsSimple;
    if kind == "uInt32" {
      ReadUIntAt(b, pos, v.n);
    } else if IsSigned(kind) {
      ReadUIntAt(b, pos, Zigzag(v.n));
      ZigzagRoundTrip(v.n);
    } else if kind == "string" {
      AtSplit(b, pos, UIntBytes(|v.utf8|), v.utf8);
      ReadUIntAt(b, pos, |v.utf8|);
    }
  }

  lemma {:induction false} ReadItemsAt(p: Proto, g: Globals, kind: string, items: seq<Value>, b: seq<byte>, pos: nat)
    requires TypedItems(p, g, kind, items) && !IsNested(kind) && At(b, pos, EncItems(p, g, kind, items))
    ensures ReadItems(kind, b, pos, |items|) == Got(items, pos + |EncItems(p, g, kind, items)|)
    decreases |items|
  {
    hide Enc, Typed, ReadSimple;
    if items != [] {
      var s := Enc(p, g, kind, items[0]);
      AtSplit(b, pos, s, EncItems(p, g, kind, items[1..]));
      ReadSimpleAt(p, g, kind, items[0], b, pos);
      ReadItemsAt(p, g, kind, items[1..], b, pos + |s|);
      assert items == [items[0]] + items[1..];
    }
  }

  /* ---------- passing over values ---------- */

  // Where a value ends for a reader who knows nothing but the low bits of its head.
  ghost function Skip(b: seq<byte>, wire: nat, pos: nat): Option<nat> {
    if wire == 1 then Some(pos + 8)
    else if wire == 5 then Some(pos + 4)
    else
      match ReadUInt(b, pos)
      case Fail => None
      case Got(n, q) => if wire == 0 then Some(q) else if wire == 2 then Some(q + n) else None
  }

  // The same from the head on, and n times.
  ghost function Pass(b: seq<byte>, pos: nat): Option<nat> {
    match ReadUInt(b, pos)
    case Fail => None
    case Got(head, q) => Skip(b, head % 8, q)
  }

  ghost function PassAll(b: seq<byte>, pos: nat, n: nat): Option<nat>
    decreases n
  {
    if n == 0 then Some(pos)
    else
      match Pass(b, pos)
      case None => None
      case Some(q) => PassAll(b, q, n - 1)
  }

  lemma {:induction false} PassAllThen(b: seq<byte>, pos: nat, m: nat, q: nat, n: nat)
    requires PassAll(b, pos, m) == Some(q)
    ensures PassAll(b, pos, m + n) == PassAll(b, q, n)
    decreases m
  {
    hide Pass;
    if m > 0 {
      PassAllThen(b, Pass(b, pos).value, m - 1, q, n);
    }
  }

  lemma HeadRead(kind: string, tag: nat, s: seq<byte>, b: seq<byte>, pos: nat)
    requires At(b, pos, TagBytes(kind, tag) + s)
    ensures ReadUInt(b, pos) == Got(tag * 8 + WireType(kind), pos + |TagBytes(kind, tag)|)
    ensures At(b, pos + |TagBytes(kind, tag)|, s)
    ensures (tag * 8 + WireType(kind)) / 8 == tag && (tag * 8 + WireType(kind)) % 8 == WireType(kind)
  {
    hide ReadUInt, UIntBytes;
    AtSplit(b, pos, TagBytes(kind, tag), s);
    ReadUIntAt(b, pos, tag * 8 + WireType(kind));
  }

  lemma BodySkipped(p: Proto, g: Globals, kind: string, v: Value, b: seq<byte>, q: nat)
    requires Typed(p, g, kind, v) && At(b, q, Enc(p, g, kind, v))
    ensures Skip(b, WireType(kind), q) == Some(q + |Enc(p, g, kind, v)|)
  {
    hide ReadUInt, UIntBytes, Zigzag, EncProps, TypedProps;
    if kind == "uInt32" {
      ReadUIntAt(b, q, v.n);
    } else if IsSigned(kind) {
      ReadUIntAt(b, q, Zigzag(v.n));
    } else if kind == "string" {
      AtSplit(b, q, UIntBytes(|v.utf8|), v.utf8);
      ReadUIntAt(b, q, |v.utf8|);
    } else if kind != "float" && kind != "double" {
      var body := EncProps(Find(p, g, kind).value, g, v.props);
      AtSplit(b, q, UIntBytes(|body|), body);
      ReadUIntAt(b, q, |body|);
    }
  }

  // The head of a value gives its tag, and a reader who knows no more than the head ends where the value ends.
  lemma ValueSkipped(p: Proto, g: Globals, kind: string, tag: nat, v: Value, b: seq<byte>, pos: nat)
    requires tag < TAG_LIMIT && Typed(p, g, kind, v) && At(b, pos, TagBytes(kind, tag) + Enc(p, g, kind, v))
    ensures var c := ReadUInt(b, pos);
            && c.Got? && c.value / 8 == tag && c.pos == pos + |TagBytes(kind, tag)|
            && Skip(b, c.value % 8, c.pos) == Some(c.pos + |Enc(p, g, kind, v)|)
  {
    hide ReadUInt, TagBytes, Enc, Typed, Skip, WireType;
    HeadRead(kind, tag, Enc(p, g, kind, v), b, pos);
    BodySkipped(p, g, kind, v, b, pos + |TagBytes(kind, tag)|);
  }

  lemma ValuePassed(p: Proto, g: Globals, kind: string, tag: nat, v: Value, b: seq<byte>, pos: nat)
    requires tag < TAG_LIMIT && Typed(p, g, kind, v) && At(b, pos, TagBytes(kind, tag) + Enc(p, g, kind, v))
    ensures PassAll(b, pos, 1) == Some(pos + |TagBytes(kind, tag) + Enc(p, g, kind, v)|)
  {
    ValueSkipped(p, g, kind, tag, v, b, pos);
    hide ReadUInt, Skip, Enc, Typed, TagBytes;
    assert PassAll(b, Pass(b, pos).value, 0) == Pass(b, pos);
  }

  lemma {:induction false} TaggedPassed(p: Proto, g: Globals, f: Field, items: seq<Value>, b: seq<byte>, pos: nat)
    requires f.tag < TAG_LIMIT && TypedItems(p, g, f.kind, items) && At(b, pos, EncTagged(p, g, f, items))
    ensures PassAll(b, pos, |items|) == Some(pos + |EncTagged(p, g, f, items)|)
    decreases |items|
  {
    hide Enc, Typed, TagBytes, Pass, PassAll;
    if items == [] {
      assert PassAll(b, pos, 0) == Some(pos) by { PassNone(b, pos); }
    } else {
      var head, s := TagBytes(f.kind, f.tag), Enc(p, g, f.kind, items[0]);
      var rest := EncTagged(p, g, f, items[1..]);
      assert head + (s + rest) == (head + s) + rest;
      AtSplit(b, pos, head + s, rest);
      ValuePassed(p, g, f.kind, f.tag, items[0], b, pos);
      TaggedPassed(p, g, f, items[1..], b, pos + |head + s|);
      PassAllThen(b, pos, 1, pos + |head + s|, |items| - 1);
    }
  }

  lemma PassNone(b: seq<byte>, pos: nat)
    ensures PassAll(b, pos, 0) == Some(pos)
  {}

  // How many heads a property takes; packed values share one.
  ghost function Heads(p: Proto, prop: Prop): nat {
    if prop.name !in p.fields then 0
    else if p.fields[prop.name].option == "repeated" && prop.value.List? then |prop.value.items|
    else 1
  }

  ghost function AllHeads(p: Proto, props: seq<Prop>): nat {
    if props == [] then 0 else Heads(p, props[0]) + AllHeads(p, props[1..])
  }

  ghost predicate Packed(p: Proto, prop: Prop) {
    prop.name in p.fields && p.fields[prop.name].option == "repeated" && IsSimple(p.fields[prop.name].kind)
  }

  lemma PropPassed(p: Proto, g: Globals, prop: Prop, b: seq<byte>, pos: nat)
    requires TypedProp(p, g, prop) && !Packed(p, prop) && At(b, pos, EncProp(p, g, prop))
    ensures PassAll(b, pos, Heads(p, prop)) == Some(pos + |EncProp(p, g, prop)|)
  {
    hide Pass, PassAll, Enc, EncTagged, Typed, TypedItems, TagBytes, IsSimple;
    PassNone(b, pos);
    if prop.name in p.fields {
      var f := p.fields[prop.name];
      if f.option == "repeated" {
        if prop.value.items != [] {
          TaggedPassed(p, g, f, prop.value.items, b, pos);
        }
      } else {
        ValuePassed(p, g, f.kind, f.tag, prop.value, b, pos);
      }
    }
  }

  // A reader who knows no schema passes over all values of a message without packed ones, to its last byte.
  lemma {:induction false} MessagePassed(p: Proto, g: Globals, props: seq<Prop>, b: seq<byte>, pos: nat)
    requires (forall i :: 0 <= i < |props| ==> TypedProp(p, g, props[i]) && !Packed(p, props[i]))
    requires At(b, pos, EncProps(p, g, props))
    ensures PassAll(b, pos, AllHeads(p, props)) == Some(pos + |EncProps(p, g, props)|)
    decreases |props|
  {
    hide Pass, PassAll, EncProp, TypedProp, Packed, Heads;
    if props == [] {
      PassNone(b, pos);
    } else {
      var s, rest := EncProp(p, g, props[0]), EncProps(p, g, props[1..]);
      AtSplit(b, pos, s, rest);
      PropPassed(p, g, props[0], b, pos);
      MessagePassed(p, g, props[1..], b, pos + |s|);
      PassAllThen(b, pos, Heads(p, props[0]), pos + |s|, AllHeads(p, props[1..]));
    }
  }

  // Packed values have the head of a single one: such a reader takes their count for a value and stops short.
  lemma PackedStopsShort(p: Proto, g: Globals, f: Field, items: seq<Value>, b: seq<byte>, pos: nat)
    requires f.tag < TAG_LIMIT && IsSimple(f.kind) && TypedItems(p, g, f.kind, items) && items != []
    requires At(b, pos, EncArray(p, g, f, items))
    ensures Pass(b, pos).Some? && Pass(b, pos).value < pos + |EncArray(p, g, f, items)|
  {
    hide *;
    var head, count, packed := TagBytes(f.kind, f.tag), UIntBytes(|items|), EncItems(p, g, f.kind, items);
    ArrayParts(p, g, f, items);
    FirstPacked(p, g, f.kind, items);
    HeadRead(f.kind, f.tag, count + packed, b, pos);
    AtSplit(b, pos + |head|, count, packed);
    ReadUIntAt(b, pos + |head|, |items|);
    SkipsOne(b, WireType(f.kind), pos + |head|, |items|, pos + |head| + |count|);
    PassIsSkip(b, pos);
  }

  lemma PassIsSkip(b: seq<byte>, pos: nat)
    requires ReadUInt(b, pos).Got?
    ensures Pass(b, pos) == Skip(b, ReadUInt(b, pos).value % 8, ReadUInt(b, pos).pos)
  {}

  lemma ArrayParts(p: Proto, g: Globals, f: Field, items: seq<Value>)
    requires IsSimple(f.kind)
    ensures EncArray(p, g, f, items)
         == TagBytes(f.kind, f.tag) + (UIntBytes(|items|) + EncItems(p, g, f.kind, items))
  {
    hide UIntBytes, EncItems, TagBytes;
  }

  lemma SkipsOne(b: seq<byte>, wire: nat, pos: nat, n: nat, q: nat)
    requires ReadUInt(b, pos) == Got(n, q) && (wire == 0 || wire == 1 || wire == 5)
    ensures Skip(b, wire, pos) == Some(if wire == 0 then q else if wire == 1 then pos + 8 else pos + 4)
  {}

  lemma FirstPacked(p: Proto, g: Globals, kind: string, items: seq<Value>)
    requires IsSimple(kind) && TypedItems(p, g, kind, items) && items != []
    ensures WireType(kind) == 0 || WireType(kind) == 1 || WireType(kind) == 5
    ensures |EncItems(p, g, kind, items)| >= if WireType(kind) == 1 then 8 else if WireType(kind) == 5 then 4 else 1
  {
    assert Typed(p, g, kind, items[0]);
    hide UIntBytes, EncProps, TypedProps, Zigzag;
    assert EncItems(p, g, kind, items) == Enc(p, g, kind, items[0]) + EncItems(p, g, kind, items[1..]);
  }

  /* ---------- storing ---------- */

  ghost predicate Lacks(acc: seq<Prop>, name: string) {
    forall i :: 0 <= i < |acc| ==> acc[i].name != name
  }

  lemma {:induction false} PutNew(acc: seq<Prop>, name: string, v: Value)
    requires Lacks(acc, name)
    ensures Put(acc, name, v) == acc + [Prop(name, v)]
  {
    if acc != [] {
      PutNew(acc[1..], name, v);
      assert acc == [acc[0]] + acc[1..];
    }
  }

  lemma {:induction false} ExtendNew(acc: seq<Prop>, name: string, vs: seq<Value>)
    requires Lacks(acc, name)
    ensures Extend(acc, name, vs) == acc + [Prop(name, List(vs))]
  {
    if acc != [] {
      ExtendNew(acc[1..], name, vs);
      assert acc == [acc[0]] + acc[1..];
    }
  }

  lemma {:induction false} ExtendOld(acc: seq<Prop>, name: string, us: seq<Value>, vs: seq<Value>)
    requires Lacks(acc, name)
    ensures Extend(acc + [Prop(name, List(us))], name, vs) == acc + [Prop(name, List(us + vs))]
  {
    var old_ := acc + [Prop(name, List(us))];
    if acc != [] {
      ExtendOld(acc[1..], name, us, vs);
      assert old_[1..] == acc[1..] + [Prop(name, List(us))];
      assert acc == [acc[0]] + acc[1..];
    }
  }

  /* ---------- reading back ---------- */

  // The head of a field.
  lemma ReadHeadAt(p: Proto, name: string, rest: seq<byte>, b: seq<byte>, pos: nat)
    requires Indexed(p) && name in p.fields && name != "" && p.fields[name].tag < TAG_LIMIT
    requires At(b, pos, TagBytes(p.fields[name].kind, p.fields[name].tag) + rest)
    ensures ReadsHead(p, name, b, pos, pos + |TagBytes(p.fields[name].kind, p.fields[name].tag)|)
    ensures At(b, pos + |TagBytes(p.fields[name].kind, p.fields[name].tag)|, rest)
  {
    var f := p.fields[name];
    AtSplit(b, pos, TagBytes(f.kind, f.tag), rest);
    ReadUIntAt(b, pos, f.tag * 8 + WireType(f.kind));
    HeadName(p, name);
  }

  ghost predicate ReadsHead(p: Proto, name: string, b: seq<byte>, pos: nat, q: nat) {
    ReadUInt(b, pos).Got? && ReadUInt(b, pos).pos == q && NameOf(p, ReadUInt(b, pos).value) == Some(name)
  }

  // One turn of the loop that reads properties.
  lemma ReadOne(p: Proto, g: Globals, name: string, vs: seq<Value>, b: seq<byte>, pos: nat, q: nat, next: nat,
                end: nat, acc: seq<Prop>)
    requires pos < end && name in p.fields && ReadsHead(p, name, b, pos, q)
    requires ReadField(p, g, p.fields[name], b, q) == Got(vs, next)
    ensures ReadProps(p, g, b, pos, end, acc) == ReadProps(p, g, b, next, end, Store(acc, name, p.fields[name], vs))
  {
    hide ReadField, ReadUInt, NameOf, Store;
  }

  // A single value of any type.
  lemma {:induction false} ReadPropAt(p: Proto, g: Globals, kind: string, v: Value, b: seq<byte>, pos: nat)
    requires AllIndexed(p, g) && Typed(p, g, kind, v) && At(b, pos, Enc(p, g, kind, v))
    ensures ReadProp(p, g, kind, b, pos) == Got(Kept(p, g, kind, v), pos + |Enc(p, g, kind, v)|)
    decreases v, 0
  {
    hide ReadProps, ReadUInt, UIntBytes, EncProps, KeptProps, AllIndexed, ReadSimple;
    if IsNested(kind) {
      var m := Find(p, g, kind).value;
      var body := EncProps(m, g, v.props);
      FoundIndexed(p, g, kind);
      AtSplit(b, pos, UIntBytes(|body|), body);
      ReadUIntAt(b, pos, |body|);
      var q := pos + |UIntBytes(|body|)|;
      ReadPropsAt(m, g, v.props, b, q, []);
      assert [] + KeptProps(m, g, v.props) == KeptProps(m, g, v.props);
    } else {
      ReadSimpleAt(p, g, kind, v, b, pos);
    }
  }

  lemma KeptNext(p: Proto, g: Globals, kind: string, items: seq<Value>, done: seq<Value>)
    requires items != []
    ensures done + [Kept(p, g, kind, items[0])] + KeptItems(p, g, kind, items[1..]) ==
              done + KeptItems(p, g, kind, items)
  {}

  lemma KeptNone(p: Proto, g: Globals, kind: string, done: seq<Value>)
    ensures done + KeptItems(p, g, kind, []) == done
  {}

  // The items of a repeated field that is not packed: one head each.
  lemma {:induction false} ReadTaggedAt(p: Proto, g: Globals, name: string, items: seq<Value>, done: seq<Value>,
                                        b: seq<byte>, pos: nat, end: nat, acc: seq<Prop>)
    requires AllIndexed(p, g) && name in p.fields && name != "" && p.fields[name].tag < TAG_LIMIT
    requires p.fields[name].option == "repeated" && !IsSimple(p.fields[name].kind)
    requires TypedItems(p, g, p.fields[name].kind, items) && Lacks(acc, name)
    requires At(b, pos, EncTagged(p, g, p.fields[name], items))
    requires pos + |EncTagged(p, g, p.fields[name], items)| <= end
    ensures ReadProps(p, g, b, pos, end, acc + [Prop(name, List(done))])
         == ReadProps(p, g, b, pos + |EncTagged(p, g, p.fields[name], items)|, end,
                      acc + [Prop(name, List(done + KeptItems(p, g, p.fields[name].kind, items)))])
    decreases items, 0
  {
    hide ReadProps, ReadProp, Indexed, Kept, KeptItems, Enc, Extend, ReadsHead, AllIndexed, NameOf, ReadUInt,
         UIntBytes, Lacks, Typed;
    var f := p.fields[name];
    if items == [] {
      KeptNone(p, g, f.kind, done);
    } else {
      var rest := EncTagged(p, g, f, items[1..]);
      var s := Enc(p, g, f.kind, items[0]);
      IndexedSelf(p, g);
      ReadHeadAt(p, name, s + rest, b, pos);
      var q := pos + |TagBytes(f.kind, f.tag)|;
      AtSplit(b, q, s, rest);
      ReadPropAt(p, g, f.kind, items[0], b, q);
      var v := Kept(p, g, f.kind, items[0]);
      ReadOne(p, g, name, [v], b, pos, q, q + |s|, end, acc + [Prop(name, List(done))]);
      ExtendOld(acc, name, done, [v]);
      ReadTaggedAt(p, g, name, items[1..], done + [v], b, q + |s|, end, acc);
      KeptNext(p, g, f.kind, items, done);
    }
  }

  lemma IndexedSelf(p: Proto, g: Globals)
    requires AllIndexed(p, g)
    ensures Indexed(p)
  {}

  lemma ReadSingleAt(p: Proto, g: Globals, name: string, v: Value, b: seq<byte>, pos: nat, end: nat, acc: seq<Prop>)
    requires AllIndexed(p, g) && name in p.fields && name != "" && p.fields[name].tag < TAG_LIMIT
    requires p.fields[name].option == "repeated" ==> !IsSimple(p.fields[name].kind)
    requires Typed(p, g, p.fields[name].kind, v) && Lacks(acc, name)
    requires At(b, pos, TagBytes(p.fields[name].kind, p.fields[name].tag) + Enc(p, g, p.fields[name].kind, v))
    requires pos < end
    ensures var f := p.fields[name];
            var kept := Kept(p, g, f.kind, v);
            ReadProps(p, g, b, pos, end, acc)
            == ReadProps(p, g, b, pos + |TagBytes(f.kind, f.tag)| + |Enc(p, g, f.kind, v)|, end,
                         acc + [Prop(name, if f.option == "repeated" then List([kept]) else kept)])
    decreases v, 1
  {
    hide ReadProps, ReadProp, Indexed, Kept, Enc, Extend, ReadsHead, AllIndexed, NameOf, ReadUInt, UIntBytes;
    var f := p.fields[name];
    var s := Enc(p, g, f.kind, v);
    IndexedSelf(p, g);
    ReadHeadAt(p, name, s, b, pos);
    var q := pos + |TagBytes(f.kind, f.tag)|;
    ReadPropAt(p, g, f.kind, v, b, q);
    var kept := Kept(p, g, f.kind, v);
    ReadOne(p, g, name, [kept], b, pos, q, q + |s|, end, acc);
    PutNew(acc, name, kept);
    ExtendNew(acc, name, [kept]);
  }

  lemma {:induction false} KeptSimple(p: Proto, g: Globals, kind: string, items: seq<Value>)
    requires !IsNested(kind)
    ensures KeptItems(p, g, kind, items) == items
  {
    if items != [] {
      KeptSimple(p, g, kind, items[1..]);
    }
  }

  lemma ReadPackedAt(p: Proto, g: Globals, name: string, items: seq<Value>, b: seq<byte>, pos: nat, end: nat,
                     acc: seq<Prop>)
    requires AllIndexed(p, g) && name in p.fields && name != "" && p.fields[name].tag < TAG_LIMIT
    requires p.fields[name].option == "repeated" && IsSimple(p.fields[name].kind)
    requires TypedItems(p, g, p.fields[name].kind, items) && Lacks(acc, name)
    requires At(b, pos, EncArray(p, g, p.fields[name], items)) && pos < end
    ensures ReadProps(p, g, b, pos, end, acc)
         == ReadProps(p, g, b, pos + |EncArray(p, g, p.fields[name], items)|, end, acc + [Prop(name, List(items))])
  {
    hide ReadProps, ReadItems, Indexed, EncItems, Extend, ReadsHead, AllIndexed, NameOf, ReadUInt, UIntBytes,
         TypedItems;
    var f := p.fields[name];
    var count, s := UIntBytes(|items|), EncItems(p, g, f.kind, items);
    IndexedSelf(p, g);
    ReadHeadAt(p, name, count + s, b, pos);
    var q := pos + |TagBytes(f.kind, f.tag)|;
    AtSplit(b, q, count, s);
    ReadUIntAt(b, q, |items|);
    ReadItemsAt(p, g, f.kind, items, b, q + |count|);
    ReadOne(p, g, name, items, b, pos, q, q + |count| + |s|, end, acc);
    ExtendNew(acc, name, items);
  }

  lemma ReadArrayAt(p: Proto, g: Globals, name: string, items: seq<Value>, b: seq<byte>, pos: nat, end: nat,
                    acc: seq<Prop>)
    requires AllIndexed(p, g) && name in p.fields && name != "" && p.fields[name].tag < TAG_LIMIT
    requires p.fields[name].option == "repeated" && !IsSimple(p.fields[name].kind) && items != []
    requires TypedItems(p, g, p.fields[name].kind, items) && Lacks(acc, name)
    requires At(b, pos, EncTagged(p, g, p.fields[name], items)) && pos + |EncTagged(p, g, p.fields[name], items)| <= end
    ensures ReadProps(p, g, b, pos, end, acc)
         == ReadProps(p, g, b, pos + |EncTagged(p, g, p.fields[name], items)|, end,
                      acc + [Prop(name, List(KeptItems(p, g, p.fields[name].kind, items)))])
    decreases items, 1
  {
    hide ReadProps, Indexed, Kept, Enc, AllIndexed, UIntBytes;
    var f := p.fields[name];
    var first := TagBytes(f.kind, f.tag) + Enc(p, g, f.kind, items[0]);
    var rest := EncTagged(p, g, f, items[1..]);
    assert EncTagged(p, g, f, items) == first + rest;
    AtSplit(b, pos, first, rest);
    ReadSingleAt(p, g, name, items[0], b, pos, end, acc);
    ReadTaggedAt(p, g, name, items[1..], [Kept(p, g, f.kind, items[0])], b, pos + |first|, end, acc);
  }

  // One property, whichever way its field is written.
  lemma ReadPropertyAt(p: Proto, g: Globals, prop: Prop, b: seq<byte>, pos: nat, end: nat, acc: seq<Prop>)
    requires AllIndexed(p, g) && TypedProp(p, g, prop) && Lacks(acc, prop.name)
    requires At(b, pos, EncProp(p, g, prop)) && pos + |EncProp(p, g, prop)| <= end
    ensures ReadProps(p, g, b, pos, end, acc)
         == ReadProps(p, g, b, pos + |EncProp(p, g, prop)|, end, acc + KeptProp(p, g, prop))
    decreases prop, 0
  {
    hide ReadProps, Indexed, Kept, Enc, EncTagged, EncItems, AllIndexed, UIntBytes, Typed, TypedItems, KeptItems;
    assert acc + [] == acc;
    if prop.name in p.fields {
      var f := p.fields[prop.name];
      if f.option != "repeated" {
        ReadSingleAt(p, g, prop.name, prop.value, b, pos, end, acc);
      } else if prop.value.items != [] {
        if IsSimple(f.kind) {
          ReadPackedAt(p, g, prop.name, prop.value.items, b, pos, end, acc);
          KeptSimple(p, g, f.kind, prop.value.items);
        } else {
          ReadArrayAt(p, g, prop.name, prop.value.items, b, pos, end, acc);
        }
      }
    }
  }

  // All the properties of a message.
  lemma {:induction false} ReadAllAt(p: Proto, g: Globals, props: seq<Prop>, b: seq<byte>, pos: nat, end: nat,
                                     acc: seq<Prop>)
    requires AllIndexed(p, g) && TypedProps(p, g, props)
    requires forall i :: 0 <= i < |props| ==> Lacks(acc, props[i].name)
    requires At(b, pos, EncProps(p, g, props)) && pos + |EncProps(p, g, props)| <= end
    ensures ReadProps(p, g, b, pos, end, acc)
         == ReadProps(p, g, b, pos + |EncProps(p, g, props)|, end, acc + KeptProps(p, g, props))
    decreases props, 0
  {
    hide ReadProps, Indexed, AllIndexed, EncProp, KeptProp, TypedProp;
    if props == [] {
      assert acc + [] == acc;
    } else {
      var s := EncProp(p, g, props[0]);
      var kept := KeptProp(p, g, props[0]);
      AtSplit(b, pos, s, EncProps(p, g, props[1..]));
      ReadPropertyAt(p, g, props[0], b, pos, end, acc);
      KeptName(p, g, props[0]);
      ReadAllAt(p, g, props[1..], b, pos + |s|, end, acc + kept);
      assert acc + kept + KeptProps(p, g, props[1..]) == acc + KeptProps(p, g, props);
    }
  }

  lemma KeptName(p: Proto, g: Globals, prop: Prop)
    ensures |KeptProp(p, g, prop)| <= 1
    ensures KeptProp(p, g, prop) != [] ==> KeptProp(p, g, prop)[0].name == prop.name
  {}

  lemma ReadPropsAt(p: Proto, g: Globals, props: seq<Prop>, b: seq<byte>, pos: nat, acc: seq<Prop>)
    requires AllIndexed(p, g) && TypedProps(p, g, props) && acc == []
    requires At(b, pos, EncProps(p, g, props))
    ensures ReadProps(p, g, b, pos, pos + |EncProps(p, g, props)|, acc)
         == Got(KeptProps(p, g, props), pos + |EncProps(p, g, props)|)
    decreases props, 1
  {
    var end := pos + |EncProps(p, g, props)|;
    ReadAllAt(p, g, props, b, pos, end, []);
    assert [] + KeptProps(p, g, props) == KeptProps(p, g, props);
  }

  // Decoding what was encoded under a parsed schema gives the message back and uses every byte.
  lemma DecodeEncode(schemas: map<string, Schema>, route: string, msg: seq<Prop>)
    requires route in schemas && TypedProps(ParsedAll(schemas)[route], ParsedAll(schemas), msg)
    ensures var g := ParsedAll(schemas);
            var bytes := EncProps(g[route], g, msg);
            ReadProps(g[route], g, bytes, 0, |bytes|, []) == Got(KeptProps(g[route], g, msg), |bytes|)
  {
    var g := ParsedAll(schemas);
    var bytes := EncProps(g[route], g, msg);
    forall k | k in g
      ensures Indexed(g[k])
    {
      ParsedIndexed(schemas[k].entries);
    }
    hide EncProps, ReadProps, KeptProps, TypedProps, Indexed;
    assert bytes[0..0 + |bytes|] == bytes;
    ReadPropsAt(g[route], g, msg, bytes, 0, []);
  }

  /* ---------- what comes back unchanged ---------- */

  // The schema knows every property, and no repeated field is empty, here and in the messages inside.
  ghost predicate Clean(p: Proto, g: Globals, kind: string, v: Value)
    decreases v
  {
    IsNested(kind) && Find(p, g, kind).Some? && v.Message? ==> CleanProps(Find(p, g, kind).value, g, v.props)
  }

  ghost predicate CleanProps(p: Proto, g: Globals, props: seq<Prop>)
    decreases props
  {
    forall i :: 0 <= i < |props| ==> CleanProp(p, g, props[i])
  }

  ghost predicate CleanProp(p: Proto, g: Globals, prop: Prop)
    decreases prop
  {
    prop.name in p.fields &&
    var f := p.fields[prop.name];
    if f.option == "repeated" then
      prop.value.List? && prop.value.items != [] && CleanItems(p, g, f.kind, prop.value.items)
    else Clean(p, g, f.kind, prop.value)
  }

  ghost predicate CleanItems(p: Proto, g: Globals, kind: string, items: seq<Value>)
    decreases items
  {
    forall i :: 0 <= i < |items| ==> Clean(p, g, kind, items[i])
  }

  lemma {:induction false} CleanIsKept(p: Proto, g: Globals, kind: string, v: Value)
    ensures Clean(p, g, kind, v) <==> Kept(p, g, kind, v) == v
    decreases v
  {
    if IsNested(kind) && Find(p, g, kind).Some? && v.Message? {
      CleanPropsAreKept(Find(p, g, kind).value, g, v.props);
    }
  }

  lemma {:induction false} CleanItemsAreKept(p: Proto, g: Globals, kind: string, items: seq<Value>)
    ensures |KeptItems(p, g, kind, items)| == |items|
    ensures CleanItems(p, g, kind, items) <==> KeptItems(p, g, kind, items) == items
    decreases items
  {
    if items != [] {
      var rest := items[1..];
      assert items == [items[0]] + rest;
      CleanIsKept(p, g, kind, items[0]);
      CleanItemsAreKept(p, g, kind, rest);
      hide Clean, Kept;
      assert CleanItems(p, g, kind, items) <==> Clean(p, g, kind, items[0]) && CleanItems(p, g, kind, rest);
      assert KeptItems(p, g, kind, items)[1..] == KeptItems(p, g, kind, rest);
    }
  }

  lemma CleanPropIsKept(p: Proto, g: Globals, prop: Prop)
    ensures CleanProp(p, g, prop) <==> KeptProp(p, g, prop) == [prop]
    decreases prop
  {
    if prop.name in p.fields {
      var f := p.fields[prop.name];
      if f.option != "repeated" {
        CleanIsKept(p, g, f.kind, prop.value);
      } else if prop.value.List? {
        CleanItemsAreKept(p, g, f.kind, prop.value.items);
      }
    }
  }

  // A message comes back as it was exactly when there is nothing in it to leave out.
  lemma {:induction false} CleanPropsAreKept(p: Proto, g: Globals, props: seq<Prop>)
    ensures |KeptProps(p, g, props)| <= |props|
    ensures CleanProps(p, g, props) <==> KeptProps(p, g, props) == props
    decreases props
  {
    if props != [] {
      var first, rest := KeptProp(p, g, props[0]), KeptProps(p, g, props[1..]);
      assert props == [props[0]] + props[1..];
      CleanPropIsKept(p, g, props[0]);
      CleanPropsAreKept(p, g, props[1..]);
      KeptName(p, g, props[0]);
      hide CleanProp, KeptProp;
      assert CleanProps(p, g, props) <==> CleanProp(p, g, props[0]) && CleanProps(p, g, props[1..]);
      if first + rest == props {
        assert |first| == 1 && first == [props[0]] && rest == props[1..] by {
          assert (first + rest)[|first|..] == rest;
        }
      }
    }
  }
}
