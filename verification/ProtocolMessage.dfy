/**
Messages on the wire: a flag byte, an id for requests and responses, a route for all but
responses, and the body.
*/
module ProtocolMessages {
  import opened Arith
  import opened Buffers
  import opened Options
  import opened ProtocolTexts
  import opened Varints

  const REQUEST := 0
  const NOTIFY := 1
  const RESPONSE := 2
  const PUSH := 3

  datatype Route = NoRoute | Code(code: nat) | Text(text: seq<unit>)

  datatype Message = Message(id: nat, kind: nat, compressRoute: bool, route: Route, body: seq<byte>, compressGzip: bool)

  predicate HasId(kind: nat) {
    kind == REQUEST || kind == RESPONSE
  }

  predicate HasRoute(kind: nat) {
    kind == REQUEST || kind == NOTIFY || kind == PUSH
  }

  method MsgHasId(kind: nat) returns (has: bool)
    ensures has == HasId(kind)
  {
    return kind == 0 || kind == 2;
  }

  method MsgHasRoute(kind: nat) returns (has: bool)
    ensures has == HasRoute(kind)
  {
    return kind == 0 || kind == 1 || kind == 3;
  }

  /* ---------- writing ---------- */

  function Flag(kind: nat, compressRoute: bool, compressGzip: bool): byte
    requires kind <= 3
  {
    kind * 2 + (if compressRoute then 1 else 0) + (if compressGzip then 16 else 0)
  }

  function RouteText(route: Route): seq<byte> {
    if route.Text? then TextBytes(route.text) else []
  }

  function RouteBytes(compressRoute: bool, route: Route): seq<byte> {
    if compressRoute then (if route.Code? then [route.code / 256 % 256, route.code % 256] else [])
    else [|RouteText(route)| % 256] + RouteText(route)
  }

  // The exceptions: an unknown type, a compressed route that is not a number or above 65535, and a
  // route of more than 255 bytes.
  predicate Encodable(m: Message) {
    && m.kind <= 3
    && (HasRoute(m.kind) ==>
          if m.compressRoute then m.route.Code? && m.route.code <= 0xffff else |RouteText(m.route)| <= 255)
  }

  function MessageBytes(m: Message): seq<byte>
    requires m.kind <= 3
  {
    [Flag(m.kind, m.compressRoute, m.compressGzip)]
    + ((if HasId(m.kind) then UIntBytes(m.id) else [])
       + ((if HasRoute(m.kind) then RouteBytes(m.compressRoute, m.route) else [])
          + m.body))
  }

  // The number of bytes that shifting a 32-bit number to 0 or below counts.
  function ShiftedBytes(x: int): nat {
    if x <= 0 then 1 else |UIntBytes(x)|
  }

  // The number of bytes of an id, by shifting: the shifts see 32 bits of it.
  method CaculateMsgIdBytes(num: nat) returns (len: nat)
    ensures len == ShiftedBytes(ToInt32(num))
    ensures num < 0x8000_0000 ==> len == |UIntBytes(num)|
  {
    len := 1;
    var id := ToInt32(num) / 128;
    while id > 0
      invariant (if id > 0 then len + |UIntBytes(id)| else len) == ShiftedBytes(ToInt32(num))
      decreases id
    {
      len := len + 1;
      id := id / 128;
    }
  }

  // The bytes that are made room for are those that writing the id takes exactly for these ids.
  lemma IdBytesExactly(num: nat)
    ensures ShiftedBytes(ToInt32(num)) == |UIntBytes(num)|
       <==> num < 0x8000_0000 || (num < 0x8_0000_0000 && ToInt32(num) >= 0x1000_0000)
  {
    var x := ToInt32(num);
    FiveBytes(num);
    if x > 0 {
      FiveBytes(x);
    }
    hide UIntBytes;
  }

  lemma FiveBytes(n: nat)
    ensures |UIntBytes(n)| <= 4 <==> n < 0x1000_0000
    ensures |UIntBytes(n)| <= 5 <==> n < 0x8_0000_0000
  {
    var n1, n2 := n / 128, n / 128 / 128;
    TwoBytes(n2 / 128);
    assert n >= 128 ==> |UIntBytes(n)| == 1 + |UIntBytes(n1)|;
    assert n1 >= 128 ==> |UIntBytes(n1)| == 1 + |UIntBytes(n2)|;
    assert n2 >= 128 ==> |UIntBytes(n2)| == 1 + |UIntBytes(n2 / 128)|;
  }

  lemma TwoBytes(n: nat)
    ensures |UIntBytes(n)| <= 1 <==> n < 128
    ensures |UIntBytes(n)| <= 2 <==> n < 128 * 128
  {}

  method EncodeMsgId(num: nat, buffer: array<byte>, start: nat) returns (offset: nat)
    requires start + |UIntBytes(num)| <= buffer.Length
    modifies buffer
    ensures offset == start + |UIntBytes(num)| && Wrote(old(buffer[..]), buffer[..], start, UIntBytes(num))
  {
    hide Wrote, UIntBytes;
    offset := start;
    var id := num;
    var more := true;
    ghost var done: seq<byte> := [];
    WroteNothing(buffer[..], start);
    RestAtEnds(num);
    while more
      invariant id >= 0 && offset == start + |done|
      invariant UIntBytes(num) == done + Rest(more, id)
      invariant more ==> offset < buffer.Length
      invariant Wrote(old(buffer[..]), buffer[..], start, done)
      decreases more, id
    {
      ghost var from, before := id, buffer[..];
      var tmp := id % 128;
      var next := id / 128;
      if next != 0 {
        tmp := tmp + 128;
      }
      buffer[offset] := tmp;
      WroteOne(before, offset, tmp);
      WroteThen(old(buffer[..]), before, buffer[..], start, done, [tmp]);
      offset := offset + 1;
      id := next;
      more := id != 0;
      RestAtEnds(from);
      RestAtEnds(id);
      OneByte(from, tmp);
      Pushed(done, tmp, Rest(more, id));
      done := done + [tmp];
    }
    RestAtEnds(id);
    assert done + [] == done;
  }

  method EncodeMsgFlag(kind: nat, compressRoute: bool, buffer: array<byte>, offset: nat, compressGzip: bool)
    returns (end: nat)
    requires kind <= 3 && offset < buffer.Length
    modifies buffer
    ensures end == offset + 1
    ensures Wrote(old(buffer[..]), buffer[..], offset, [Flag(kind, compressRoute, compressGzip)])
  {
    ghost var before := buffer[..];
    buffer[offset] := kind * 2 + (if compressRoute then 1 else 0);
    if compressGzip {
      buffer[offset] := buffer[offset] + 16;
    }
    WroteOne(before, offset, buffer[offset]);
    assert buffer[..] == before[offset := buffer[offset]];
    return offset + 1;
  }

  method EncodeMsgRoute(compressRoute: bool, route: Route, text: seq<byte>, buffer: array<byte>, offset: nat)
    returns (end: nat)
    requires if compressRoute then route.Code? else text == RouteText(route) && |text| <= 255
    requires offset + |RouteBytes(compressRoute, route)| <= buffer.Length
    modifies buffer
    ensures end == offset + |RouteBytes(compressRoute, route)|
    ensures Wrote(old(buffer[..]), buffer[..], offset, RouteBytes(compressRoute, route))
  {
    hide Wrote, RouteText;
    if compressRoute {
      end := WriteBytes(buffer, offset, [route.code / 256 % 256, route.code % 256]);
    } else {
      end := WriteBytes(buffer, offset, [|text|]);
      ghost var before := buffer[..];
      end := WriteBytes(buffer, end, text);
      WroteThen(old(buffer[..]), before, buffer[..], offset, [|text|], text);
    }
  }

  lemma JoinParts(b0: seq<byte>, b1: seq<byte>, b2: seq<byte>, b3: seq<byte>, b4: seq<byte>,
                  flag: seq<byte>, id: seq<byte>, route: seq<byte>, body: seq<byte>)
    requires Wrote(b0, b1, 0, flag) && Wrote(b1, b2, |flag|, id)
    requires Wrote(b2, b3, |flag| + |id|, route) && Wrote(b3, b4, |flag| + |id| + |route|, body)
    requires |b0| == |flag| + |id| + |route| + |body|
    ensures b4 == flag + (id + (route + body))
  {
    WroteThen(b2, b3, b4, |flag| + |id|, route, body);
    WroteThen(b1, b2, b4, |flag|, id, route + body);
    WroteThen(b0, b1, b4, 0, flag, id + (route + body));
  }

  // None is an exception. The buffer is as long as was computed before writing, and is filled exactly.
  method Encode(m: Message) returns (bytes: Option<seq<byte>>)
    requires m.id < 0x8000_0000
    ensures bytes.None? <==> !Encodable(m)
    ensures bytes.Some? ==> bytes.value == MessageBytes(m)
  {
    hide Wrote, UIntBytes, TextBytes;
    var idBytes := 0;
    var hasId := MsgHasId(m.kind);
    var hasRoute := MsgHasRoute(m.kind);
    if hasId {
      idBytes := CaculateMsgIdBytes(m.id);
    }
    var msgLen := 1 + idBytes;
    var text: seq<byte> := [];
    if hasRoute {
      if m.compressRoute {
        if !m.route.Code? {
          return None;
        }
        msgLen := msgLen + 2;
      } else {
        msgLen := msgLen + 1;
        if m.route.Text? {
          text := StrEncode(m.route.text);
          if |text| > 255 {
            return None;
          }
          msgLen := msgLen + |text|;
        }
      }
    }
    msgLen := msgLen + |m.body|;
    if m.kind > 3 {
      return None;
    }
    if hasRoute && m.compressRoute && m.route.code > 0xffff {
      return None;
    }
    var written := Write(m, text, msgLen);
    return Some(written);
  }

  method Write(m: Message, text: seq<byte>, msgLen: nat) returns (bytes: seq<byte>)
    requires Encodable(m) && msgLen == |MessageBytes(m)|
    requires HasRoute(m.kind) && !m.compressRoute ==> text == RouteText(m.route)
    ensures bytes == MessageBytes(m)
  {
    hide Wrote, UIntBytes, RouteBytes, RouteText, TextBytes, Flag;
    ghost var flag := [Flag(m.kind, m.compressRoute, m.compressGzip)];
    ghost var idPart := if HasId(m.kind) then UIntBytes(m.id) else [];
    ghost var routePart := if HasRoute(m.kind) then RouteBytes(m.compressRoute, m.route) else [];
    var buffer := new byte[msgLen];
    ghost var b0 := buffer[..];
    var offset := EncodeMsgFlag(m.kind, m.compressRoute, buffer, 0, m.compressGzip);
    ghost var b1 := buffer[..];
    WroteNothing(b1, offset);
    var hasId := MsgHasId(m.kind);
    if hasId {
      offset := EncodeMsgId(m.id, buffer, offset);
    }
    ghost var b2 := buffer[..];
    WroteNothing(b2, offset);
    var hasRoute := MsgHasRoute(m.kind);
    if hasRoute {
      offset := EncodeMsgRoute(m.compressRoute, m.route, text, buffer, offset);
    }
    ghost var b3 := buffer[..];
    offset := WriteBytes(buffer, offset, m.body);
    JoinParts(b0, b1, b2, b3, buffer[..], flag, idPart, routePart, m.body);
    return buffer[..];
  }

  /* ---------- reading ---------- */

  function ShiftLeft(x: nat, k: nat): int {
    ToInt32(if Pow(2, k % 32) > 0 then x * Pow(2, k % 32) else 0)
  }

  // A shift by k takes the 32 low bits of x times 2^k, and k counts modulo 32.
  lemma ShiftWraps(x: nat, k: nat)
    ensures -0x8000_0000 <= ShiftLeft(x, k) < 0x8000_0000
    ensures k < 32 ==> (x * Pow(2, k) - ShiftLeft(x, k)) % 0x1_0000_0000 == 0
    ensures ShiftLeft(x, k + 32) == ShiftLeft(x, k)
  {
    PowPositive(2, k % 32);
    hide Pow, ToInt32;
    assert (k + 32) % 32 == k % 32;
  }

  // The id from the i-th byte of it on, and the position after it.
  function IdFrom(b: seq<byte>, pos: nat, i: nat): (r: (int, nat))
    ensures pos < r.1
    decreases |b| - pos
  {
    var m := ByteAt(b, pos);
    var part := ShiftLeft(m % 128, 7 * i);
    if m >= 128 then
      var rest := IdFrom(b, pos + 1, i + 1);
      (part + rest.0, rest.1)
    else (part, pos + 1)
  }

  datatype Received = Received(id: int, kind: nat, compressRoute: bool, route: Route, body: seq<byte>,
                               compressGzip: bool)

  // The route and the position after it, which is not a number (-1) if the bytes end before the route.
  function RouteFrom(b: seq<byte>, pos: nat, compressRoute: bool): (Route, int) {
    if compressRoute then (Code(ByteAt(b, pos) * 256 + ByteAt(b, pos + 1)), pos + 2)
    else if pos >= |b| then (Text([]), -1)
    else (Text(TextFrom(Copied(b, pos + 1, b[pos]), 0)), pos + 1 + b[pos])
  }

  // None is an exception: a body of negative length.
  function MessageFrom(b: seq<byte>): Option<Received> {
    var flag := ByteAt(b, 0);
    var kind := flag / 2 % 8;
    var (id, afterId) := if HasId(kind) then IdFrom(b, 1, 0) else (0, 1);
    var (route, afterRoute) := if HasRoute(kind) then RouteFrom(b, afterId, flag % 2 == 1) else (NoRoute, afterId);
    if afterRoute > |b| then None
    else
      var body := if afterRoute < 0 then [] else b[afterRoute..];
      Some(Received(id, kind, flag % 2 == 1, route, body, flag / 16 % 2 == 1))
  }

  /* ---------- reading back ---------- */

  lemma PowSteps(i: nat)
    ensures Pow(2, 7 * (i + 1)) == Pow(2, 7 * i) * 128
  {
    PowAdd(2, 7 * i, 7);
    assert Pow(2, 7) == 128 by {
      assert Pow(2, 3) == 8;
      PowAdd(2, 3, 3);
      PowAdd(2, 6, 1);
    }
  }

  lemma PowTop()
    ensures Pow(2, 28) == 0x1000_0000
  {
    PowSteps(0);
    PowSteps(1);
    PowSteps(2);
    PowSteps(3);
  }

  lemma ShiftIsTimes(x: nat, i: nat, w: nat)
    requires i <= 4 && w == Pow(2, 7 * i) && w > 0 && x * w < 0x8000_0000
    ensures ShiftLeft(x, 7 * i) == x * w
  {
    hide Pow, ToInt32;
    assert 7 * i % 32 == 7 * i;
  }

  lemma IdParts(n: nat, w: nat)
    requires w > 0 && n * w < 0x8000_0000
    ensures (n % 128) * w < 0x8000_0000
    ensures n * w == (n % 128) * w + (n / 128) * (w * 128)
    ensures (n / 128) * (w * 128) < 0x8000_0000
    ensures n >= 128 ==> w < 0x100_0000
  {
    var q, r := n / 128, n % 128;
    assert n == q * 128 + r;
    MulAdd(w, q * 128, r);
    assert q * (w * 128) == (q * 128) * w;
    MulMono(0, r, w);
    MulMono(0, q * 128, w);
    if n >= 128 {
      MulMono(128, n, w);
    }
  }

  // The bytes of an id that is worth n * w, from its i-th byte on.
  lemma {:induction false} IdReadBack(before: seq<byte>, n: nat, after: seq<byte>, i: nat, w: nat)
    requires i <= 4 && w == Pow(2, 7 * i) && w > 0 && n * w < 0x8000_0000
    ensures IdFrom(before + UIntBytes(n) + after, |before|, i) == (n * w, |before| + |UIntBytes(n)|)
    decreases n
  {
    hide Pow, ShiftLeft, IdFrom;
    var b := before + UIntBytes(n) + after;
    assert ByteAt(b, |before|) == UIntBytes(n)[0];
    IdSteps(b, |before|, i);
    IdParts(n, w);
    ShiftIsTimes(n % 128, i, w);
    if n >= 128 {
      var first := n % 128 + 128;
      PowTop();
      PowSteps(i);
      IdReadBack(before + [first], n / 128, after, i + 1, w * 128);
      assert before + [first] + UIntBytes(n / 128) + after == b;
    }
  }

  lemma IdSteps(b: seq<byte>, pos: nat, i: nat)
    ensures var part := ShiftLeft(ByteAt(b, pos) % 128, 7 * i);
            IdFrom(b, pos, i) ==
            if ByteAt(b, pos) >= 128 then (part + IdFrom(b, pos + 1, i + 1).0, IdFrom(b, pos + 1, i + 1).1)
            else (part, pos + 1)
  {
    hide ShiftLeft;
  }

  lemma FlagReadBack(kind: nat, compressRoute: bool, compressGzip: bool)
    requires kind <= 3
    ensures var flag := Flag(kind, compressRoute, compressGzip);
            flag / 2 % 8 == kind && (flag % 2 == 1 <==> compressRoute) && (flag / 16 % 2 == 1 <==> compressGzip)
  {}

  lemma CopiedAre(before: seq<byte>, s: seq<byte>, after: seq<byte>)
    ensures Copied(before + s + after, |before|, |s|) == s
  {
    var b := before + s + after;
    forall i: nat | i < |s|
      ensures ByteAt(b, |before| + i) == s[i]
    {}
    assert forall i :: 0 <= i < |s| ==> Copied(b, |before|, |s|)[i] == s[i];
  }

  // A route that is written is read back; one that is not text is read as empty text.
  function ReadRoute(compressRoute: bool, route: Route): Route {
    if compressRoute then route else if route.Text? then route else Text([])
  }

  lemma CodeReadBack(before: seq<byte>, code: nat, after: seq<byte>)
    requires code <= 0xffff
    ensures RouteFrom(before + RouteBytes(true, Code(code)) + after, |before|, true) == (Code(code), |before| + 2)
  {
    var s := RouteBytes(true, Code(code));
    var b := before + s + after;
    assert ByteAt(b, |before|) == s[0] && ByteAt(b, |before| + 1) == s[1];
  }

  lemma TextReadBack(before: seq<byte>, text: seq<byte>, after: seq<byte>)
    requires |text| <= 255
    ensures RouteFrom(before + ([|text|] + text) + after, |before|, false) ==
              (Text(TextFrom(text, 0)), |before| + 1 + |text|)
  {
    hide TextFrom, Copied, RouteFrom, ByteAt;
    Regroup(before, |text|, text, after);
    CopiedAre(before + [|text|], text, after);
    RouteTextFrom(before + ([|text|] + text) + after, |before|, text);
  }

  lemma RouteTextFrom(b: seq<byte>, pos: nat, text: seq<byte>)
    requires pos < |b| && b[pos] == |text| && Copied(b, pos + 1, |text|) == text
    ensures RouteFrom(b, pos, false) == (Text(TextFrom(text, 0)), pos + 1 + |text|)
  {
    hide TextFrom, Copied;
  }

  lemma Regroup(before: seq<byte>, n: byte, text: seq<byte>, after: seq<byte>)
    ensures var b := before + ([n] + text) + after;
            b == before + [n] + text + after && |before| < |b| && b[|before|] == n && |before + [n]| == |before| + 1
  {}

  lemma TextIsRead(route: Route)
    ensures Text(TextFrom(RouteText(route), 0)) == ReadRoute(false, route)
  {
    if route.Text? {
      TextRoundTrip([], route.text);
      assert [] + TextBytes(route.text) == TextBytes(route.text);
    }
  }

  lemma RouteReadBack(before: seq<byte>, compressRoute: bool, route: Route, after: seq<byte>)
    requires if compressRoute then route.Code? && route.code <= 0xffff else |RouteText(route)| <= 255
    ensures var s := RouteBytes(compressRoute, route);
            RouteFrom(before + s + after, |before|, compressRoute) == (ReadRoute(compressRoute, route), |before| + |s|)
  {
    hide RouteFrom, TextFrom, RouteText;
    if compressRoute {
      CodeReadBack(before, route.code, after);
    } else {
      TextReadBack(before, RouteText(route), after);
      TextIsRead(route);
    }
  }

  // The parts of a message, each between what is before and after it.
  lemma Parts(flag: byte, id: seq<byte>, route: seq<byte>, body: seq<byte>)
    ensures var b := [flag] + (id + (route + body));
            && ByteAt(b, 0) == flag && |b| == 1 + |id| + |route| + |body|
            && b == [flag] + id + (route + body) && b == ([flag] + id) + route + body
            && b[1 + |id| + |route|..] == body
  {}

  // Decoding gives back the message, with id 0 and no route where its type has none.
  lemma MessageRoundTrip(m: Message)
    requires Encodable(m) && m.id < 0x8000_0000
    ensures MessageFrom(MessageBytes(m))
         == Some(Received(if m.kind == 0 || m.kind == 2 then m.id else 0, m.kind, m.compressRoute,
                          if m.kind == 0 || m.kind == 1 || m.kind == 3 then ReadRoute(m.compressRoute, m.route)
                          else NoRoute,
                          m.body, m.compressGzip))
  {
    hide IdFrom, RouteFrom, UIntBytes, RouteBytes, Flag, RouteText, TextBytes, ByteAt, ReadRoute;
    var flag := Flag(m.kind, m.compressRoute, m.compressGzip);
    var id := if HasId(m.kind) then UIntBytes(m.id) else [];
    var route := if HasRoute(m.kind) then RouteBytes(m.compressRoute, m.route) else [];
    Parts(flag, id, route, m.body);
    FlagReadBack(m.kind, m.compressRoute, m.compressGzip);
    if HasId(m.kind) {
      assert Pow(2, 7 * 0) == 1;
      IdReadBack([flag], m.id, route + m.body, 0, 1);
    }
    if HasRoute(m.kind) {
      RouteReadBack([flag] + id, m.compressRoute, m.route, m.body);
    }
  }

  /* ---------- the decoder ---------- */

  method Decode(buffer: seq<byte>) returns (message: Option<Received>)
    ensures message == MessageFrom(buffer)
  {
    hide IdFrom, RouteFrom;
    var offset: int := 0;
    var id := 0;
    var route := NoRoute;
    var flag := ByteAt(buffer, 0);
    offset := offset + 1;
    var compressRoute := flag % 2 == 1;
    var kind := flag / 2 % 8;
    var compressGzip := flag / 16 % 2 == 1;
    if HasId(kind) {
      id, offset := DecodeId(buffer, offset);
    }
    if HasRoute(kind) {
      route, offset := DecodeRoute(buffer, offset, compressRoute);
    }
    // an offset that is not a number leaves no body
    if offset < 0 {
      return Some(Received(id, kind, compressRoute, route, [], compressGzip));
    }
    var bodyLen := |buffer| - offset;
    if bodyLen < 0 {
      return None;
    }
    return Some(Received(id, kind, compressRoute, route, buffer[offset..], compressGzip));
  }

  method DecodeRoute(buffer: seq<byte>, start: nat, compressRoute: bool) returns (route: Route, offset: int)
    ensures (route, offset) == RouteFrom(buffer, start, compressRoute)
  {
    hide TextFrom, Copied;
    offset := start;
    if compressRoute {
      route := Code(ByteAt(buffer, start) * 256 + ByteAt(buffer, start + 1));
      offset := offset + 2;
    } else if offset >= |buffer| {
      return Text([]), -1;
    } else {
      var routeLen := buffer[start];
      offset := offset + 1;
      if routeLen > 0 {
        var text := StrDecode(Copied(buffer, start + 1, routeLen));
        route := Text(text);
      } else {
        route := Text([]);
        NoText(buffer, start + 1);
      }
      offset := offset + routeLen;
    }
  }

  lemma NoText(b: seq<byte>, pos: nat)
    ensures TextFrom(Copied(b, pos, 0), 0) == []
  {}

  method DecodeId(buffer: seq<byte>, start: nat) returns (id: int, offset: nat)
    ensures (id, offset) == IdFrom(buffer, start, 0)
  {
    hide ShiftLeft;
    id, offset := 0, start;
    var i := 0;
    var m := 128;
    while m >= 128
      invariant i >= 0 && i == offset - start
      invariant IdFrom(buffer, start, 0)
             == if m >= 128 then (id + IdFrom(buffer, offset, i).0, IdFrom(buffer, offset, i).1) else (id, offset)
      decreases m >= 128, |buffer| - offset
    {
      m := ByteAt(buffer, offset);
      id := id + ShiftLeft(m % 128, 7 * i);
      offset := offset + 1;
      i := i + 1;
    }
  }
}
