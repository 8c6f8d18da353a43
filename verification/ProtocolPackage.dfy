/**
Packages on the wire: a type, a length in three bytes, and a body.
*/
module ProtocolPackages {
  import opened Buffers
  import opened Options
  import opened ProtocolTexts
  import opened Varints

  // A body may be missing; decoding gives a missing body for an empty one.
  datatype Package = Package(kind: int, body: Option<seq<byte>>)

  // One package comes unwrapped, any other number as a list.
  datatype Decoded = One(package: Package) | Many(packages: seq<Package>)

  const TYPE_DATA := 4

  function BodyOf(p: Package): seq<byte> {
    if p.body.None? then [] else p.body.value
  }

  // The length as far as it fits into three bytes, the greatest one first.
  function Head(kind: int, length: nat): (s: seq<byte>)
    ensures |s| == 4
  {
    [kind % 256, length / 65536 % 256, length / 256 % 256, length % 256]
  }

  function PackageBytes(p: Package): seq<byte> {
    Head(p.kind, |BodyOf(p)|) + BodyOf(p)
  }

  function Concat(ps: seq<Package>): seq<byte> {
    if ps == [] then [] else PackageBytes(ps[0]) + Concat(ps[1..])
  }

  function LengthAt(b: seq<byte>, pos: nat): nat {
    ByteAt(b, pos + 1) * 65536 + ByteAt(b, pos + 2) * 256 + ByteAt(b, pos + 3)
  }

  // A body that runs past the end is filled up with zeros.
  function PackageAt(b: seq<byte>, pos: nat): Package {
    var length := LengthAt(b, pos);
    Package(ByteAt(b, pos), if length > 0 then Some(Copied(b, pos + 4, length)) else None)
  }

  function PackagesFrom(b: seq<byte>, pos: nat): seq<Package>
    decreases |b| - pos
  {
    if pos >= |b| then [] else [PackageAt(b, pos)] + PackagesFrom(b, pos + 4 + LengthAt(b, pos))
  }

  function Wrapped(ps: seq<Package>): Decoded {
    if |ps| == 1 then One(ps[0]) else Many(ps)
  }

  // What is left of a package: an 8-bit type, and no body if it is empty.
  function Received(p: Package): Package {
    Package(p.kind % 256, if BodyOf(p) == [] then None else Some(BodyOf(p)))
  }

  function ReceivedAll(ps: seq<Package>): seq<Package> {
    seq(|ps|, i requires 0 <= i < |ps| => Received(ps[i]))
  }

  lemma ThreeBytes(n: nat)
    requires n < 0x100_0000
    ensures n / 65536 % 256 * 65536 + n / 256 % 256 * 256 + n % 256 == n
  {
    var q := n / 256;
    assert n == q * 256 + n % 256;
    assert q / 256 == n / 65536;
    assert q == q / 256 * 256 + q % 256;
  }

  lemma PackageRoundTrip(before: seq<byte>, p: Package, after: seq<byte>)
    requires |BodyOf(p)| < 0x100_0000
    ensures PackageAt(before + PackageBytes(p) + after, |before|) == Received(p)
    ensures LengthAt(before + PackageBytes(p) + after, |before|) == |BodyOf(p)|
  {
    var b := before + PackageBytes(p) + after;
    var s := PackageBytes(p);
    assert forall k: nat :: k < |s| ==> ByteAt(b, |before| + k) == s[k];
    assert ByteAt(b, |before|) == s[0] && ByteAt(b, |before| + 1) == s[1];
    assert ByteAt(b, |before| + 2) == s[2] && ByteAt(b, |before| + 3) == s[3];
    ThreeBytes(|BodyOf(p)|);
    forall i: nat | i < |BodyOf(p)|
      ensures ByteAt(b, |before| + 4 + i) == BodyOf(p)[i]
    {
      assert ByteAt(b, |before| + (4 + i)) == s[4 + i];
    }
    assert Copied(b, |before| + 4, |BodyOf(p)|) == BodyOf(p);
  }

  // Packages put one behind the other are all taken apart again, in order and to the last byte.
  lemma {:induction false} PackagesRoundTrip(before: seq<byte>, ps: seq<Package>)
    requires forall i :: 0 <= i < |ps| ==> |BodyOf(ps[i])| < 0x100_0000
    ensures PackagesFrom(before + Concat(ps), |before|) == ReceivedAll(ps)
    decreases |ps|
  {
    hide PackageAt, LengthAt, PackageBytes, Received, PackagesFrom, ReceivedAll, Concat;
    if ps == [] {
      NoPackages(before);
    } else {
      var first, rest := PackageBytes(ps[0]), Concat(ps[1..]);
      FirstPackage(before, ps);
      PackageRoundTrip(before, ps[0], rest);
      PackagesRoundTrip(before + first, ps[1..]);
      PackagesStep(before + first + rest, |before|);
      PackageLength(ps[0]);
      FirstReceived(ps);
    }
  }

  lemma NoPackages(before: seq<byte>)
    ensures PackagesFrom(before + Concat([]), |before|) == ReceivedAll([])
  {}

  lemma FirstPackage(before: seq<byte>, ps: seq<Package>)
    requires ps != []
    ensures before + Concat(ps) == before + PackageBytes(ps[0]) + Concat(ps[1..])
    ensures |before| < |before + Concat(ps)|
  {}

  lemma PackagesStep(b: seq<byte>, pos: nat)
    requires pos < |b|
    ensures PackagesFrom(b, pos) == [PackageAt(b, pos)] + PackagesFrom(b, pos + 4 + LengthAt(b, pos))
  {}

  lemma PackageLength(p: Package)
    ensures |PackageBytes(p)| == 4 + |BodyOf(p)|
  {}

  lemma FirstReceived(ps: seq<Package>)
    requires ps != []
    ensures ReceivedAll(ps) == [Received(ps[0])] + ReceivedAll(ps[1..])
  {}

  method Encode(kind: int, body: Option<seq<byte>>) returns (bytes: seq<byte>)
    ensures bytes == PackageBytes(Package(kind, body))
  {
    hide Wrote;
    var length := if body.Some? then |body.value| else 0;
    var buffer := new byte[4 + length];
    var index := 0;
    buffer[index] := kind % 256;
    index := index + 1;
    buffer[index] := length / 65536 % 256;
    index := index + 1;
    buffer[index] := length / 256 % 256;
    index := index + 1;
    buffer[index] := length % 256;
    index := index + 1;
    ghost var head := buffer[..];
    assert head[..4] == Head(kind, length);
    if body.Some? {
      index := WriteBytes(buffer, index, body.value);
      HeadKept(head, buffer[..], body.value);
    }
    return buffer[..];
  }

  lemma HeadKept(head: seq<byte>, whole: seq<byte>, body: seq<byte>)
    requires |head| == 4 + |body| && Wrote(head, whole, 4, body)
    ensures whole == head[..4] + body
  {}

  method Decode(buffer: seq<byte>) returns (decoded: Decoded)
    ensures decoded == Wrapped(PackagesFrom(buffer, 0))
  {
    hide PackageAt, LengthAt;
    var offset := 0;
    var rs: seq<Package> := [];
    while offset < |buffer|
      invariant PackagesFrom(buffer, 0) == rs + PackagesFrom(buffer, offset)
      decreases |buffer| - offset
    {
      var p, next := DecodeOne(buffer, offset);
      ghost var rest := PackagesFrom(buffer, next);
      assert rs + ([p] + rest) == rs + [p] + rest;
      rs := rs + [p];
      offset := next;
    }
    return if |rs| == 1 then One(rs[0]) else Many(rs);
  }

  // One turn of the loop.
  method DecodeOne(buffer: seq<byte>, start: nat) returns (p: Package, offset: nat)
    requires start < |buffer|
    ensures p == PackageAt(buffer, start) && offset == start + 4 + LengthAt(buffer, start)
  {
    offset := start;
    var kind := buffer[offset];
    offset := offset + 1;
    var high := ByteAt(buffer, offset);
    offset := offset + 1;
    var middle := ByteAt(buffer, offset);
    offset := offset + 1;
    var length: nat := high * 65536 + middle * 256 + ByteAt(buffer, offset);
    offset := offset + 1;
    var body: Option<seq<byte>> := None;
    if length > 0 {
      var copy: seq<byte> := [];
      for i := 0 to length
        invariant copy == Copied(buffer, offset, i)
      {
        copy := copy + [ByteAt(buffer, offset + i)];
      }
      body := Some(copy);
    }
    offset := offset + length;
    p := Package(kind, body);
  }

  // What a batch puts on the socket.
  method SendBatch(msgs: seq<seq<byte>>) returns (raw: seq<byte>)
    ensures raw == Concat(DataPackages(msgs))
  {
    var rs: seq<seq<byte>> := [];
    for i := 0 to |msgs|
      invariant |rs| == i && forall j :: 0 <= j < i ==> rs[j] == PackageBytes(Package(TYPE_DATA, Some(msgs[j])))
    {
      var src := Encode(TYPE_DATA, Some(msgs[i]));
      rs := rs + [src];
    }
    raw := [];
    var i := |rs|;
    while i > 0
      invariant 0 <= i <= |msgs| && raw == Concat(DataPackages(msgs)[i..])
    {
      i := i - 1;
      raw := rs[i] + raw;
      assert DataPackages(msgs)[i..][1..] == DataPackages(msgs)[i + 1..];
    }
    assert DataPackages(msgs)[0..] == DataPackages(msgs);
  }

  function DataPackages(msgs: seq<seq<byte>>): (ps: seq<Package>)
    ensures |ps| == |msgs|
  {
    seq(|msgs|, i requires 0 <= i < |msgs| => Package(TYPE_DATA, Some(msgs[i])))
  }

  lemma AllReceived(ps: seq<Package>)
    requires forall i :: 0 <= i < |ps| ==> ps[i].kind == TYPE_DATA && BodyOf(ps[i]) != []
    ensures ReceivedAll(ps) == ps
  {}

  // The receiver of a batch of non-empty messages gets exactly those messages.
  lemma BatchArrives(msgs: seq<seq<byte>>)
    requires forall i :: 0 <= i < |msgs| ==> 0 < |msgs[i]| < 0x100_0000
    ensures PackagesFrom(Concat(DataPackages(msgs)), 0) == DataPackages(msgs)
    ensures forall i :: 0 <= i < |msgs| ==> DataPackages(msgs)[i] == Package(4, Some(msgs[i]))
  {
    hide PackagesFrom, Concat, ReceivedAll;
    var ps := DataPackages(msgs);
    PackagesRoundTrip([], ps);
    assert [] + Concat(ps) == Concat(ps);
    AllReceived(ps);
  }
}
