/**
Integers of variable length: seven bits a byte, the low ones first; signed ones zigzag.
*/
module Varints {
  import opened Options

  type byte = n: int | 0 <= n < 256

  // What encodeUInt32 writes for n.
  function UIntBytes(n: nat): (s: seq<byte>)
    ensures s != []
  {
    if n < 128 then [n] else [n % 128 + 128] + UIntBytes(n / 128)
  }

  // A number as the shift operators see it.
  function ToInt32(n: nat): (x: int)
    ensures n < 0x8000_0000 ==> x == n
    ensures -0x8000_0000 <= x < 0x8000_0000 && (n - x) % 0x1_0000_0000 == 0
  {
    var u := n % 0x1_0000_0000;
    if u < 0x8000_0000 then u else u - 0x1_0000_0000
  }

  function Zigzag(n: int): nat {
    if n < 0 then -n * 2 - 1 else n * 2
  }

  function Unzigzag(n: nat): int {
    if n % 2 == 1 then -((n + 1) / 2) else n / 2
  }

  // The value of the bytes up to the first one below 128.
  function UIntValue(s: seq<byte>): nat {
    if s == [] then 0
    else if s[0] < 128 then s[0]
    else s[0] - 128 + 128 * UIntValue(s[1..])
  }

  lemma {:induction false} UIntRoundTrip(n: nat)
    ensures UIntValue(UIntBytes(n)) == n
    ensures forall i :: 0 <= i < |UIntBytes(n)| - 1 ==> UIntBytes(n)[i] >= 128
    ensures UIntBytes(n)[|UIntBytes(n)| - 1] < 128
    decreases n
  {
    if n >= 128 {
      UIntRoundTrip(n / 128);
      assert UIntBytes(n)[1..] == UIntBytes(n / 128);
    }
  }

  lemma ZigzagRoundTrip(n: int)
    ensures Unzigzag(Zigzag(n)) == n
  {}

  // Zigzag reaches every number, so small magnitudes of either sign are short.
  lemma ZigzagOnto(n: nat)
    ensures Zigzag(Unzigzag(n)) == n
  {}

  lemma OneByte(n: nat, b: byte)
    requires b == if n / 128 != 0 then n % 128 + 128 else n % 128
    ensures UIntBytes(n) == [b] + Rest(n / 128 != 0, n / 128)
  {}

  ghost function Rest(more: bool, n: nat): seq<byte> {
    if more then UIntBytes(n) else []
  }

  lemma RestAtEnds(n: nat)
    ensures [] + Rest(true, n) == UIntBytes(n) && Rest(false, n) == []
  {}

  lemma Pushed(s: seq<byte>, b: byte, t: seq<byte>)
    ensures s + ([b] + t) == (s + [b]) + t
  {}

  method EncodeUInt32(num: int) returns (result: Option<seq<byte>>)
    ensures result == if num < 0 then None else Some(UIntBytes(num))
  {
    hide UIntBytes, Rest;
    var n := num;
    if n < 0 {
      return None;
    }
    var bytes: seq<byte> := [];
    var more := true;
    RestAtEnds(n);
    while more
      invariant n >= 0
      invariant UIntBytes(num) == bytes + Rest(more, n)
      decreases more, n
    {
      ghost var before, from := bytes, n;
      var tmp := n % 128;
      var next := n / 128;
      if next != 0 {
        tmp := tmp + 128;
      }
      bytes := bytes + [tmp];
      n := next;
      more := n != 0;
      RestAtEnds(from);
      OneByte(from, tmp);
      Pushed(before, tmp, Rest(more, n));
    }
    RestAtEnds(n);
    assert bytes + [] == bytes;
    return Some(bytes);
  }

  method EncodeSInt32(num: int) returns (result: Option<seq<byte>>)
    ensures result == Some(UIntBytes(Zigzag(num)))
  {
    var n := if num < 0 then -num * 2 - 1 else num * 2;
    result := EncodeUInt32(n);
  }

  method DecodeUInt32(bytes: seq<byte>) returns (n: nat)
    ensures n == UIntValue(bytes)
  {
    n := 0;
    var weight := 1;
    for i := 0 to |bytes|
      invariant weight >= 1
      invariant n + weight * UIntValue(bytes[i..]) == UIntValue(bytes)
    {
      var m := bytes[i];
      assert bytes[i..][1..] == bytes[i + 1..];
      NextByte(n, weight, m, UIntValue(bytes[i + 1..]));
      n := n + (m % 128) * weight;
      if m < 128 {
        return;
      }
      weight := weight * 128;
    }
  }

  lemma NextByte(n: nat, weight: nat, m: byte, rest: nat)
    ensures m >= 128 ==> n + (m % 128) * weight + (weight * 128) * rest == n + weight * (m - 128 + 128 * rest)
    ensures m < 128 ==> n + (m % 128) * weight == n + weight * m
    ensures (m % 128) * weight >= 0
  {
    var low := m % 128;
    assert low == if m < 128 then m else m - 128;
  }

  method DecodeSInt32(bytes: seq<byte>) returns (n: int)
    ensures n == Unzigzag(UIntValue(bytes))
  {
    var v := DecodeUInt32(bytes);
    var flag: int := if v % 2 == 1 then -1 else 1;
    n := ((v % 2 + v) / 2) * flag;
  }
}
