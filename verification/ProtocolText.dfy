/**
Strings on the wire: every 16-bit unit of a string becomes one, two or three bytes.
*/
module ProtocolTexts {
  import opened Buffers
  import opened Varints

  type unit = n: int | 0 <= n < 0x1_0000

  function UnitBytes(c: unit): (s: seq<byte>)
    ensures 1 <= |s| <= 3
  {
    if c <= 0x7f then [c]
    else if c <= 0x7ff then [0xc0 + c / 64, 0x80 + c % 64]
    else [0xe0 + c / 4096, 0x80 + c / 64 % 64, 0x80 + c % 64]
  }

  function TextBytes(s: seq<unit>): seq<byte> {
    if s == [] then [] else UnitBytes(s[0]) + TextBytes(s[1..])
  }

  // Past the end of a byte array there is undefined, which counts as 0 in the bit operations.
  function ByteAt(b: seq<byte>, i: nat): byte {
    if i < |b| then b[i] else 0
  }

  // A copy of n bytes, with zeros past the end.
  function Copied(b: seq<byte>, pos: nat, n: nat): (s: seq<byte>)
    ensures |s| == n && forall i :: 0 <= i < n ==> s[i] == ByteAt(b, pos + i)
  {
    if n == 0 then [] else Copied(b, pos, n - 1) + [ByteAt(b, pos + n - 1)]
  }

  // The unit at a position and how many bytes it takes.
  function UnitAt(b: seq<byte>, pos: nat): (r: (unit, nat))
    ensures 1 <= r.1 <= 3
  {
    var c := ByteAt(b, pos);
    if c < 128 then (c, 1)
    else if c < 224 then (c % 32 * 64 + ByteAt(b, pos + 1) % 64, 2)
    else (c % 16 * 4096 + ByteAt(b, pos + 1) % 64 * 64 + ByteAt(b, pos + 2) % 64, 3)
  }

  function TextFrom(b: seq<byte>, pos: nat): seq<unit>
    decreases |b| - pos
  {
    if pos >= |b| then [] else [UnitAt(b, pos).0] + TextFrom(b, pos + UnitAt(b, pos).1)
  }

  lemma UnitRoundTrip(before: seq<byte>, c: unit, after: seq<byte>)
    ensures UnitAt(before + UnitBytes(c) + after, |before|) == (c, |UnitBytes(c)|)
  {
    var b := before + UnitBytes(c) + after;
    var s := UnitBytes(c);
    assert forall k: nat :: k < |s| ==> ByteAt(b, |before| + k) == s[k];
    assert ByteAt(b, |before|) == s[0];
    if c > 0x7ff {
      ThreeParts(c);
    }
  }

  // A unit that is cut at the end is read with zeros for what is missing.
  lemma UnitCut(b: seq<byte>)
    requires b != [] && b[|b| - 1] >= 128
    ensures var last: int := b[|b| - 1];
            UnitAt(b, |b| - 1) == if last < 224 then (last % 32 * 64, 2) else (last % 16 * 4096, 3)
  {}

  lemma ThreeParts(c: unit)
    requires c > 0x7ff
    ensures (0xe0 + c / 4096) % 16 * 4096 + (0x80 + c / 64 % 64) % 64 * 64 + (0x80 + c % 64) % 64 == c
  {
    var q := c / 64;
    assert q / 64 == c / 4096;
    assert c == q * 64 + c % 64;
    assert q == q / 64 * 64 + q % 64;
  }

  // Every string of 16-bit units is read back, lone surrogates included.
  lemma {:induction false} TextRoundTrip(before: seq<byte>, s: seq<unit>)
    ensures TextFrom(before + TextBytes(s), |before|) == s
    decreases |s|
  {
    if s == [] {
      assert before + [] == before;
    } else {
      var first, rest := UnitBytes(s[0]), TextBytes(s[1..]);
      assert before + TextBytes(s) == before + first + rest;
      UnitRoundTrip(before, s[0], rest);
      TextRoundTrip(before + first, s[1..]);
      assert s == [s[0]] + s[1..];
    }
  }

  method Codes(charCode: unit) returns (codes: seq<byte>)
    ensures codes == UnitBytes(charCode)
  {
    if charCode <= 0x7f {
      codes := [charCode];
    } else if charCode <= 0x7ff {
      codes := [0xc0 + charCode / 64, 0x80 + charCode % 64];
    } else {
      codes := [0xe0 + charCode / 4096, 0x80 + charCode / 64 % 64, 0x80 + charCode % 64];
    }
  }

  method StrEncode(str: seq<unit>) returns (bytes: seq<byte>)
    ensures bytes == TextBytes(str)
  {
    hide Wrote, TextBytes, UnitBytes;
    var byteArray := new byte[|str| * 3];
    ghost var blank := byteArray[..];
    var offset := 0;
    ghost var done: seq<byte> := [];
    WroteNothing(blank, 0);
    assert [] + TextBytes(str) == TextBytes(str) && str[0..] == str;
    for i := 0 to |str|
      invariant offset == |done| <= 3 * i && byteArray.Length == 3 * |str|
      invariant Wrote(blank, byteArray[..], 0, done)
      invariant TextBytes(str) == done + TextBytes(str[i..])
    {
      var codes := Codes(str[i]);
      ghost var before := byteArray[..];
      offset := WriteBytes(byteArray, offset, codes);
      WroteThen(blank, before, byteArray[..], 0, done, codes);
      TextSteps(str, i);
      assert done + (codes + TextBytes(str[i + 1..])) == done + codes + TextBytes(str[i + 1..]);
      done := done + codes;
    }
    TextEnds(str);
    FromStart(blank, byteArray[..], done);
    assert done + [] == done;
    return byteArray[..offset];
  }

  lemma TextSteps(str: seq<unit>, i: nat)
    requires i < |str|
    ensures TextBytes(str[i..]) == UnitBytes(str[i]) + TextBytes(str[i + 1..])
  {
    assert str[i..][1..] == str[i + 1..];
  }

  lemma TextEnds(str: seq<unit>)
    ensures TextBytes(str[|str|..]) == []
  {}

  method StrDecode(buffer: seq<byte>) returns (str: seq<unit>)
    ensures str == TextFrom(buffer, 0)
  {
    hide TextFrom;
    str := [];
    var offset := 0;
    assert [] + TextFrom(buffer, 0) == TextFrom(buffer, 0);
    while offset < |buffer|
      invariant TextFrom(buffer, 0) == str + TextFrom(buffer, offset)
      decreases |buffer| - offset
    {
      var charCode: unit := 0;
      ghost var start := offset;
      if buffer[offset] < 128 {
        charCode := buffer[offset];
        offset := offset + 1;
      } else if buffer[offset] < 224 {
        charCode := buffer[offset] % 32 * 64 + ByteAt(buffer, offset + 1) % 64;
        offset := offset + 2;
      } else {
        charCode := buffer[offset] % 16 * 4096 + ByteAt(buffer, offset + 1) % 64 * 64 + ByteAt(buffer, offset + 2) % 64;
        offset := offset + 3;
      }
      TextFromSteps(buffer, start);
      Regrouped(str, charCode, TextFrom(buffer, offset));
      str := str + [charCode];
    }
    TextOver(buffer, offset);
    assert str + [] == str;
  }

  lemma TextOver(b: seq<byte>, pos: nat)
    requires pos >= |b|
    ensures TextFrom(b, pos) == []
  {}

  lemma TextFromSteps(b: seq<byte>, pos: nat)
    requires pos < |b|
    ensures TextFrom(b, pos) == [UnitAt(b, pos).0] + TextFrom(b, pos + UnitAt(b, pos).1)
  {}

  lemma Regrouped(s: seq<unit>, c: unit, t: seq<unit>)
    ensures s + ([c] + t) == s + [c] + t
  {}
}
