/** Writing bytes into a buffer at an offset. */
module Buffers {
  import opened Varints

  // after is before with the bytes s written from offset on.
  ghost predicate Wrote(before: seq<byte>, after: seq<byte>, offset: nat, s: seq<byte>) {
    offset + |s| <= |before| && after == before[..offset] + s + before[offset + |s|..]
  }

  lemma WroteThen(a: seq<byte>, b: seq<byte>, c: seq<byte>, offset: nat, s: seq<byte>, t: seq<byte>)
    requires Wrote(a, b, offset, s) && Wrote(b, c, offset + |s|, t)
    ensures Wrote(a, c, offset, s + t) && |b| == |a| && |c| == |a|
  {
    assert b[..offset + |s|] == a[..offset] + s;
    assert b[offset + |s| + |t|..] == a[offset + |s| + |t|..];
  }

  lemma WroteNothing(a: seq<byte>, offset: nat)
    requires offset <= |a|
    ensures Wrote(a, a, offset, [])
  {}

  lemma WroteOne(a: seq<byte>, offset: nat, b: byte)
    requires offset < |a|
    ensures Wrote(a, a[offset := b], offset, [b])
  {}

  method WriteBytes(buffer: array<byte>, offset: nat, bytes: seq<byte>) returns (end: nat)
    requires offset + |bytes| <= buffer.Length
    modifies buffer
    ensures end == offset + |bytes| && Wrote(old(buffer[..]), buffer[..], offset, bytes)
  {
    hide Wrote;
    end := offset;
    WroteNothing(buffer[..], offset);
    for i := 0 to |bytes|
      invariant end == offset + i
      invariant Wrote(old(buffer[..]), buffer[..], offset, bytes[..i])
    {
      ghost var before := buffer[..];
      buffer[end] := bytes[i];
      WroteOne(before, end, bytes[i]);
      WroteThen(old(buffer[..]), before, buffer[..], offset, bytes[..i], [bytes[i]]);
      assert bytes[..i + 1] == bytes[..i] + [bytes[i]];
      end := end + 1;
    }
    assert bytes[..|bytes|] == bytes;
  }

  lemma FromStart(before: seq<byte>, after: seq<byte>, s: seq<byte>)
    requires Wrote(before, after, 0, s)
    ensures |s| <= |after| && after[..|s|] == s
  {}
}
