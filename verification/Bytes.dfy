/** Bytes and the small vocabulary shared by every module.

    The program works on C++ `char` buffers and `std::string`s.  Here a byte is an integer in
    0..255 (the `unsigned char` view of a `char`), a buffer's contents or a string is a sequence
    of bytes, and `Ascii` turns a literal into bytes. */
module Bytes {
  type byte = x: int | 0 <= x < 256
  type bytes = seq<byte>

  datatype Option<+T> = None | Some(value: T)

  function Ascii(s: string): (b: bytes)
    ensures |b| == |s|
  {
    seq(|s|, i requires 0 <= i < |s| => (s[i] as int % 256) as byte)
  }

  /** All chunks, one after the other. */
  function Concat(chunks: seq<bytes>): bytes {
    if chunks == [] then [] else chunks[0] + Concat(chunks[1..])
  }

  lemma {:induction false} ConcatSnoc(chunks: seq<bytes>, last: bytes)
    ensures Concat(chunks + [last]) == Concat(chunks) + last
  {
    if chunks == [] {
      assert chunks + [last] == [last];
      assert Concat([last]) == last + Concat([]);
    } else {
      assert (chunks + [last])[1..] == chunks[1..] + [last];
      ConcatSnoc(chunks[1..], last);
    }
  }

  /** `b` with `w` written over it at `at`. */
  function Patched(b: bytes, at: nat, w: bytes): (r: bytes)
    requires at + |w| <= |b|
    ensures |r| == |b| && r[at..at + |w|] == w
  {
    b[..at] + w + b[at + |w|..]
  }

  /** Writing twice, one behind the other, is writing both. */
  lemma PatchedTwice(b: bytes, at: nat, w: bytes, w': bytes)
    requires at + |w| + |w'| <= |b|
    ensures Patched(Patched(b, at, w), at + |w|, w') == Patched(b, at, w + w')
  {
    var p := Patched(b, at, w);
    assert p[..at + |w|] == b[..at] + w;
    assert p[at + |w| + |w'|..] == b[at + |w| + |w'|..];
  }

  lemma PatchedNothing(b: bytes, at: nat)
    requires at <= |b|
    ensures Patched(b, at, []) == b
  {
  }
}
