/** Bytes, 32-bit words and the little-endian placement of a word in a byte buffer. */
module Words {
  type byte = x: int | 0 <= x < 256
  type word = x: int | 0 <= x < 0x1_0000_0000

  const WORD_SIZE := 4
  const MAX_WORD: word := 0xFFFF_FFFF
  const WORD_RANGE := 0x1_0000_0000

  /** The u_int32_t that C reads from four consecutive bytes. */
  function WordAt(s: seq<byte>, at: int): word
    requires 0 <= at <= |s| - WORD_SIZE
  {
    s[at] as int + 256 * (s[at + 1] as int) + 0x1_0000 * (s[at + 2] as int) + 0x100_0000 * (s[at + 3] as int)
  }

  /** The four bytes C stores for a u_int32_t. */
  function WordBytes(w: word): seq<byte> {
    [w % 256, w / 256 % 256, w / 0x1_0000 % 256, w / 0x100_0000]
  }

  /** Overwrite s from position at with the bytes of d. */
  function Splice(s: seq<byte>, at: int, d: seq<byte>): (r: seq<byte>)
    requires 0 <= at <= |s| - |d|
    ensures |r| == |s|
    ensures forall k :: 0 <= k < |s| ==> r[k] == if at <= k < at + |d| then d[k - at] else s[k]
  {
    s[..at] + d + s[at + |d|..]
  }

  /** From s to t the word w was stored at at, and no byte outside it changed. */
  ghost predicate WordStored(s: seq<byte>, t: seq<byte>, at: int, w: word)
    requires 0 <= at <= |s| - WORD_SIZE
  {
    && |t| == |s|
    && WordAt(t, at) == w
    && forall k :: 0 <= k < |s| && !(at <= k < at + WORD_SIZE) ==> t[k] == s[k]
  }

  /** A stored word reads back: the byte encoding loses nothing. */
  lemma WordBytesReadBack(s: seq<byte>, at: int, w: word)
    requires 0 <= at <= |s| - WORD_SIZE
    ensures WordStored(s, Splice(s, at, WordBytes(w)), at, w)
  {
    assert w == w % 256 + 256 * (w / 256);
    assert w / 256 == w / 256 % 256 + 256 * (w / 0x1_0000);
    assert w / 0x1_0000 == w / 0x1_0000 % 256 + 256 * (w / 0x100_0000);
  }

  lemma WithWord(s: seq<byte>, at: int, w: word) returns (t: seq<byte>)
    requires 0 <= at <= |s| - WORD_SIZE
    ensures WordStored(s, t, at, w)
  {
    t := Splice(s, at, WordBytes(w));
    WordBytesReadBack(s, at, w);
  }

  /** *(u_int32_t *)(a + at) = w */
  method StoreWord(a: array<byte>, at: int, w: word)
    requires 0 <= at <= a.Length - WORD_SIZE
    modifies a
    ensures WordStored(old(a[..]), a[..], at, w)
  {
    a[at] := w % 256;
    a[at + 1] := w / 256 % 256;
    a[at + 2] := w / 0x1_0000 % 256;
    a[at + 3] := w / 0x100_0000;
    assert a[..] == Splice(old(a[..]), at, WordBytes(w));
    WordBytesReadBack(old(a[..]), at, w);
  }

  /** *(u_int32_t *)(a + at) */
  method LoadWord(a: array<byte>, at: int) returns (w: word)
    requires 0 <= at <= a.Length - WORD_SIZE
    ensures w == WordAt(a[..], at)
  {
    w := a[at] as int + 256 * (a[at + 1] as int) + 0x1_0000 * (a[at + 2] as int) + 0x100_0000 * (a[at + 3] as int);
  }

  /** memcpy(a + at, src, |src|) */
  method CopyBytes(a: array<byte>, at: int, src: seq<byte>)
    requires 0 <= at <= a.Length - |src|
    modifies a
    ensures a[..] == Splice(old(a[..]), at, src)
  {
    for i := 0 to |src|
      invariant a[..] == Splice(old(a[..]), at, src[..i])
    {
      a[at + i] := src[i];
      assert src[..i + 1] == src[..i] + [src[i]];
    }
    assert src[..|src|] == src;
  }
}
