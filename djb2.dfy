/**
 * The string hash of docs/djb2.c: `hash = (hash * 33) ^ cur` over the
 * characters before the terminator, in uint32_t, starting from 0 (not the
 * 5381 of Bernstein's original).  `char` is signed there, so a character
 * of 0x80 or above enters the xor sign-extended to 32 bits.
 */
module Djb2 {
  import opened Utility

  /** A `char` as the xor sees it: sign-extended to int, then converted to uint32_t. */
  function Widened(c: byte): (w: u32)
    ensures c < 0x80 ==> w == c
    ensures c >= 0x80 ==> w == 0xFFFF_FF00 + c
  {
    Low32(if c < 0x80 then c else c - 0x100)
  }

  /** One turn of the loop (djb2.c:10). */
  function Step(h: u32, c: byte): u32
  {
    Pow2Values();
    XorBound((h * 33) % TWO_32, Widened(c), 32);
    Xor((h * 33) % TWO_32, Widened(c))
  }

  /** The hash of a string without terminator, folded from the first character. */
  function HashOf(s: seq<byte>): u32
    decreases |s|
  {
    if |s| == 0 then 0 else Step(HashOf(s[..|s| - 1]), s[|s| - 1])
  }

  /** hash(str): the characters up to the first zero byte. */
  function HashValue(str: seq<byte>): u32
  {
    HashOf(UntilNul(str, 0))
  }

  /** The empty string, and any buffer that starts with the terminator, hash to 0. */
  lemma HashEmpty(t: seq<byte>)
    ensures HashValue([]) == 0
    ensures HashValue([0] + t) == 0
  {
    UntilNulAt([0] + t, 0, 0);
  }

  /** Appending a non-zero character is one more turn of the loop. */
  lemma HashAppend(s: seq<byte>, c: byte)
    requires 0 !in s && c != 0
    ensures HashValue(s + [c]) == Step(HashValue(s), c)
  {
    hide Step;
    var u := s + [c];
    UntilNulAt(s, 0, |s|);
    assert UntilNul(s, 0) == s;
    assert u[..|u|] == u && 0 !in u;
    UntilNulAt(u, 0, |u|);
    assert UntilNul(u, 0) == u;
    assert u[..|s|] == s;
    assert HashOf(u) == Step(HashOf(s), c);
  }

  /** Nothing after the terminator affects the hash. */
  lemma HashStopsAtNul(s: seq<byte>, t: seq<byte>)
    requires 0 !in s
    ensures HashValue(s + [0] + t) == HashValue(s)
  {
    hide Step, HashOf;
    UntilNulAt(s, 0, |s|);
    assert UntilNul(s, 0) == s;
    var u := s + [0] + t;
    assert u[..|s|] == s && u[|s|] == 0;
    UntilNulAt(u, 0, |s|);
    assert UntilNul(u, 0) == s;
    assert HashValue(u) == HashOf(s);
  }

  /** A single character hashes to itself, sign-extended when it is 0x80 or above. */
  lemma HashSingle(c: byte)
    requires c != 0
    ensures c < 0x80 ==> HashValue([c]) == c
    ensures c >= 0x80 ==> HashValue([c]) == 0xFFFF_FF00 + c
  {
    HashAppend([], c);
    HashEmpty([]);
  }

  /** hash (djb2.c:4-13): the loop runs until the zero byte (or the end of the buffer). */
  method Hash(str: seq<byte>) returns (hash: u32)
    ensures hash == HashValue(str)
  {
    ghost var s := UntilNul(str, 0);
    hash := 0;
    var i := 0;
    while i < |str| && str[i] != 0
      invariant i <= |s| && s[..i] == str[..i]
      invariant hash == HashOf(str[..i])
    {
      assert str[..i + 1][..i] == str[..i];
      hash := Step(hash, str[i]);
      i := i + 1;
    }
    assert 0 !in str[..i];
    UntilNulAt(str, 0, i);
  }
}
