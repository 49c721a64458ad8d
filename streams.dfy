/**
 * The buffered byte stream (stream.cpp, stream.hpp).
 *
 * A 16 KiB window with three cursors: `absPosition` counts the bytes handed
 * out so far, `relPosition` is the read position inside the window and
 * `available` the number of unread bytes in it.  The concrete streams refill
 * the window from a file or from zlib; here `source` holds the bytes still
 * to come, Refill moves some 1..BUFFER_SIZE of them into the window, and it
 * fails once the source is exhausted.
 */
module Streams {
  import opened Errors
  import opened Utility

  /** BUFFER_SIZE (stream.hpp:6). */
  const BUFFER_SIZE: nat := 16384

  /** The index of the first zero byte of s, or |s| when s holds none. */
  function ZeroIndex(s: seq<byte>): (k: nat)
    ensures k <= |s|
    ensures k < |s| ==> s[k] == 0
    ensures forall i :: 0 <= i < k ==> s[i] != 0
  {
    if s == [] then 0 else if s[0] == 0 then 0 else 1 + ZeroIndex(s[1..])
  }

  /**
   * What ReadString(dest, max) delivers from a stream whose unread bytes
   * are s: the bytes up to and including the first zero byte, unless max
   * (when it is not -1) bytes go by without one, or the stream runs dry.
   */
  function ReadStringSpec(s: seq<byte>, max: int): (r: Result<seq<byte>>)
    requires max == -1 || max >= 1
    ensures r.Ok? ==> 1 <= |r.value| <= |s| && r.value == s[..|r.value|] && (max == -1 || |r.value| <= max)
  {
    var k := ZeroIndex(s);
    if k < |s| && (max == -1 || k < max) then Ok(s[..k + 1])
    else if max != -1 && max <= |s| then Fail(StringBufferTooSmall)
    else Fail(RefillFailed)
  }

  /**
   * ReadString stops at the first zero byte and hands it over with the
   * string; it fails with "String buffer too small" when max bytes go by
   * without one and with a refill failure when the stream ends first.
   */
  lemma ReadStringSpecMeaning(s: seq<byte>, max: int)
    requires max == -1 || max >= 1
    ensures var r := ReadStringSpec(s, max);
      && (r.Ok? ==> var n := |r.value|;
            && 1 <= n <= |s| && r.value == s[..n] && s[n - 1] == 0
            && (forall i :: 0 <= i < n - 1 ==> s[i] != 0)
            && (max == -1 || n <= max))
      && (r.Fail? ==> r.error == StringBufferTooSmall || r.error == RefillFailed)
      && (r == Fail(StringBufferTooSmall) ==> 1 <= max <= |s| && forall i :: 0 <= i < max ==> s[i] != 0)
      && (r == Fail(RefillFailed) ==> (max == -1 || |s| < max) && forall i :: 0 <= i < |s| ==> s[i] != 0)
  {
  }

  /**
   * What ReadMemory(dest, size) delivers from a stream whose unread bytes
   * are s: exactly the next size bytes.  Even a zero-byte read needs a byte
   * in the window, so it fails on an exhausted stream.
   */
  function ReadMemorySpec(s: seq<byte>, size: nat): (r: Result<seq<byte>>)
    ensures r.Ok? <==> 0 < |s| && size <= |s|
    ensures r.Ok? ==> r.value == s[..size]
    ensures r.Fail? ==> r.error == RefillFailed
  {
    if 0 < |s| && size <= |s| then Ok(s[..size]) else Fail(RefillFailed)
  }

  /** Taking n more bytes after the first k. */
  lemma SliceStep(s: seq<byte>, k: nat, n: nat)
    requires k + n <= |s|
    ensures s[..k] + s[k..][..n] == s[..k + n] && s[k..][n..] == s[k + n..]
  {
  }

  /** A zero byte at k with none before it: the string is s[..k+1]. */
  lemma ReadStringStops(s: seq<byte>, max: int, k: nat)
    requires max == -1 || 1 <= max
    requires k < |s| && s[k] == 0 && k <= ZeroIndex(s) && (max == -1 || k < max)
    ensures ReadStringSpec(s, max) == Ok(s[..k + 1])
  {
  }

  /** No zero byte in s and room for all of it: the stream runs dry. */
  lemma ReadStringRunsOut(s: seq<byte>, max: int)
    requires max == -1 || |s| < max
    requires ZeroIndex(s) == |s|
    ensures ReadStringSpec(s, max) == Fail(RefillFailed)
  {
  }

  /** No zero byte among the first max bytes: the buffer is too small. */
  lemma ReadStringTruncates(s: seq<byte>, max: int)
    requires 1 <= max <= |s| && max <= ZeroIndex(s)
    ensures ReadStringSpec(s, max) == Fail(StringBufferTooSmall)
  {
  }

  class Stream {
    const buffer: array<byte>
    var absPosition: int
    var relPosition: int
    var available: int
    /** The bytes that later refills hand out. */
    var source: seq<byte>
    /** The number of bytes the stream delivers over its lifetime. */
    ghost const total: nat
    /** The bytes not handed out yet: the rest of the window, then the source. */
    ghost var pending: seq<byte>

    ghost predicate Valid()
      reads this, buffer
    {
      buffer.Length == BUFFER_SIZE
      && 0 <= relPosition && 0 <= available && relPosition + available <= BUFFER_SIZE
      && |pending| == available + |source| && pending[available..] == source
      && (forall i :: 0 <= i < available ==> pending[i] == buffer[relPosition + i])
      && absPosition + |pending| == total
    }

    /** Stream::Stream (stream.cpp:7-14): an empty zeroed window, all cursors at 0. */
    constructor (source: seq<byte>)
      ensures Valid() && fresh(buffer)
      ensures absPosition == 0 && relPosition == 0 && available == 0
      ensures forall i :: 0 <= i < buffer.Length ==> buffer[i] == 0
      ensures this.source == source && pending == source && total == |pending|
    {
      buffer := new byte[BUFFER_SIZE](_ => 0);
      absPosition := 0;
      relPosition := 0;
      available := 0;
      this.source := source;
      pending := source;
      total := |source|;
    }

    /** GetPosition (stream.cpp:21-24): the number of bytes handed out so far. */
    method GetPosition() returns (p: int)
      requires Valid()
      ensures p == total - |pending|
    {
      p := absPosition;
    }

    /**
     * The refill contract of the concrete streams (fstream.cpp:16-30,
     * zstream.cpp:80-118): on success the window restarts at 0 and holds
     * 1..BUFFER_SIZE fresh bytes; nothing is lost or reordered.  It fails
     * exactly when the stream has nothing left to deliver.
     */
    method Refill() returns (failed: bool)
      requires Valid() && available == 0
      modifies this, buffer
      ensures Valid()
      ensures failed <==> old(pending) == []
      ensures !failed ==> relPosition == 0 && 1 <= available <= BUFFER_SIZE
      ensures absPosition == old(absPosition) && pending == old(pending)
    {
      if source == [] {
        return true;
      }
      var n: int :| 1 <= n <= |source| && n <= BUFFER_SIZE;
      forall i | 0 <= i < n {
        buffer[i] := source[i];
      }
      relPosition := 0;
      available := n;
      source := source[n..];
      failed := false;
    }

    /**
     * The refill check at the top of both copying loops (stream.cpp:33-41,
     * 79-88): an empty window is refilled; it fails only when the stream has
     * nothing left to deliver.
     */
    method Fill() returns (failed: bool)
      requires Valid()
      modifies this, buffer
      ensures Valid() && pending == old(pending) && absPosition == old(absPosition)
      ensures failed <==> old(pending) == []
      ensures !failed ==> 0 < available <= |pending|
    {
      failed := false;
      if available <= 0 {
        failed := Refill();
      }
    }

    /**
     * The copy-and-advance step of ReadMemory (stream.cpp:90-117): the next
     * n bytes of the window are handed out and all three cursors move past
     * them.
     */
    method Take(n: int) returns (chunk: seq<byte>)
      requires Valid() && 0 <= n <= available
      modifies this
      ensures Valid() && source == old(source) && available == old(available) - n
      ensures chunk == old(pending)[..n] && pending == old(pending)[n..]
      ensures absPosition == old(absPosition) + n
    {
      chunk := buffer[relPosition..relPosition + n];
      pending := pending[n..];
      absPosition := absPosition + n;
      relPosition := relPosition + n;
      available := available - n;
    }

    /**
     * ReadMemory (stream.cpp:69-127): hands out exactly the next `size`
     * bytes, refilling as often as needed; a failed refill is an error
     * instead of a short read.  Even a zero-byte read needs a non-empty
     * window, so it fails on an exhausted stream.
     */
    method ReadMemory(size: nat) returns (r: Result<seq<byte>>)
      requires Valid()
      modifies this, buffer
      ensures Valid()
      ensures r == ReadMemorySpec(old(pending), size)
      ensures r.Ok? ==> pending == old(pending)[size..] && absPosition == old(absPosition) + size
    {
      ghost var s := pending;
      var out: seq<byte> := [];
      var remaining := size;
      while true
        invariant Valid() && 0 <= remaining && |out| + remaining == size
        invariant |out| <= |s| && out == s[..|out|] && pending == s[|out|..]
        invariant absPosition == old(absPosition) + |out|
        invariant 0 < |out| ==> 0 < remaining
        decreases remaining
      {
        var failed := Fill();
        if failed {
          assert |s| == |out| && (|s| == 0 || |s| < size);
          return Fail(RefillFailed);
        }
        if remaining > available {
          out := CopyNext(s, out, available);
          remaining := size - |out|;
        } else {
          out := CopyNext(s, out, remaining);
          return Ok(out);
        }
      }
    }

    /**
     * The copy-and-advance step of the ReadMemory loop, stated against the
     * bytes s pending when the read began: out grows by the next n of them.
     */
    method CopyNext(ghost s: seq<byte>, out: seq<byte>, n: int) returns (out': seq<byte>)
      requires Valid() && 0 <= n <= available
      requires |out| <= |s| && out == s[..|out|] && pending == s[|out|..]
      modifies this
      ensures Valid() && available == old(available) - n && absPosition == old(absPosition) + n
      ensures |out'| == |out| + n <= |s| && out' == s[..|out'|] && pending == s[|out'|..]
    {
      var chunk := Take(n);
      SliceStep(s, |out|, n);
      out' := out + chunk;
    }

    /**
     * One step of the copying loop of ReadString (stream.cpp:33-49): refill
     * when the window is empty, then hand out the byte at relPosition.
     */
    method NextByte() returns (r: Result<byte>)
      requires Valid()
      modifies this, buffer
      ensures Valid()
      ensures r.Ok? <==> old(pending) != []
      ensures r.Fail? ==> r.error == RefillFailed && pending == old(pending) == []
      ensures r.Ok? ==> r.value == old(pending)[0] && pending == old(pending)[1..]
      ensures absPosition == old(absPosition) + (if r.Ok? then 1 else 0)
    {
      var failed := Fill();
      if failed {
        return Fail(RefillFailed);
      }
      var chunk := Take(1);
      r := Ok(chunk[0]);
    }

    /**
     * ReadString (stream.cpp:26-67): hands out the bytes up to and including
     * the first zero byte.  With max >= 1 and no zero among the next max
     * bytes it fails because the destination is too small; max == -1 sets
     * no limit.
     */
    method ReadString(max: int) returns (r: Result<seq<byte>>)
      requires Valid()
      requires max == -1 || max >= 1
      modifies this, buffer
      ensures Valid()
      ensures r == ReadStringSpec(old(pending), max)
      ensures r.Ok? ==> pending == old(pending)[|r.value|..] && absPosition == old(absPosition) + |r.value|
    {
      ghost var s := pending;
      ghost var k := ZeroIndex(s);
      var out: seq<byte> := [];
      while max == -1 || |out| < max
        invariant Valid()
        invariant |out| <= k && (max != -1 ==> |out| <= max)
        invariant out == s[..|out|] && pending == s[|out|..]
        invariant absPosition == old(absPosition) + |out|
        decreases |pending|
      {
        var c := NextByte();
        if c.Fail? {
          ReadStringRunsOut(s, max);
          return Fail(RefillFailed);
        }
        assert s[|out|] == c.value;
        assert s[..|out| + 1] == out + [c.value];
        out := out + [c.value];
        if c.value == 0 {
          ReadStringStops(s, max, |out| - 1);
          return Ok(out);
        }
      }
      ReadStringTruncates(s, max);
      r := Fail(StringBufferTooSmall);
    }
  }
}
