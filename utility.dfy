/**
 * Integer widths and bit-level helpers of the loader (utility.hpp).
 *
 * Bytes and 32-bit words are modelled as bounded integers, and the C bit
 * operators as recursive functions on naturals; a shift right by k is a
 * division by 2^k.  The lemmas below connect the bit operators to ordinary
 * arithmetic so that the rest of the model can reason about masks.
 */
module Utility {

  /** An unsigned 8-bit value (a `char` of the data buffer, read as unsigned). */
  type byte = b: int | 0 <= b < 0x100

  /** address_t: an unsigned 32-bit word (utility.hpp:72). */
  type u32 = x: int | 0 <= x < 0x1_0000_0000

  const TWO_32: nat := 0x1_0000_0000
  const TWO_64: nat := 0x1_0000_0000_0000_0000

  function Pow2(k: nat): (r: nat)
    ensures r >= 1
  {
    if k == 0 then 1 else 2 * Pow2(k - 1)
  }

  /** Bitwise AND of two non-negative integers. */
  function And(a: nat, b: nat): nat
    decreases a
  {
    if a == 0 || b == 0 then 0
    else 2 * And(a / 2, b / 2) + (if a % 2 == 1 && b % 2 == 1 then 1 else 0)
  }

  /** Bitwise OR of two non-negative integers. */
  function Or(a: nat, b: nat): nat
    decreases a
  {
    if a == 0 then b
    else if b == 0 then a
    else 2 * Or(a / 2, b / 2) + (if a % 2 == 1 || b % 2 == 1 then 1 else 0)
  }

  /** Bitwise XOR of two non-negative integers. */
  function Xor(a: nat, b: nat): nat
    decreases a
  {
    if a == 0 then b
    else if b == 0 then a
    else 2 * Xor(a / 2, b / 2) + (a % 2 + b % 2) % 2
  }

  /** `x >> k` on a non-negative bit pattern. */
  function Shr(x: nat, k: nat): nat
  {
    if k == 0 then x else Shr(x / 2, k - 1)
  }

  /** The 32-bit two's-complement pattern of an int (a cast to unsigned). */
  function Low32(x: int): u32
  {
    x % TWO_32
  }

  /** A 32-bit pattern read as a signed `int`. */
  function Signed(w: u32): (r: int)
    ensures -0x8000_0000 <= r < 0x8000_0000
    ensures Low32(r) == w
  {
    if w < 0x8000_0000 then w else w - TWO_32
  }

  /**
   * ALIGN(p, x) = (p + (x-1)) & ~(x-1) (utility.hpp:60), evaluated as the
   * loader does: p is a size_t, so the sum wraps at 64 bits, and ~(x-1) is
   * the int complement widened to 64 bits.
   */
  function AlignUp(p: nat, x: int): nat
  {
    var m := (x - 1) % TWO_64;
    And((p + x - 1) % TWO_64, TWO_64 - 1 - m)
  }

  /** A little-endian 32-bit word at byte offset i. */
  function WordAt(s: seq<byte>, i: nat): u32
    requires i + 4 <= |s|
  {
    (s[i] as int) + 0x100 * (s[i + 1] as int) + 0x1_0000 * (s[i + 2] as int) + 0x100_0000 * (s[i + 3] as int)
  }

  /** The four little-endian bytes of a word. */
  function WordBytes(w: u32): (r: seq<byte>)
    ensures |r| == 4
  {
    [w % 0x100, (w / 0x100) % 0x100, (w / 0x1_0000) % 0x100, w / 0x100_0000]
  }

  /** s with the bytes from offset p on overwritten by t. */
  function Splice<T>(s: seq<T>, p: nat, t: seq<T>): (r: seq<T>)
    requires p + |t| <= |s|
    ensures |r| == |s| && r[p..p + |t|] == t
    ensures r[..p] == s[..p] && r[p + |t|..] == s[p + |t|..]
  {
    s[..p] + t + s[p + |t|..]
  }

  /** The word array that a byte block holds, read little-endian. */
  function Words(s: seq<byte>): (r: seq<u32>)
    ensures |r| == |s| / 4
    ensures forall i :: 0 <= i < |r| ==> r[i] == WordAt(s, 4 * i)
    decreases |s|
  {
    if |s| < 4 then [] else [WordAt(s, 0)] + Words(s[4..])
  }

  // ---------------------------------------------------------------------
  // Arithmetic facts used by the bit lemmas.

  lemma MulAtLeast(d: nat, t: int)
    requires d > 0 && t >= 1
    ensures d * t >= d
  {
  }

  /** Euclidean division is unique: a == d*t + s with 0 <= s < d fixes both. */
  lemma {:induction false} DivModUnique(a: int, d: nat, t: int, s: int)
    requires d > 0 && 0 <= s < d && a == d * t + s
    ensures a / d == t && a % d == s
  {
    var t' := a / d;
    if t' > t {
      MulAtLeast(d, t' - t);
    } else if t' < t {
      MulAtLeast(d, t - t');
    }
  }

  lemma {:induction false} ModDouble(a: nat, m: nat)
    requires m > 0
    ensures a % (2 * m) == 2 * ((a / 2) % m) + a % 2
    ensures a / (2 * m) == (a / 2) / m
  {
    var q, u := (a / 2) / m, (a / 2) % m;
    assert a / 2 == m * q + u;
    assert a == 2 * (a / 2) + a % 2;
    assert a == (2 * m) * q + (2 * u + a % 2);
    DivModUnique(a, 2 * m, q, 2 * u + a % 2);
  }

  lemma Pow2Values()
    ensures Pow2(32) == TWO_32 && Pow2(64) == TWO_64
  {
    Pow2Sixteen();
    Pow2Add(16, 16);
    Pow2Add(32, 32);
  }

  lemma Pow2Sixteen()
    ensures Pow2(16) == 0x1_0000
  {
    assert Pow2(4) == 16;
    Pow2Add(4, 4);
    Pow2Add(8, 8);
  }

  lemma {:induction false} Pow2Add(a: nat, b: nat)
    ensures Pow2(a + b) == Pow2(a) * Pow2(b)
    decreases a
  {
    if a > 0 {
      Pow2Add(a - 1, b);
    }
  }

  // ---------------------------------------------------------------------
  // Bit lemmas.

  /** AND with a low mask 2^k - 1 keeps the residue modulo 2^k. */
  lemma {:induction false} AndLowMask(a: nat, k: nat)
    ensures And(a, Pow2(k) - 1) == a % Pow2(k)
    decreases k
  {
    var p := Pow2(k);
    if k == 0 {
      assert p == 1;
    } else if a == 0 {
      DivModUnique(a, p, 0, 0);
    } else {
      var m := Pow2(k - 1);
      assert p == 2 * m;
      var mask := p - 1;
      assert mask / 2 == m - 1 && mask % 2 == 1 by {
        DivModUnique(mask, 2, m - 1, 1);
      }
      assert And(a, mask) == 2 * And(a / 2, m - 1) + a % 2;
      AndLowMask(a / 2, k - 1);
      ModDouble(a, m);
      assert a % p == a % (2 * m);
    }
  }

  lemma {:induction false} AndBounds(a: nat, b: nat)
    ensures And(a, b) <= a && And(a, b) <= b
    decreases a
  {
    if a > 0 && b > 0 {
      AndBounds(a / 2, b / 2);
    }
  }

  lemma {:induction false} AndSelf(a: nat)
    ensures And(a, a) == a
    decreases a
  {
    if a > 0 {
      AndSelf(a / 2);
    }
  }

  /** A shift right by k bits is a division by 2^k. */
  lemma {:induction false} ShrDiv(x: nat, k: nat)
    ensures Shr(x, k) == x / Pow2(k)
    decreases k
  {
    if k > 0 {
      ShrDiv(x / 2, k - 1);
      ModDouble(x, Pow2(k - 1));
    }
  }

  /**
   * Splitting q by a mask m and its complement within k bits: the two halves
   * add up to q again.
   */
  lemma {:induction false} AndComplement(q: nat, m: nat, k: nat)
    requires q < Pow2(k) && m < Pow2(k)
    ensures And(q, Pow2(k) - 1 - m) + And(q, m) == q
    decreases k
  {
    var c := Pow2(k) - 1 - m;
    if k == 0 || q == 0 {
      assert q == 0;
      assert And(q, c) + And(q, m) == q;
    } else if c == 0 || m == 0 {
      AndLowMask(q, k);
      DivModUnique(q, Pow2(k), 0, q);
      assert And(q, Pow2(k) - 1) == q;
      if c == 0 {
        assert m == Pow2(k) - 1 && And(q, c) == 0;
      } else {
        assert c == Pow2(k) - 1 && And(q, m) == 0;
      }
    } else {
      var h := Pow2(k - 1);
      assert Pow2(k) == 2 * h;
      DivModUnique(c, 2, h - 1 - m / 2, 1 - m % 2);
      AndComplement(q / 2, m / 2, k - 1);
      AndComplementBit(q, c, m);
      assert And(q, c) + And(q, m) == 2 * (q / 2) + q % 2 == q;
    }
  }

  /** One bit of AndComplement: exactly one of c and m has its low bit set. */
  lemma AndComplementBit(q: nat, c: nat, m: nat)
    requires q > 0 && c > 0 && m > 0 && c % 2 + m % 2 == 1
    ensures And(q, c) + And(q, m) == 2 * (And(q / 2, c / 2) + And(q / 2, m / 2)) + q % 2
  {
  }

  lemma AndComplementSelf(v: nat, k: nat)
    requires v < Pow2(k)
    ensures And(v, Pow2(k) - 1 - v) == 0
  {
    AndComplement(v, v, k);
    AndSelf(v);
  }

  /** OR of a high part and a low part that do not overlap is their sum. */
  lemma {:induction false} OrDisjoint(hi: nat, lo: nat, k: nat)
    requires lo < Pow2(k)
    ensures Or(hi * Pow2(k), lo) == hi * Pow2(k) + lo
    decreases k
  {
    if k > 0 && hi > 0 && lo > 0 {
      var h := Pow2(k - 1);
      assert hi * Pow2(k) == 2 * (hi * h);
      assert (hi * Pow2(k)) / 2 == hi * h && (hi * Pow2(k)) % 2 == 0;
      OrDisjoint(hi, lo / 2, k - 1);
    }
  }

  /** The low k bits of `a | b` are those of b when the low k bits of a are clear. */
  lemma {:induction false} OrLow(a: nat, b: nat, k: nat)
    requires a % Pow2(k) == 0
    ensures Or(a, b) % Pow2(k) == b % Pow2(k)
    decreases k
  {
    if k > 0 && a > 0 && b > 0 {
      var h := Pow2(k - 1);
      assert Pow2(k) == 2 * h;
      ModDouble(a, h);
      OrLow(a / 2, b / 2, k - 1);
      assert Or(a, b) == 2 * Or(a / 2, b / 2) + b % 2;
      ModDouble(Or(a, b), h);
      ModDouble(b, h);
    }
  }

  lemma {:induction false} XorBound(a: nat, b: nat, k: nat)
    requires a < Pow2(k) && b < Pow2(k)
    ensures Xor(a, b) < Pow2(k)
    decreases k
  {
    if k > 0 && a > 0 && b > 0 {
      XorBound(a / 2, b / 2, k - 1);
    }
  }

  /** The two 16-bit halves of a word. */
  lemma HalfWords(w: u32)
    ensures And(w, 0xFFFF) == w % 0x1_0000
    ensures And(Shr(w, 16), 0xFFFF) == w / 0x1_0000
  {
    Pow2Sixteen();
    AndLowMask(w, 16);
    ShrDiv(w, 16);
    DivModUnique(w / 0x1_0000, 0x1_0000, 0, w / 0x1_0000);
    AndLowMask(w / 0x1_0000, 16);
  }

  // ---------------------------------------------------------------------
  // ALIGN.

  /** Without wrap-around, ALIGN clears the bits of x-1 from p+x-1. */
  lemma AlignUpNoWrap(p: nat, x: int)
    requires 1 <= x && p + x <= TWO_64
    ensures AlignUp(p, x) == And(p + x - 1, TWO_64 - 1 - (x - 1))
  {
    DivModUnique(p + x - 1, TWO_64, 0, p + x - 1);
    DivModUnique(x - 1, TWO_64, 0, x - 1);
  }

  /** ALIGN(p, x) never moves p backwards, and moves it by less than x. */
  lemma AlignUpBounds(p: nat, x: int)
    requires 1 <= x && p + x <= TWO_64
    ensures p <= AlignUp(p, x) <= p + x - 1
  {
    var q, m := p + x - 1, x - 1;
    AlignUpNoWrap(p, x);
    Pow2Values();
    AndComplement(q, m, 64);
    AndBounds(q, m);
    AndBounds(q, TWO_64 - 1 - m);
  }

  lemma MulCancelLess(x: nat, a: int, b: int)
    requires x > 0 && x * a < x * b
    ensures a < b
  {
    if a > b {
      MulAtLeast(x, a - b);
    }
  }

  /** Rounding p + x - 1 down to a multiple of x gives the least multiple >= p. */
  lemma RoundDown(p: nat, x: nat)
    requires x > 0
    ensures (p + x - 1 - (p + x - 1) % x) % x == 0
    ensures p <= p + x - 1 - (p + x - 1) % x < p + x
    ensures forall c: nat :: p <= c && c % x == 0 ==> p + x - 1 - (p + x - 1) % x <= c
  {
    var q := p + x - 1;
    var r := q - q % x;
    var t := q / x;
    assert q == x * t + q % x;
    assert r == x * t;
    DivModUnique(r, x, t, 0);
    forall c: nat | p <= c && c % x == 0
      ensures r <= c
    {
      if c < r {
        var u := c / x;
        assert c == x * u;
        MulCancelLess(x, u, t);
        MulAtLeast(x, t - u);
      }
    }
  }

  /**
   * For a power of two x, ALIGN(p, x) is a multiple of x and the least one
   * that is at least p.
   */
  lemma AlignUpPow2(p: nat, k: nat)
    requires k < 64 && p + Pow2(k) <= TWO_64
    ensures AlignUp(p, Pow2(k)) % Pow2(k) == 0
    ensures p <= AlignUp(p, Pow2(k)) < p + Pow2(k)
    ensures forall c: nat :: p <= c && c % Pow2(k) == 0 ==> AlignUp(p, Pow2(k)) <= c
  {
    AlignUpRoundsDown(p, k);
    RoundDown(p, Pow2(k));
  }

  lemma AlignUpRoundsDown(p: nat, k: nat)
    requires k < 64 && p + Pow2(k) <= TWO_64
    ensures AlignUp(p, Pow2(k)) == p + Pow2(k) - 1 - (p + Pow2(k) - 1) % Pow2(k)
  {
    AlignUpNoWrap(p, Pow2(k));
    ClearLowBits(p + Pow2(k) - 1, k);
  }

  /** Clearing the low k bits of q rounds q down to a multiple of 2^k. */
  lemma ClearLowBits(q: nat, k: nat)
    requires q < TWO_64 && Pow2(k) <= TWO_64
    ensures And(q, TWO_64 - 1 - (Pow2(k) - 1)) == q - q % Pow2(k)
  {
    var m := Pow2(k) - 1;
    Pow2Values();
    AndComplement(q, m, 64);
    AndLowMask(q, k);
  }

  /** ALIGN leaves an already aligned value unchanged. */
  lemma AlignUpAligned(p: nat, k: nat)
    requires k < 64 && p + Pow2(k) <= TWO_64 && p % Pow2(k) == 0
    ensures AlignUp(p, Pow2(k)) == p
  {
    AlignUpPow2(p, k);
  }

  /** ALIGN(0, x) is 0 whatever x is. */
  lemma AlignUpZero(x: int)
    ensures AlignUp(0, x) == 0
  {
    var m := (x - 1) % TWO_64;
    assert (0 + x - 1) % TWO_64 == m;
    Pow2Values();
    AndComplementSelf(m, 64);
  }

  // ---------------------------------------------------------------------
  // Little-endian words.

  lemma WordRoundTrip(w: u32)
    ensures WordAt(WordBytes(w), 0) == w
  {
    var b0, q0 := w % 0x100, w / 0x100;
    var b1, q1 := q0 % 0x100, q0 / 0x100;
    var b2, b3 := q1 % 0x100, q1 / 0x100;
    assert w == b0 + 0x100 * q0 && q0 == b1 + 0x100 * q1 && q1 == b2 + 0x100 * b3;
    DivModUnique(w, 0x1_0000, q1, b0 + 0x100 * b1);
    DivModUnique(w, 0x100_0000, b3, b0 + 0x100 * b1 + 0x1_0000 * b2);
    assert WordBytes(w) == [b0, b1, b2, b3];
  }

  lemma WordBytesOf(s: seq<byte>, i: nat)
    requires i + 4 <= |s|
    ensures WordBytes(WordAt(s, i)) == s[i..i + 4]
  {
    var b0, b1, b2, b3: int := s[i], s[i + 1], s[i + 2], s[i + 3];
    var w := WordAt(s, i);
    DivModUnique(w, 0x100, b1 + 0x100 * b2 + 0x1_0000 * b3, b0);
    DivModUnique(w, 0x1_0000, b2 + 0x100 * b3, b0 + 0x100 * b1);
    DivModUnique(w, 0x100_0000, b3, b0 + 0x100 * b1 + 0x1_0000 * b2);
    DivModUnique(b1 + 0x100 * b2 + 0x1_0000 * b3, 0x100, b2 + 0x100 * b3, b1);
    DivModUnique(b2 + 0x100 * b3, 0x100, b3, b2);
  }

  // ---------------------------------------------------------------------
  // Splices.

  /** Writing a then b right after it is writing a + b. */
  lemma SpliceConcat<T>(s: seq<T>, p: nat, a: seq<T>, b: seq<T>)
    requires p + |a| + |b| <= |s|
    ensures Splice(Splice(s, p, a), p + |a|, b) == Splice(s, p, a + b)
  {
    var r := Splice(Splice(s, p, a), p + |a|, b);
    assert r[..p] == s[..p];
    assert r[p..p + |a| + |b|] == a + b by {
      assert r[p..p + |a| + |b|] == r[p..p + |a|] + r[p + |a|..p + |a| + |b|];
    }
  }

  /** Writing nothing changes nothing. */
  lemma SpliceEmpty<T>(s: seq<T>, p: nat)
    requires p <= |s|
    ensures Splice(s, p, []) == s
  {
  }

  /** Splicing back what was there changes nothing. */
  lemma SpliceSame<T>(s: seq<T>, p: nat, n: nat)
    requires p + n <= |s|
    ensures Splice(s, p, s[p..p + n]) == s
  {
  }

  // ---------------------------------------------------------------------
  // C strings.

  /**
   * The C string a buffer holds: everything before the first terminator,
   * or the whole buffer when it holds none (a read that would run past
   * the end).
   */
  function UntilNul<T(==)>(s: seq<T>, nul: T): (c: seq<T>)
    ensures c <= s && nul !in c
    ensures |c| < |s| ==> s[|c|] == nul
    decreases |s|
  {
    if |s| == 0 || s[0] == nul then [] else [s[0]] + UntilNul(s[1..], nul)
  }

  /** The string ends at the first terminator: any prefix free of it that is followed by one (or by the end) is the string. */
  lemma UntilNulAt<T>(s: seq<T>, nul: T, i: nat)
    requires i <= |s| && nul !in s[..i] && (i < |s| ==> s[i] == nul)
    ensures UntilNul(s, nul) == s[..i]
  {
  }
}
