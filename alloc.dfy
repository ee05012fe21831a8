/**
 * Storage arithmetic shared by the two buffer implementations: the power-of-two rounding loop of
 * grow_buffer (blocksearch.c:166, bytesearch.c:100) and the effect of realloc_ck on a buffer's
 * bytes (blocksearch.c:148-160, bytesearch.c:84-94).
 */
module Alloc {

  predicate IsPowerOfTwo(n: nat)
    decreases n
  {
    n == 1 || (n >= 2 && n % 2 == 0 && IsPowerOfTwo(n / 2))
  }

  /** The smallest power of two that is at least m. */
  function CeilPow2(m: nat): (r: nat)
    decreases m
    ensures IsPowerOfTwo(r) && m <= r
    ensures r == 1 || r / 2 < m
  {
    if m <= 1 then 1
    else
      var h := CeilPow2((m + 1) / 2);
      DoublingReaches(m, h);
      2 * h
  }

  /** Doubling a power of two h rounded up from half of m (rounded up) gives one rounded up from m. */
  lemma DoublingReaches(m: nat, h: nat)
    requires m >= 2 && IsPowerOfTwo(h) && (m + 1) / 2 <= h
    requires h == 1 || h / 2 < (m + 1) / 2
    ensures IsPowerOfTwo(2 * h) && m <= 2 * h && (2 * h) / 2 < m
  {
    DoubleIsPowerOfTwo(h);
    var k := (m + 1) / 2;
    assert m <= 2 * k <= m + 1;
    if h != 1 {
      assert h % 2 == 0 && h == 2 * (h / 2);
    }
    assert (2 * h) / 2 == h;
  }

  /** A power of two smaller than another one is at most half of it. */
  lemma {:induction false} PowerBelowIsAtMostHalf(p: nat, q: nat)
    requires IsPowerOfTwo(p) && IsPowerOfTwo(q) && p < q
    ensures p <= q / 2
  {
    if p != 1 {
      PowerBelowIsAtMostHalf(p / 2, q / 2);
    }
  }

  /** A power of two whose half lies below m is at most any power of two that reaches m. */
  lemma RoundedIsLeast(m: nat, r: nat, p: nat)
    requires IsPowerOfTwo(r) && (r == 1 || r / 2 < m)
    requires IsPowerOfTwo(p) && m <= p
    ensures r <= p
  {
    if p < r {
      PowerBelowIsAtMostHalf(p, r);
    }
  }

  /** CeilPow2(m) is the least power of two that is at least m. */
  lemma CeilPow2IsLeast(m: nat, p: nat)
    requires IsPowerOfTwo(p) && m <= p
    ensures CeilPow2(m) <= p
  {
    RoundedIsLeast(m, CeilPow2(m), p);
  }

  lemma DoubleIsPowerOfTwo(p: nat)
    requires IsPowerOfTwo(p)
    ensures IsPowerOfTwo(2 * p)
  {
    assert (2 * p) / 2 == p && (2 * p) % 2 == 0;
  }

  /** Rounding one past a power of two doubles it: a full buffer grown by one byte doubles. */
  lemma CeilPow2AfterFull(p: nat)
    requires IsPowerOfTwo(p)
    ensures CeilPow2(p + 1) == 2 * p
  {
    var c := CeilPow2(p + 1);
    DoubleIsPowerOfTwo(p);
    CeilPow2IsLeast(p + 1, 2 * p);
    assert c <= 2 * p;
    PowerBelowIsAtMostHalf(p, c);
    assert p <= c / 2 <= p;
    assert c % 2 == 0;
  }

  /** The loop `for (bytes = 1; bytes < minimum; bytes += bytes) {}` of grow_buffer. */
  method RoundUpToPowerOfTwo(minimum: nat) returns (bytes: nat)
    ensures IsPowerOfTwo(bytes) && minimum <= bytes
    ensures bytes == 1 || bytes / 2 < minimum
    ensures bytes == CeilPow2(minimum)
  {
    bytes := 1;
    while bytes < minimum
      invariant IsPowerOfTwo(bytes)
      invariant bytes == 1 || bytes / 2 < minimum
      decreases minimum - bytes
    {
      bytes := bytes + bytes;
    }
    RoundedIsLeast(minimum, bytes, CeilPow2(minimum));
    RoundedIsLeast(minimum, CeilPow2(minimum), bytes);
  }

  /**
   * The bytes of a block after realloc_ck(p, newsz): the first min(|p|, newsz) bytes are kept. The
   * bytes a growing realloc adds are indeterminate in C; the model fills them with zeros, and no
   * contract in this model depends on their value. An empty p stands for a NULL pointer.
   */
  function Realloc(p: seq<bv8>, newsz: nat): (q: seq<bv8>)
    requires newsz == 0 ==> |p| > 0
    ensures |q| == newsz
    ensures newsz <= |p| ==> q == p[..newsz]
    ensures newsz > |p| ==> q[..|p|] == p
  {
    if newsz <= |p| then p[..newsz] else p + seq(newsz - |p|, _ => 0)
  }
}
