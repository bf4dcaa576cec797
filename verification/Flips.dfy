/** Walking bit flips: `FLIP_BIT` on a run of neighbouring bits, and what it leaves behind. */
module Flips {
  import opened Bytes
  import opened Mutators

  /** `FLIP_BIT(buf, b)`. */
  function FlipAt(buf: Input, b: nat): (r: Input)
    requires b < 8 * |buf|
    ensures |r| == |buf|
  {
    buf[b / 8 := FlipBit(buf[b / 8], b % 8)]
  }

  /** The `k` bits from `s` on flipped, in ascending order. */
  function FlipRun(buf: Input, s: nat, k: nat): (r: Input)
    requires s + k <= 8 * |buf|
    ensures |r| == |buf|
  {
    if k == 0 then buf else FlipAt(FlipRun(buf, s, k - 1), s + k - 1)
  }

  /** Bit `b` of a buffer, most significant bit of each byte first. */
  function BitAt(buf: Input, b: nat): bool
    requires b < 8 * |buf|
  {
    ByteBits(buf[b / 8])[b % 8]
  }

  lemma FlipAtBit(buf: Input, a: nat, b: nat)
    requires a < 8 * |buf| && b < 8 * |buf|
    ensures BitAt(FlipAt(buf, a), b) == (BitAt(buf, b) != (a == b))
  {
    if a / 8 == b / 8 {
      assert a == b <==> a % 8 == b % 8;
    }
  }

  /** Seen through any `bit` that a single flip toggles at its own place only, a run of flips toggles exactly its
      places. */
  lemma {:induction false} FlipRunToggles(bit: (Input, nat) -> bool, buf: Input, s: nat, k: nat, b: nat)
    requires s + k <= 8 * |buf| && b < 8 * |buf|
    requires forall x: Input, a: nat {:trigger bit(FlipAt(x, a), b)} ::
               |x| == |buf| && a < 8 * |x| ==> bit(FlipAt(x, a), b) == (bit(x, b) != (a == b))
    ensures bit(FlipRun(buf, s, k), b) == (bit(buf, b) != (s <= b < s + k))
    decreases k
  {
    if k > 0 {
      FlipRunToggles(bit, buf, s, k - 1, b);
      var before := FlipRun(buf, s, k - 1);
      assert bit(FlipAt(before, s + k - 1), b) == (bit(before, b) != (s + k - 1 == b));
    }
  }

  /** A run of flips changes exactly the bits of the run. */
  lemma {:induction false} FlipRunBit(buf: Input, s: nat, k: nat, b: nat)
    requires s + k <= 8 * |buf| && b < 8 * |buf|
    ensures BitAt(FlipRun(buf, s, k), b) == (BitAt(buf, b) != (s <= b < s + k))
  {
    var bit := (x: Input, c: nat) => c < 8 * |x| && BitAt(x, c);
    forall x: Input, a: nat | |x| == |buf| && a < 8 * |x|
      ensures bit(FlipAt(x, a), b) == (bit(x, b) != (a == b))
    {
      FlipAtBit(x, a, b);
    }
    FlipRunToggles(bit, buf, s, k, b);
  }

  lemma SameBits(a: Input, c: Input)
    requires |a| == |c| && forall b :: 0 <= b < 8 * |a| ==> BitAt(a, b) == BitAt(c, b)
    ensures a == c
  {
    forall i | 0 <= i < |a|
      ensures a[i] == c[i]
    {
      forall k | 0 <= k < 8
        ensures ByteBits(a[i])[k] == ByteBits(c[i])[k]
      {
        assert BitAt(a, 8 * i + k) == BitAt(c, 8 * i + k);
      }
      assert ByteBits(a[i]) == ByteBits(c[i]);
      ByteIsItsBits(a[i]);
      ByteIsItsBits(c[i]);
    }
  }

  /** Flipping the same run again, in the same order, restores the buffer. */
  lemma {:induction false} FlipRunTwice(buf: Input, s: nat, k: nat)
    requires s + k <= 8 * |buf|
    ensures FlipRun(FlipRun(buf, s, k), s, k) == buf
  {
    forall b | 0 <= b < 8 * |buf|
      ensures BitAt(FlipRun(FlipRun(buf, s, k), s, k), b) == BitAt(buf, b)
    {
      FlipRunBit(buf, s, k, b);
      FlipRunBit(FlipRun(buf, s, k), s, k, b);
    }
    SameBits(FlipRun(FlipRun(buf, s, k), s, k), buf);
  }

  lemma FlipRunNext(buf: Input, s: nat, k: nat)
    requires s + k < 8 * |buf|
    ensures FlipRun(buf, s, k + 1) == FlipAt(FlipRun(buf, s, k), s + k)
  {
  }

  /** Two positions of the same walk never give the same buffer, and none gives the input back. */
  lemma {:induction false} WalkNeverRepeats(buf: Input, s: nat, t: nat, k: nat)
    requires k > 0 && s + k <= 8 * |buf| && t + k <= 8 * |buf|
    ensures FlipRun(buf, s, k) == FlipRun(buf, t, k) <==> s == t
    ensures FlipRun(buf, s, k) != buf
  {
    var b := Min(s, t);
    FlipRunBit(buf, s, k, b);
    FlipRunBit(buf, t, k, b);
    FlipRunBit(buf, s, k, s);
  }

  /** The buffers that a walk runs, given the one for each of its `n` positions. */
  ghost function Visited(g: nat -> Input, n: nat): (r: seq<Input>)
    ensures |r| == n
  {
    seq(n, s requires 0 <= s < n => g(s))
  }

  ghost function FlipsAt(buf: Input, k: nat): nat -> Input {
    (s: nat) => if s + k <= 8 * |buf| then FlipRun(buf, s, k) else buf
  }

  /** The buffers that a walk of `k` bits over the whole input runs. */
  ghost function Walk(buf: Input, k: nat): (r: seq<Input>)
    requires k <= 8 * |buf|
    ensures |r| == 8 * |buf| - k + 1
  {
    Visited(FlipsAt(buf, k), 8 * |buf| - k + 1)
  }

  lemma VisitNext(g: nat -> Input, n: nat)
    ensures Visited(g, n + 1) == Visited(g, n) + [g(n)]
  {
  }

  lemma VisitedGrows(g: nat -> Input, a: nat, b: nat)
    requires a <= b
    ensures Visited(g, a) <= Visited(g, b)
  {
  }

  lemma {:induction false} WalkAt(buf: Input, k: nat, s: nat)
    requires s + k <= 8 * |buf|
    ensures Walk(buf, k)[s] == FlipRun(buf, s, k)
  {
  }

  /** A walk visits every position once: no buffer is run twice, and none is the input. */
  lemma WalkIsDistinct(buf: Input, k: nat, s: nat, t: nat)
    requires 0 < k && s + k <= 8 * |buf| && t + k <= 8 * |buf|
    ensures Walk(buf, k)[s] == Walk(buf, k)[t] <==> s == t
    ensures Walk(buf, k)[s] != buf
  {
    WalkAt(buf, k, s);
    WalkAt(buf, k, t);
    WalkNeverRepeats(buf, s, t, k);
  }

  /** `^= 0xFF` on every byte. */
  function Complement(bs: Input): (r: Input)
    ensures |r| == |bs|
  {
    seq(|bs|, i requires 0 <= i < |bs| => 255 - bs[i])
  }

  lemma ComplementTwice(bs: Input)
    ensures Complement(Complement(bs)) == bs
  {
  }

  /** The buffer with the `w` bytes at `at` inverted. */
  function Inverted(buf: Input, at: nat, w: nat): (r: Input)
    requires at + w <= |buf|
    ensures |r| == |buf|
  {
    Overwrite(buf, at, Complement(buf[at..at + w]))
  }
}
