/** Numbers and buffers bit by bit: which buffers differ from the input in one run of neighbouring bits. */
module BitRuns {
  import opened Bytes
  import opened Mutators
  import opened Flips
  import opened Arith

  // ----- bits of numbers -----

  /** Bit `j` of a number, the least significant one being bit 0. */
  predicate BitOf(v: nat, j: nat)
    decreases j
  {
    if j == 0 then v % 2 == 1 else BitOf(v / 2, j - 1)
  }

  lemma {:induction false} BitsAt(v: nat, n: nat, k: nat)
    requires k < n
    ensures Bits(v, n)[k] == BitOf(v, n - 1 - k)
    decreases n
  {
    if k < n - 1 {
      BitsAt(v / 2, n - 1, k);
    }
  }

  lemma {:induction false} SameNumber(a: nat, b: nat, n: nat)
    requires a < Pow2(n) && b < Pow2(n) && forall j :: 0 <= j < n ==> BitOf(a, j) == BitOf(b, j)
    ensures a == b
    decreases n
  {
    if n > 0 {
      assert BitOf(a, 0) == BitOf(b, 0);
      forall j | 0 <= j < n - 1
        ensures BitOf(a / 2, j) == BitOf(b / 2, j)
      {
        assert BitOf(a, j + 1) == BitOf(b, j + 1);
      }
      SameNumber(a / 2, b / 2, n - 1);
    }
  }

  lemma {:induction false} NoHighBits(v: nat, n: nat, j: nat)
    requires v < Pow2(n) && n <= j
    ensures !BitOf(v, j)
    decreases j
  {
    if j > 0 {
      NoHighBits(v / 2, if n > 0 then n - 1 else 0, j - 1);
    }
  }

  lemma {:induction false} XorBit(a: nat, b: nat, w: nat, j: nat)
    requires j < 8 * w
    ensures BitOf(Xor(a, b, w), j) == (BitOf(a, j) != BitOf(b, j))
  {
    var n := 8 * w;
    var k := n - 1 - j;
    BitsRoundTrip(XorBits(Bits(a, n), Bits(b, n)));
    BitsAt(Xor(a, b, w), n, k);
    BitsAt(a, n, k);
    BitsAt(b, n, k);
  }

  /** A number whose low `n` bits are those of `lo`, and whose other bits are those of `hi`. */
  lemma {:induction false} JoinedBits(lo: nat, hi: nat, n: nat, j: nat)
    requires lo < Pow2(n)
    ensures BitOf(lo + Pow2(n) * hi, j) == if j < n then BitOf(lo, j) else BitOf(hi, j - n)
    decreases n
  {
    if n > 0 {
      var p := Pow2(n - 1) * hi;
      assert Pow2(n) * hi == 2 * p;
      assert (lo + 2 * p) / 2 == lo / 2 + p && (lo + 2 * p) % 2 == lo % 2;
      if j > 0 {
        JoinedBits(lo / 2, hi, n - 1, j - 1);
      }
    }
  }

  /** The number in a window, byte by byte. */
  lemma {:induction false} DecBit(c: Input, q: nat, k: nat)
    requires q < |c| && k < 8
    ensures BitOf(Dec(c), 8 * q + k) == BitOf(c[q], k)
    decreases |c|
  {
    EightBits();
    JoinedBits(c[0], Dec(c[1..]), 8, 8 * q + k);
    if q > 0 {
      DecBit(c[1..], q - 1, k);
    }
  }

  lemma {:induction false} XorOfBytes(c: Input, d: Input, q: nat, k: nat)
    requires q < |c| == |d| && k < 8
    ensures BitOf(Xor(Dec(c), Dec(d), |c|), 8 * q + k) == (BitOf(c[q], k) != BitOf(d[q], k))
  {
    XorBit(Dec(c), Dec(d), |c|, 8 * q + k);
    DecBit(c, q, k);
    DecBit(d, q, k);
  }

  lemma {:induction false} SameXor(c: Input, d: Input)
    requires |c| == |d| && Xor(Dec(c), Dec(d), |c|) == 0
    ensures c == d
  {
    forall q | 0 <= q < |c|
      ensures c[q] == d[q]
    {
      SameXorByte(c, d, q);
    }
  }

  lemma {:induction false} SameXorByte(c: Input, d: Input, q: nat)
    requires q < |c| == |d| && Xor(Dec(c), Dec(d), |c|) == 0
    ensures c[q] == d[q]
  {
    forall k | 0 <= k < 8
      ensures BitOf(c[q], k) == BitOf(d[q], k)
    {
      XorOfBytes(c, d, q, k);
      NoHighBits(0, 0, 8 * q + k);
    }
    SameByte(c[q], d[q]);
  }

  /** `n` set bits. */
  function AllOnes(n: nat): nat {
    if n == 0 then 0 else 2 * AllOnes(n - 1) + 1
  }

  lemma {:induction false} OnesBit(n: nat, j: nat)
    ensures BitOf(AllOnes(n), j) <==> j < n
    decreases j
  {
    if n == 0 {
      NoHighBits(0, 0, j);
    } else if j > 0 {
      OnesBit(n - 1, j - 1);
      assert AllOnes(n) / 2 == AllOnes(n - 1);
    }
  }

  lemma {:induction false} ShiftedOnesBit(n: nat, s: nat, j: nat)
    ensures BitOf(Shl(AllOnes(n), s), j) <==> s <= j < s + n
    decreases s
  {
    if s == 0 {
      OnesBit(n, j);
    } else if j > 0 {
      ShiftedOnesBit(n, s - 1, j - 1);
    }
  }

  lemma {:induction false} ShiftedOnesFit(n: nat, s: nat)
    ensures Shl(AllOnes(n), s) < Pow2(s + n)
    decreases s, n
  {
    if s > 0 {
      ShiftedOnesFit(n, s - 1);
    } else if n > 0 {
      ShiftedOnesFit(n - 1, 0);
    }
  }

  lemma OnesValues()
    ensures AllOnes(1) == 1 && AllOnes(2) == 3 && AllOnes(4) == 15 && AllOnes(8) == 0xff
    ensures AllOnes(16) == 0xffff && AllOnes(32) == 0xffff_ffff
  {
    assert AllOnes(6) == 63;
    assert AllOnes(12) == 0xfff;
    assert AllOnes(20) == 0xf_ffff;
    assert AllOnes(24) == 0xff_ffff;
    assert AllOnes(28) == 0xfff_ffff;
  }

  /** Of the low `m` bits of a number, exactly the `n` bits from `s` on are set. */
  ghost predicate OnesAt(v: nat, m: nat, n: nat, s: nat) {
    s + n <= m && forall j: nat :: j < m ==> (BitOf(v, j) <==> s <= j < s + n)
  }

  lemma {:induction false} OnesShow(v: nat, m: nat, n: nat, s: nat)
    requires v < Pow2(m) && n > 0 && v == Shl(AllOnes(n), s)
    ensures OnesAt(v, m, n, s)
  {
    forall j: nat
      ensures BitOf(v, j) <==> s <= j < s + n
    {
      ShiftedOnesBit(n, s, j);
    }
    if s + n > m {
      NoHighBits(v, m, s + n - 1);
    }
  }

  lemma {:induction false} OnesAre(v: nat, m: nat, n: nat, s: nat)
    requires v < Pow2(m) && OnesAt(v, m, n, s)
    ensures v == Shl(AllOnes(n), s)
  {
    forall j | 0 <= j < m
      ensures BitOf(v, j) == BitOf(Shl(AllOnes(n), s), j)
    {
      ShiftedOnesBit(n, s, j);
    }
    ShiftedOnesFit(n, s);
    Pow2Monotone(s + n, m);
    SameNumber(v, Shl(AllOnes(n), s), m);
  }

  // ----- bits of buffers -----

  /** The buffers differ in bit `k` of byte `i`, bit 0 being the least significant one. */
  predicate Flipped(buf: Input, r: Input, i: nat, k: nat)
    requires i < |buf| == |r| && k < 8
  {
    BitOf(buf[i], k) != BitOf(r[i], k)
  }

  /** The buffers differ exactly in the `n` bits from `s` on, counted as the walking flips count them: the most
      significant bit of each byte first. */
  ghost predicate ChangesRun(buf: Input, r: Input, s: nat, n: nat) {
    && |r| == |buf| && s + n <= 8 * |buf|
    && forall i, k :: 0 <= i < |buf| && 0 <= k < 8 ==> (Flipped(buf, r, i, k) <==> s <= 8 * i + 7 - k < s + n)
  }

  /** The same with bits counted as in a little-endian number: the least significant bit of each byte first. */
  ghost predicate ChangesLow(buf: Input, r: Input, s: nat, n: nat) {
    && |r| == |buf| && s + n <= 8 * |buf|
    && forall i, k :: 0 <= i < |buf| && 0 <= k < 8 ==> (Flipped(buf, r, i, k) <==> s <= 8 * i + k < s + n)
  }

  lemma SameByte(a: Byte, b: Byte)
    requires forall k :: 0 <= k < 8 ==> BitOf(a, k) == BitOf(b, k)
    ensures a == b
  {
    EightBits();
    SameNumber(a, b, 8);
  }

  lemma SameChanges(buf: Input, r: Input, r': Input, s: nat, n: nat)
    requires ChangesRun(buf, r, s, n) && ChangesRun(buf, r', s, n)
    ensures r == r'
  {
    forall i | 0 <= i < |buf|
      ensures r[i] == r'[i]
    {
      forall k | 0 <= k < 8
        ensures BitOf(r[i], k) == BitOf(r'[i], k)
      {
        assert Flipped(buf, r, i, k) == Flipped(buf, r', i, k);
      }
      SameByte(r[i], r'[i]);
    }
  }

  lemma InBothRuns(buf: Input, r: Input, s: nat, n: nat, s': nat, n': nat, p: nat)
    requires ChangesRun(buf, r, s, n) && ChangesRun(buf, r, s', n') && s <= p < s + n
    ensures s' <= p < s' + n'
  {
    assert p == 8 * (p / 8) + 7 - (7 - p % 8);
    assert Flipped(buf, r, p / 8, 7 - p % 8);
  }

  /** Two buffers differ in at most one run. */
  lemma RunIsUnique(buf: Input, r: Input, s: nat, n: nat, s': nat, n': nat)
    requires ChangesRun(buf, r, s, n) && ChangesRun(buf, r, s', n') && n > 0 && n' > 0
    ensures s == s' && n == n'
  {
    InBothRuns(buf, r, s, n, s', n', s);
    InBothRuns(buf, r, s, n, s', n', s + n - 1);
    InBothRuns(buf, r, s', n', s, n, s');
    InBothRuns(buf, r, s', n', s, n, s' + n' - 1);
  }

  lemma {:induction false} BitAtIs(buf: Input, i: nat, k: nat)
    requires i < |buf| && k < 8
    ensures BitAt(buf, 8 * i + (7 - k)) == BitOf(buf[i], k)
  {
    BitsAt(buf[i], 8, 7 - k);
  }

  lemma {:induction false} FlipRunChanges(buf: Input, s: nat, n: nat)
    requires s + n <= 8 * |buf|
    ensures ChangesRun(buf, FlipRun(buf, s, n), s, n)
  {
    var r := FlipRun(buf, s, n);
    forall i, k | 0 <= i < |buf| && 0 <= k < 8
      ensures Flipped(buf, r, i, k) <==> s <= 8 * i + 7 - k < s + n
    {
      BitAtIs(buf, i, k);
      BitAtIs(r, i, k);
      FlipRunBit(buf, s, n, 8 * i + (7 - k));
    }
  }

  lemma {:induction false} ComplementBit(v: nat, n: nat, k: nat)
    requires v < Pow2(n) && k < n
    ensures BitOf(Pow2(n) - 1 - v, k) != BitOf(v, k)
    decreases n
  {
    var p := Pow2(n - 1);
    assert (2 * p - 1 - v) / 2 == p - 1 - v / 2;
    if k > 0 {
      ComplementBit(v / 2, n - 1, k - 1);
    }
  }

  lemma InvertedChanges(buf: Input, at: nat, w: nat)
    requires at + w <= |buf|
    ensures ChangesRun(buf, Inverted(buf, at, w), 8 * at, 8 * w)
  {
    var r := Inverted(buf, at, w);
    EightBits();
    forall i, k | 0 <= i < |buf| && 0 <= k < 8
      ensures Flipped(buf, r, i, k) <==> 8 * at <= 8 * i + 7 - k < 8 * at + 8 * w
    {
      if at <= i < at + w {
        assert r[i] == 255 - buf[i];
        ComplementBit(buf[i], 8, k);
      } else {
        assert r[i] == buf[i];
      }
    }
  }

  // ----- runs of bits in numbers and in buffers -----

  lemma SamePlaceInByte(q: nat, t: nat, n: nat, i: nat, k: nat)
    requires t + n <= 8 && k < 8
    ensures 8 * q + t <= 8 * i + k < 8 * q + t + n <==> 8 * q + 8 - t - n <= 8 * i + 7 - k < 8 * q + 8 - t
  {
  }

  lemma SameBytes(q: nat, m: nat, i: nat, k: nat)
    requires k < 8
    ensures 8 * q <= 8 * i + k < 8 * q + 8 * m <==> 8 * q <= 8 * i + 7 - k < 8 * q + 8 * m
  {
  }

  /** A run of bits within byte `q` is one that the walking flips reach. */
  lemma RunInByte(buf: Input, r: Input, q: nat, t: nat, n: nat)
    requires ChangesLow(buf, r, 8 * q + t, n) && 0 < n && t + n <= 8
    ensures ChangesRun(buf, r, 8 * q + 8 - t - n, n)
  {
    assert q < |buf|;
    forall i, k | 0 <= i < |buf| && 0 <= k < 8
      ensures Flipped(buf, r, i, k) <==> 8 * q + 8 - t - n <= 8 * i + 7 - k < 8 * q + 8 - t
    {
      SamePlaceInByte(q, t, n, i, k);
    }
  }

  lemma RunOfBytes(buf: Input, r: Input, q: nat, m: nat)
    requires ChangesLow(buf, r, 8 * q, 8 * m)
    ensures ChangesRun(buf, r, 8 * q, 8 * m)
  {
    forall i, k | 0 <= i < |buf| && 0 <= k < 8
      ensures Flipped(buf, r, i, k) <==> 8 * q <= 8 * i + 7 - k < 8 * q + 8 * m
    {
      SameBytes(q, m, i, k);
    }
  }

  /** The difference is 2 or 4 neighbouring bits of a little-endian number, in two bytes: the top bits of byte `q` from
      `t` on and the low bits of the next. */
  ghost predicate CrossesAt(buf: Input, r: Input, q: nat, t: nat, n: nat) {
    (n == 2 || n == 4) && t < 8 < t + n && ChangesLow(buf, r, 8 * q + t, n)
  }

  ghost predicate CrossesByte(buf: Input, r: Input) {
    exists q, t, n :: CrossesAt(buf, r, q, t, n)
  }

  /** In the order of the walking flips such bits are not neighbours. */
  lemma CrossingIsNoRun(buf: Input, r: Input, s: nat, n: nat)
    requires CrossesByte(buf, r)
    ensures !ChangesRun(buf, r, s, n)
  {
    var q: nat, t: nat, m: nat :| CrossesAt(buf, r, q, t, m);
    assert Flipped(buf, r, q, 7) && Flipped(buf, r, q + 1, 0) && !Flipped(buf, r, q, 0);
  }

  /** What writing `d` at `at` changes, in terms of the xor of the old and the new number. */
  lemma {:induction false} WindowBit(buf: Input, at: nat, d: Input, i: nat, k: nat)
    requires at + |d| <= |buf| && i < |buf| && k < 8
    ensures Flipped(buf, Overwrite(buf, at, d), i, k)
       <==> at <= i < at + |d| && BitOf(Xor(Dec(buf[at..at + |d|]), Dec(d), |d|), 8 * (i - at) + k)
  {
    var r := Overwrite(buf, at, d);
    if at <= i < at + |d| {
      XorOfBytes(buf[at..at + |d|], d, i - at, k);
      assert r[i] == d[i - at];
    } else {
      assert r[i] == buf[i];
    }
  }

  /** A change that looks like a run of bits of the number in a window is a run of bits of the buffer. */
  lemma {:induction false} ShownChanges(buf: Input, at: nat, d: Input, n: nat, s: nat)
    requires at + |d| <= |buf| && n > 0 && Xor(Dec(buf[at..at + |d|]), Dec(d), |d|) == Shl(AllOnes(n), s)
    ensures s + n <= 8 * |d| && ChangesLow(buf, Overwrite(buf, at, d), 8 * at + s, n)
  {
    var r, x := Overwrite(buf, at, d), Xor(Dec(buf[at..at + |d|]), Dec(d), |d|);
    OnesShow(x, 8 * |d|, n, s);
    forall i, k | 0 <= i < |buf| && 0 <= k < 8
      ensures Flipped(buf, r, i, k) <==> 8 * at + s <= 8 * i + k < 8 * at + s + n
    {
      WindowBit(buf, at, d, i, k);
      InWindow(at, |d|, n, s, i, k);
    }
  }

  lemma InWindow(at: nat, w: nat, n: nat, s: nat, i: nat, k: nat)
    requires k < 8 && s + n <= 8 * w
    ensures 8 * at + s <= 8 * i + k < 8 * at + s + n ==> at <= i < at + w
  {
  }

  /** A change of a run of bits lies in the window, and looks like that run of bits of the number there. */
  lemma {:induction false} ChangesAreShown(buf: Input, at: nat, d: Input, n: nat, s: nat)
    requires at + |d| <= |buf| && n > 0 && ChangesLow(buf, Overwrite(buf, at, d), s, n)
    ensures 8 * at <= s && s + n <= 8 * (at + |d|)
    ensures Xor(Dec(buf[at..at + |d|]), Dec(d), |d|) == Shl(AllOnes(n), s - 8 * at)
  {
    var r, x := Overwrite(buf, at, d), Xor(Dec(buf[at..at + |d|]), Dec(d), |d|);
    PlaceOf(buf, at, d, s);
    PlaceOf(buf, at, d, s + n - 1);
    forall j: nat | j < 8 * |d|
      ensures BitOf(x, j) <==> s <= 8 * at + j < s + n
    {
      var q, k := j / 8, j % 8;
      WindowBit(buf, at, d, at + q, k);
      assert j == 8 * q + k;
    }
    OnesAre(x, 8 * |d|, n, s - 8 * at);
  }

  /** A bit that differs lies in the window. */
  lemma PlaceOf(buf: Input, at: nat, d: Input, p: nat)
    requires at + |d| <= |buf| && p < 8 * |buf| && Flipped(buf, Overwrite(buf, at, d), p / 8, p % 8)
    ensures 8 * at <= p < 8 * (at + |d|)
  {
    WindowBit(buf, at, d, p / 8, p % 8);
    assert p == 8 * (p / 8) + p % 8;
  }
}
