/** Which arithmetic steps change 2 or 4 neighbouring bits of a number on both sides of a byte boundary. */
module LostSteps {
  import opened Bytes
  import opened Mutators
  import opened Arith
  import opened BitRuns

  /** The step by 32 carries out of the low byte of a little-endian number, or borrows, and changes no more than the
      lowest bit of the next byte. */
  predicate CarriesOneBit(buf: Input, at: nat, w: nat, delta: int, e: Endian)
    requires at + w <= |buf|
  {
    && e == Little && w > 1
    && ((delta == 32 && buf[at] >= 0xe0 && buf[at + 1] % 2 == 0)
        || (delta == -32 && buf[at] < 0x20 && buf[at + 1] % 2 == 1))
  }

  // ----- bytes in two parts -----

  function LowPart(a: Byte, t: nat): nat {
    if t == 1 then a % 2 else if t == 3 then a % 8 else if t == 5 then a % 32 else if t == 6 then a % 64 else a % 128
  }

  function HighPart(a: Byte, t: nat): nat {
    if t == 1 then a / 2 else if t == 3 then a / 8 else if t == 5 then a / 32 else if t == 6 then a / 64 else a / 128
  }

  lemma PowersOfTwo()
    ensures Pow2(1) == 2 && Pow2(2) == 4 && Pow2(3) == 8 && Pow2(5) == 32 && Pow2(6) == 64 && Pow2(7) == 128
  {
    assert Pow2(4) == 16;
  }

  lemma ByteInParts(a: Byte, t: nat)
    requires t == 1 || t == 3 || 5 <= t <= 7
    ensures a == LowPart(a, t) + Pow2(t) * HighPart(a, t)
    ensures LowPart(a, t) < Pow2(t) && HighPart(a, t) < Pow2(8 - t)
  {
    PowersOfTwo();
  }

  lemma {:induction false} PartsOfByte(a: Byte, t: nat, j: nat)
    requires t == 1 || t == 3 || 5 <= t <= 7
    ensures BitOf(a, j) == if j < t then BitOf(LowPart(a, t), j) else BitOf(HighPart(a, t), j - t)
    ensures LowPart(a, t) < Pow2(t) && HighPart(a, t) < Pow2(8 - t)
  {
    ByteInParts(a, t);
    JoinedBits(LowPart(a, t), HighPart(a, t), t, j);
  }

  lemma {:induction false} SameLowPart(a: Byte, b: Byte, t: nat)
    requires 5 <= t <= 7 && forall k :: 0 <= k < t ==> BitOf(a, k) == BitOf(b, k)
    ensures LowPart(a, t) == LowPart(b, t)
  {
    PartsOfByte(a, t, 0);
    PartsOfByte(b, t, 0);
    forall k | 0 <= k < t
      ensures BitOf(LowPart(a, t), k) == BitOf(LowPart(b, t), k)
    {
      PartsOfByte(a, t, k);
      PartsOfByte(b, t, k);
      assert BitOf(a, k) == BitOf(b, k);
    }
    SameNumber(LowPart(a, t), LowPart(b, t), t);
  }

  lemma {:induction false} SameHighPart(a: Byte, b: Byte, t: nat)
    requires (t == 1 || t == 3) && forall k :: t <= k < 8 ==> BitOf(a, k) == BitOf(b, k)
    ensures HighPart(a, t) == HighPart(b, t)
  {
    forall k | 0 <= k < 8 - t
      ensures BitOf(HighPart(a, t), k) == BitOf(HighPart(b, t), k)
    {
      PartsOfByte(a, t, k + t);
      PartsOfByte(b, t, k + t);
      assert BitOf(a, k + t) == BitOf(b, k + t);
    }
    PartsOfByte(a, t, 0);
    PartsOfByte(b, t, 0);
    SameNumber(HighPart(a, t), HighPart(b, t), 8 - t);
  }

  lemma {:induction false} OtherHighPart(a: Byte, b: Byte, t: nat)
    requires 5 <= t <= 7 && forall k :: t <= k < 8 ==> BitOf(a, k) != BitOf(b, k)
    ensures HighPart(a, t) + HighPart(b, t) == Pow2(8 - t) - 1
  {
    PartsOfByte(a, t, 0);
    PartsOfByte(b, t, 0);
    var other: nat := Pow2(8 - t) - 1 - HighPart(a, t);
    forall k | 0 <= k < 8 - t
      ensures BitOf(other, k) == BitOf(HighPart(b, t), k)
    {
      PartsOfByte(a, t, k + t);
      PartsOfByte(b, t, k + t);
      ComplementBit(HighPart(a, t), 8 - t, k);
      assert BitOf(a, k + t) != BitOf(b, k + t);
    }
    SameNumber(other, HighPart(b, t), 8 - t);
  }

  // ----- steps byte by byte -----

  /** A little-endian step: the low byte moves, and the next one takes the carry. */
  lemma {:induction false} LittleStep(c: Input, delta: int)
    requires c != []
    ensures var d, k := Shifted(c, delta, Little), (c[0] + delta) / 256;
            && d[0] == (c[0] + delta) % 256 && (k == 0 ==> d[1..] == c[1..])
            && (|c| > 1 ==> d[1] == (c[1] + k) % 256 && (0 <= c[1] + k < 256 ==> d[2..] == c[2..]))
  {
    var k := (c[0] + delta) / 256;
    SplitOff(c, delta);
    EncDec(c[1..]);
    if |c| > 1 {
      SplitOff(c[1..], k);
      EncDec(c[1..][1..]);
    }
  }

  lemma {:induction false} ReverseAt(s: Input, k: nat)
    requires k < |s|
    ensures Reverse(s)[k] == s[|s| - 1 - k]
    decreases |s|
  {
    if k < |s| - 1 {
      ReverseAt(s[1..], k);
    }
  }

  /** A big-endian step: the last byte moves, and without a carry the others stay. */
  lemma {:induction false} BigStep(c: Input, delta: int)
    requires c != []
    ensures var d, n := Shifted(c, delta, Big), |c| - 1;
            d[n] == (c[n] + delta) % 256 && (0 <= c[n] + delta < 256 ==> forall i :: 0 <= i < n ==> d[i] == c[i])
  {
    var n, m := |c| - 1, Reverse(c);
    var little := Shifted(m, delta, Little);
    assert Shifted(c, delta, Big) == Reverse(little);
    LittleStep(m, delta);
    ReverseAt(c, 0);
    ReverseAt(little, n);
    if 0 <= c[n] + delta < 256 {
      forall i | 0 <= i < n
        ensures Reverse(little)[i] == c[i]
      {
        ReverseAt(little, i);
        ReverseAt(c, n - i);
        assert little[n - i] == little[1..][n - i - 1] == m[1..][n - i - 1];
      }
    }
  }

  // ----- steps that cross a byte boundary -----

  /** What becomes of the two bytes on either side of the boundary. */
  ghost predicate BytesCross(x: Byte, x': Byte, y: Byte, y': Byte, t: nat) {
    && 5 <= t <= 7 && LowPart(x, t) == LowPart(x', t) && HighPart(x, t) + HighPart(x', t) == Pow2(8 - t) - 1
    && HighPart(y, 3) == HighPart(y', 3) && LowPart(y, 1) != LowPart(y', 1)
    && (t == 5 ==> HighPart(y, 1) == HighPart(y', 1))
  }

  lemma {:induction false} LowByteCrosses(buf: Input, r: Input, q: nat, t: nat, n: nat)
    requires CrossesAt(buf, r, q, t, n)
    ensures q < |buf| == |r| && LowPart(buf[q], t) == LowPart(r[q], t)
    ensures HighPart(buf[q], t) + HighPart(r[q], t) == Pow2(8 - t) - 1
  {
    forall k | 0 <= k < 8
      ensures BitOf(buf[q], k) == BitOf(r[q], k) <==> k < t
    {
      assert Flipped(buf, r, q, k) <==> k >= t;
    }
    SameLowPart(buf[q], r[q], t);
    OtherHighPart(buf[q], r[q], t);
  }

  lemma {:induction false} HighByteCrosses(buf: Input, r: Input, q: nat, t: nat, n: nat)
    requires CrossesAt(buf, r, q, t, n)
    ensures q + 1 < |buf| == |r| && HighPart(buf[q + 1], 3) == HighPart(r[q + 1], 3)
    ensures LowPart(buf[q + 1], 1) != LowPart(r[q + 1], 1)
    ensures t == 5 ==> HighPart(buf[q + 1], 1) == HighPart(r[q + 1], 1)
  {
    var y, y' := buf[q + 1], r[q + 1];
    forall k | t + n - 8 <= k < 8
      ensures BitOf(y, k) == BitOf(y', k)
    {
      assert !Flipped(buf, r, q + 1, k);
    }
    SameHighPart(y, y', 3);
    if t == 5 {
      SameHighPart(y, y', 1);
    }
    assert Flipped(buf, r, q + 1, 0);
  }

  lemma {:induction false} CrossedBytes(buf: Input, r: Input, q: nat, t: nat, n: nat)
    requires CrossesAt(buf, r, q, t, n)
    ensures q + 1 < |buf| == |r| && BytesCross(buf[q], r[q], buf[q + 1], r[q + 1], t)
    ensures forall i :: 0 <= i < |buf| && i != q && i != q + 1 ==> r[i] == buf[i]
  {
    LowByteCrosses(buf, r, q, t, n);
    HighByteCrosses(buf, r, q, t, n);
    forall i | 0 <= i < |buf| && i != q && i != q + 1
      ensures r[i] == buf[i]
    {
      forall k | 0 <= k < 8
        ensures BitOf(r[i], k) == BitOf(buf[i], k)
      {
        assert !Flipped(buf, r, i, k);
      }
      SameByte(r[i], buf[i]);
    }
  }

  lemma CarryIsByOne(x: Byte, x': Byte, y: Byte, y': Byte, t: nat, delta: int, k: int)
    requires BytesCross(x, x', y, y', t) && SmallDelta(delta)
    requires x' == x + delta - 256 * k && y' == (y + k) % 256
    ensures (delta == 32 && x >= 0xe0 && y % 2 == 0) || (delta == -32 && x < 0x20 && y % 2 == 1)
  {
    PowersOfTwo();
    ByteInParts(x, t);
    ByteInParts(x', t);
    CarriesAtFive(LowPart(x, t), HighPart(x, t), t, delta, k);
    assert k == 0 ==> y' == y;
    NextByteCarries(y, y', k);
  }

  /** The top bits can all flip only by a carry out of, or a borrow into, the top three bits. */
  lemma CarriesAtFive(low: nat, high: nat, t: nat, delta: int, k: int)
    requires 5 <= t <= 7 && high < Pow2(8 - t) && low < Pow2(t) && SmallDelta(delta)
    requires Pow2(t) * (Pow2(8 - t) - 1 - high) == Pow2(t) * high + delta - 256 * k
    ensures t == 5 && (k != 0 ==> (delta == 32 && k == 1 && high == 7) || (delta == -32 && k == -1 && high == 0))
    ensures k == 0 ==> delta == 32 || delta == -32
  {
    PowersOfTwo();
    assert t == 5 ==> 32 * (7 - 2 * high + 8 * k) == delta;
    assert t == 6 ==> 64 * (3 - 2 * high + 4 * k) == delta;
    assert t == 7 ==> 128 * (1 - 2 * high + 2 * k) == delta;
  }

  lemma NextByteCarries(y: Byte, y': Byte, k: int)
    requires -1 <= k <= 1 && y' == (y + k) % 256 && HighPart(y, 1) == HighPart(y', 1) && LowPart(y, 1) != LowPart(y', 1)
    ensures (k == 1 && y % 2 == 0) || (k == -1 && y % 2 == 1)
  {
  }

  lemma NoCarryFrom(y: Byte, y': Byte, delta: int)
    requires y' == (y + delta) % 256 && SmallDelta(delta) && HighPart(y, 3) == HighPart(y', 3)
    ensures 0 <= y + delta < 256
  {
  }

  lemma AnyStepMoves(y: Byte, delta: int)
    requires SmallDelta(delta)
    ensures (y + delta) % 256 != y
  {
  }

  /** Only bytes `j` and `j + 1` of the window differ, on either side of a boundary that is crossed. */
  ghost predicate WindowCrosses(c: Input, d: Input, j: nat, t: nat) {
    && j + 1 < |c| == |d| && BytesCross(c[j], d[j], c[j + 1], d[j + 1], t)
    && forall i :: 0 <= i < |c| && i != j && i != j + 1 ==> d[i] == c[i]
  }

  lemma {:induction false} CrossingInWindow(buf: Input, at: nat, d: Input, q: nat, t: nat, n: nat)
    requires at + |d| <= |buf| && CrossesAt(buf, Overwrite(buf, at, d), q, t, n)
    ensures at <= q && WindowCrosses(buf[at..at + |d|], d, q - at, t)
  {
    var r := Overwrite(buf, at, d);
    CrossedBytes(buf, r, q, t, n);
    assert buf[q] != r[q] && buf[q + 1] != r[q + 1];
    forall i | 0 <= i < |buf|
      ensures r[i] == if at <= i < at + |d| then d[i - at] else buf[i]
    {
    }
  }

  lemma {:induction false} LittleCrossing(c: Input, delta: int, j: nat, t: nat)
    requires SmallDelta(delta) && WindowCrosses(c, Shifted(c, delta, Little), j, t)
    ensures (delta == 32 && c[0] >= 0xe0 && c[1] % 2 == 0) || (delta == -32 && c[0] < 0x20 && c[1] % 2 == 1)
  {
    var d, k := Shifted(c, delta, Little), (c[0] + delta) / 256;
    LittleStep(c, delta);
    AnyStepMoves(c[0], delta);
    assert j == 0;
    CarryIsByOne(c[0], d[0], c[1], d[1], t, delta, k);
  }

  /** A big-endian step crosses no boundary: the byte that would carry changes its low bits only. */
  lemma {:induction false} BigCrossing(c: Input, delta: int, j: nat, t: nat)
    requires SmallDelta(delta)
    ensures !WindowCrosses(c, Shifted(c, delta, Big), j, t)
  {
    var d := Shifted(c, delta, Big);
    if WindowCrosses(c, d, j, t) {
      BigStep(c, delta);
      AnyStepMoves(c[|c| - 1], delta);
      assert j + 2 == |c|;
      NoCarryFrom(c[j + 1], d[j + 1], delta);
      OtherByte(c[j], t);
    }
  }

  lemma {:induction false} OtherByte(x: Byte, t: nat)
    requires 5 <= t <= 7
    ensures HighPart(x, t) + HighPart(x, t) != Pow2(8 - t) - 1
  {
    PowersOfTwo();
  }

  lemma {:induction false} CrossingCarries(buf: Input, at: nat, w: nat, delta: int, e: Endian)
    requires at + w <= |buf| && SmallDelta(delta) && CrossesByte(buf, WideStep(buf, at, w, delta, e))
    ensures CarriesOneBit(buf, at, w, delta, e)
  {
    var c := buf[at..at + w];
    var q: nat, t: nat, n: nat :| CrossesAt(buf, WideStep(buf, at, w, delta, e), q, t, n);
    CrossingInWindow(buf, at, Shifted(c, delta, e), q, t, n);
    WindowCarries(c, delta, e, q - at, t);
  }

  lemma {:induction false} WindowCarries(c: Input, delta: int, e: Endian, j: nat, t: nat)
    requires SmallDelta(delta) && WindowCrosses(c, Shifted(c, delta, e), j, t)
    ensures CarriesOneBit(c, 0, |c|, delta, e)
  {
    if e == Little {
      LittleCrossing(c, delta, j, t);
    } else {
      BigCrossing(c, delta, j, t);
    }
  }

  lemma {:induction false} TopBitsSet(x: Byte, k: nat)
    requires x < 0x20 && k < 8
    ensures BitOf(x, k) != BitOf(x + 0xe0, k) <==> k >= 5
  {
    PartsOfByte(x, 5, k);
    PartsOfByte(x + 0xe0, 5, k);
    NoHighBits(0, 0, if k >= 5 then k - 5 else 0);
    assert AllOnes(3) == 7;
    OnesBit(3, if k >= 5 then k - 5 else 0);
  }

  lemma {:induction false} LowestBitSet(y: Byte, k: nat)
    requires y % 2 == 0 && k < 8
    ensures BitOf(y, k) != BitOf(y + 1, k) <==> k == 0
  {
    if k > 0 {
      PartsOfByte(y, 1, k);
      PartsOfByte(y + 1, 1, k);
    }
  }

  /** Such a step sets or clears the top three bits of the low byte and the lowest bit of the next. */
  lemma {:induction false} CarriedBytes(c: Input, delta: int)
    requires CarriesOneBit(c, 0, |c|, delta, Little)
    ensures var d := Shifted(c, delta, Little);
            && (if delta == 32 then d[0] == c[0] - 0xe0 && d[1] == c[1] + 1
              else d[0] == c[0] + 0xe0 && d[1] == c[1] - 1)
            && d[2..] == c[2..]
  {
    LittleStep(c, delta);
  }

  lemma {:induction false} CarriedBits(c: Input, d: Input, delta: int, i: nat, k: nat)
    requires CarriesOneBit(c, 0, |c|, delta, Little) && d == Shifted(c, delta, Little) && i < |c| && k < 8
    ensures Flipped(c, d, i, k) <==> 5 <= 8 * i + k < 9
  {
    CarriedBytes(c, delta);
    if i == 0 {
      TopBitsSet(if delta == 32 then d[0] else c[0], k);
    } else if i == 1 {
      LowestBitSet(if delta == 32 then c[1] else d[1], k);
    } else {
      assert c[i] == c[2..][i - 2] == d[2..][i - 2] == d[i];
    }
  }

  lemma {:induction false} CarryCrosses(buf: Input, at: nat, w: nat, delta: int, e: Endian)
    requires at + w <= |buf| && CarriesOneBit(buf, at, w, delta, e)
    ensures CrossesByte(buf, WideStep(buf, at, w, delta, e))
  {
    var c := buf[at..at + w];
    var r, d := WideStep(buf, at, w, delta, e), Shifted(c, delta, e);
    forall i, k | 0 <= i < |buf| && 0 <= k < 8
      ensures Flipped(buf, r, i, k) <==> 8 * at + 5 <= 8 * i + k < 8 * at + 9
    {
      if at <= i < at + w {
        CarriedBits(c, d, delta, i - at, k);
        assert Flipped(buf, r, i, k) == Flipped(c, d, i - at, k);
      }
    }
    assert CrossesAt(buf, r, at, 5, 4);
  }

  /** A step crosses a byte boundary exactly if it carries or borrows one bit. */
  lemma CrossingIsOneCarry(buf: Input, at: nat, w: nat, delta: int, e: Endian)
    requires at + w <= |buf| && w > 0 && SmallDelta(delta)
    ensures CrossesByte(buf, WideStep(buf, at, w, delta, e)) <==> CarriesOneBit(buf, at, w, delta, e)
  {
    if CrossesByte(buf, WideStep(buf, at, w, delta, e)) {
      CrossingCarries(buf, at, w, delta, e);
    }
    if CarriesOneBit(buf, at, w, delta, e) {
      CarryCrosses(buf, at, w, delta, e);
    }
  }
}
