/** The filters of the deterministic stages: which changes count as an arithmetic step, and when a wide step is only a
    narrow one. Buffers are little-endian, as on the machines the stages are written for. */
module Arith {
  import opened Bytes
  import opened Mutators

  // ----- numbers modulo 256^w -----

  function Pow256(w: nat): (p: nat)
    ensures p > 0
  {
    if w == 0 then 1 else 256 * Pow256(w - 1)
  }

  lemma Pow256Values()
    ensures Pow256(1) == 0x100 && Pow256(2) == 0x1_0000 && Pow256(4) == 0x1_0000_0000
  {
    assert Pow256(3) == 0x100_0000;
  }

  predicate IsWidth(w: nat) {
    w == 1 || w == 2 || w == 4
  }

  lemma NextDigit(v: int, m: nat)
    requires m > 0
    ensures v % (256 * m) == v % 256 + 256 * (v / 256 % m)
  {
    var a, b := v / 256, v % 256;
    assert a == m * (a / m) + a % m;
    RemainderIs(v, 256 * m, a / m, b + 256 * (a % m));
  }

  lemma {:induction false} DecEncModulo(v: int, w: nat)
    ensures Dec(Enc(v, w)) == v % Pow256(w)
    decreases w
  {
    if w > 0 {
      DecEncModulo(v / 256, w - 1);
      NextDigit(v, Pow256(w - 1));
      assert Enc(v, w)[1..] == Enc(v / 256, w - 1);
    }
  }

  lemma {:induction false} DecFits(bs: Input)
    ensures Dec(bs) < Pow256(|bs|)
  {
    if bs != [] {
      DecFits(bs[1..]);
    }
  }

  /** `a` moved by `delta` is `b`, modulo `modulus`. `Moved` marks the lemmas that look into it. */
  ghost predicate MovesTo(a: nat, delta: int, b: nat, modulus: nat)
    requires modulus > 0
  {
    forall x {:trigger Moved(x)} :: x == a + delta ==> x % modulus == b
  }

  ghost predicate Moved(x: int) {
    true
  }

  lemma MovesToOne(a: nat, delta: int, b: nat, b': nat, modulus: nat)
    requires modulus > 0 && MovesTo(a, delta, b, modulus)
    ensures MovesTo(a, delta, b', modulus) <==> b == b'
  {
    assert Moved(a + delta);
  }

  lemma EncMoves(a: nat, delta: int, w: nat)
    ensures MovesTo(a, delta, Dec(Enc(a + delta, w)), Pow256(w))
  {
    DecEncModulo(a + delta, w);
  }

  lemma {:induction false} ReadBackAs(v: int, w: nat, e: Endian)
    ensures DecAs(EncAs(v, w, e), e) == Dec(Enc(v, w))
  {
    ReverseTwice(Enc(v, w));
  }

  lemma {:induction false} ShiftedMoves(c: Input, delta: int, e: Endian)
    ensures MovesTo(DecAs(c, e), delta, DecAs(Shifted(c, delta, e), e), Pow256(|c|))
  {
    EncMoves(DecAs(c, e), delta, |c|);
    ReadBackAs(DecAs(c, e) + delta, |c|, e);
  }

  lemma SameNumberSameBytes(c: Input, d: Input, e: Endian)
    requires |c| == |d|
    ensures DecAs(c, e) == DecAs(d, e) <==> c == d
  {
    if e == Little {
      EncDec(c);
      EncDec(d);
    } else {
      EncDec(Reverse(c));
      EncDec(Reverse(d));
      SameMirrored(c, d);
    }
  }

  lemma {:induction false} SameMirrored(a: Input, b: Input)
    ensures Reverse(a) == Reverse(b) <==> a == b
  {
    ReverseTwice(a);
    ReverseTwice(b);
  }

  /** Moving a number by `delta` gives another number exactly when they differ by `delta` modulo the width. */
  lemma {:induction false} ShiftedIsModular(c: Input, d: Input, delta: int, e: Endian)
    requires |d| == |c|
    ensures Shifted(c, delta, e) == d <==> MovesTo(DecAs(c, e), delta, DecAs(d, e), Pow256(|c|))
  {
    ShiftedMoves(c, delta, e);
    MovesToOne(DecAs(c, e), delta, DecAs(Shifted(c, delta, e), e), DecAs(d, e), Pow256(|c|));
    SameNumberSameBytes(Shifted(c, delta, e), d, e);
  }

  // ----- could_be_arith -----

  /** One arithmetic step: the number of width `w` at `at`, read in byte order `e`, moved by `delta`. */
  ghost predicate IsStep(o: Input, n: Input, at: nat, w: nat, e: Endian, delta: int) {
    at + w <= |o| && n == Overwrite(o, at, Shifted(o[at..at + w], delta, e))
  }

  ghost predicate SmallDelta(delta: int) {
    1 <= delta <= 35 || -35 <= delta <= -1
  }

  /** The offsets at which a number of `w` bytes is aligned in a value of at most four bytes. */
  predicate Aligned(at: nat, w: nat) {
    (w == 1 && at < 4) || (w == 2 && (at == 0 || at == 2)) || (w == 4 && at == 0)
  }

  /** Some aligned number of `w` bytes was moved by 1..35. */
  ghost predicate StepOfWidth(o: Input, n: Input, w: nat) {
    exists at, e, delta :: Aligned(at, w) && SmallDelta(delta) && IsStep(o, n, at, w, e, delta)
  }

  /** Some byte, aligned half or whole was moved by 1..35, in either byte order. */
  ghost predicate OneStep(o: Input, n: Input) {
    StepOfWidth(o, n, 1) || StepOfWidth(o, n, 2) || StepOfWidth(o, n, 4)
  }

  /** The test `(a - b) <= ARITH_MAX || (b - a) <= ARITH_MAX` on unsigned numbers below `modulus`. */
  predicate Near(a: nat, b: nat, modulus: nat)
    requires modulus > 0
  {
    (a - b) % modulus <= ARITH_MAX || (b - a) % modulus <= ARITH_MAX
  }

  /** A number that leaves the range by less than its size wraps around once. */
  lemma WrapsOnce(x: int, m: nat)
    requires m > 0 && 0 - m <= x < 2 * m
    ensures x % m == if x < 0 then x + m else if x < m then x else x - m
  {
    if x < 0 {
      RemainderIs(x, m, -1, x + m);
    } else if x < m {
      RemainderIs(x, m, 0, x);
    } else {
      RemainderIs(x, m, 1, x - m);
    }
  }

  lemma NearIsSmallDelta(a: nat, b: nat, m: nat)
    requires m > ARITH_MAX && a < m && b < m
    ensures a != b && Near(a, b, m) <==> exists delta :: SmallDelta(delta) && MovesTo(a, delta, b, m)
  {
    WrapsOnce(a - b, m);
    WrapsOnce(b - a, m);
    forall delta | SmallDelta(delta)
      ensures MovesTo(a, delta, b, m) ==> a != b && Near(a, b, m)
    {
      assert Moved(a + delta);
      WrapsOnce(a + delta, m);
    }
    if a != b && Near(a, b, m) {
      var delta := if (b - a) % m <= ARITH_MAX then (b - a) % m else -((a - b) % m);
      WrapsOnce(a + delta, m);
      assert SmallDelta(delta) && MovesTo(a, delta, b, m);
    }
  }

  /** Two buffers that agree outside the `w` bytes at `at`. */
  predicate SameOutside(a: Input, b: Input, at: nat, w: nat) {
    |a| == |b| && at + w <= |a| && a[..at] == b[..at] && a[at + w..] == b[at + w..]
  }

  lemma OverwriteIsSameOutside(a: Input, b: Input, at: nat, block: Input)
    requires at + |block| <= |a|
    ensures b == Overwrite(a, at, block) <==> SameOutside(a, b, at, |block|) && b[at..at + |block|] == block
  {
    if SameOutside(a, b, at, |block|) {
      assert b == b[..at] + b[at..at + |block|] + b[at + |block|..];
    }
  }

  lemma {:induction false} StepIsModular(o: Input, n: Input, at: nat, w: nat, e: Endian, delta: int)
    requires |o| == |n| && at + w <= |o|
    ensures IsStep(o, n, at, w, e, delta)
       <==> SameOutside(o, n, at, w) && MovesTo(DecAs(o[at..at + w], e), delta, DecAs(n[at..at + w], e), Pow256(w))
  {
    OverwriteIsSameOutside(o, n, at, Shifted(o[at..at + w], delta, e));
    ShiftedIsModular(o[at..at + w], n[at..at + w], delta, e);
  }

  lemma {:induction false} NumbersFit(c: Input, e: Endian)
    requires |c| > 0
    ensures DecAs(c, e) < Pow256(|c|) && Pow256(|c|) > ARITH_MAX
  {
    DecFits(c);
    DecFits(Reverse(c));
  }

  /** A step at a given place and byte order, in terms of the code's test. */
  lemma {:induction false} StepTest(o: Input, n: Input, at: nat, w: nat, e: Endian)
    requires w > 0 && |o| == |n| && at + w <= |o|
    ensures (exists delta :: SmallDelta(delta) && IsStep(o, n, at, w, e, delta))
       <==> SameOutside(o, n, at, w) && o[at..at + w] != n[at..at + w]
            && Near(DecAs(o[at..at + w], e), DecAs(n[at..at + w], e), Pow256(w))
  {
    var c, d := o[at..at + w], n[at..at + w];
    forall delta
      ensures IsStep(o, n, at, w, e, delta)
         <==> SameOutside(o, n, at, w) && MovesTo(DecAs(c, e), delta, DecAs(d, e), Pow256(w))
    {
      StepIsModular(o, n, at, w, e, delta);
    }
    NumbersFit(c, e);
    NumbersFit(d, e);
    NearIsSmallDelta(DecAs(c, e), DecAs(d, e), Pow256(w));
    SameNumberSameBytes(c, d, e);
  }

  /** `v >> (8 * k)`. */
  function Shr(v: nat, k: nat): nat
    decreases k
  {
    if k == 0 then v else Shr(v / 256, k - 1)
  }

  lemma {:induction false} EncSlice(v: nat, len: nat, at: nat, w: nat)
    requires at + w <= len
    ensures Enc(v, len)[at..at + w] == Enc(Shr(v, at), w)
    decreases len
  {
    if at > 0 {
      EncSlice(v / 256, len - 1, at - 1, w);
      assert Enc(v, len)[at..at + w] == Enc(v / 256, len - 1)[at - 1..at - 1 + w];
    } else if w > 0 {
      EncSlice(v / 256, len - 1, 0, w - 1);
      assert Enc(v, len)[..w] == [v % 256] + Enc(v / 256, len - 1)[..w - 1];
    }
  }

  /** The cast `(u8)(v >> 8 * at)`, or `(u16)`. */
  method ChunkAt(v: nat, at: nat, w: nat, ghost len: nat) returns (c: nat)
    requires at + w <= len
    ensures c == Dec(Enc(v, len)[at..at + w])
  {
    c := Shr(v, at) % Pow256(w);
    EncSlice(v, len, at, w);
    DecEncModulo(Shr(v, at), w);
  }

  /** The buffers differ in the chunk of `w` bytes at `at`, and nowhere else. */
  predicate OnlyDiff(o: Input, n: Input, at: nat, w: nat) {
    SameOutside(o, n, at, w) && o[at..at + w] != n[at..at + w]
  }

  /** The buffers differ in the chunk of `w` bytes at `at`. */
  predicate Diff(o: Input, n: Input, at: nat, w: nat) {
    at + w <= |o| == |n| && o[at..at + w] != n[at..at + w]
  }

  lemma OutsideIsSame(o: Input, n: Input, at: nat, other: nat, w: nat)
    requires SameOutside(o, n, at, w) && other + w <= |o| && (at + w <= other || other + w <= at)
    ensures !Diff(o, n, other, w)
  {
    forall k | other <= k < other + w
      ensures o[k] == n[k]
    {
      if at + w <= k {
        assert o[k] == o[at + w..][k - at - w] && n[k] == n[at + w..][k - at - w];
      } else {
        assert o[k] == o[..at][k] && n[k] == n[..at][k];
      }
    }
  }

  /** The buffers agree from `i` up to `j`. */
  predicate SameBytes(o: Input, n: Input, i: nat, j: nat)
    requires i <= j <= |o| == |n|
  {
    forall k :: i <= k < j ==> o[k] == n[k]
  }

  lemma DiffInBytes(o: Input, n: Input, at: nat, w: nat)
    requires at + w <= |o| == |n|
    ensures Diff(o, n, at, w) <==> !SameBytes(o, n, at, at + w)
  {
    if !Diff(o, n, at, w) {
      forall k | at <= k < at + w
        ensures o[k] == n[k]
      {
        assert o[k] == o[at..at + w][k - at] && n[k] == n[at..at + w][k - at];
      }
    }
  }

  lemma SameOutsideInBytes(o: Input, n: Input, at: nat, w: nat)
    requires at + w <= |o| == |n| && SameBytes(o, n, 0, at) && SameBytes(o, n, at + w, |o|)
    ensures SameOutside(o, n, at, w)
  {
  }

  /** What the loop knows after looking at the first `k` bytes: the last differing chunk, and whether there were
      others. */
  ghost predicate Scanned(o: Input, n: Input, w: nat, k: nat, diffs: nat, at: nat, other: nat)
    requires |o| == |n|
  {
    && k <= |o|
    && (diffs == 0 ==> SameBytes(o, n, 0, k))
    && (diffs >= 1 ==> at + w <= k && Aligned(at, w) && Diff(o, n, at, w))
    && (diffs == 1 ==> SameBytes(o, n, 0, at) && SameBytes(o, n, at + w, k))
    && (diffs >= 2 ==> other + w <= at && Diff(o, n, other, w))
  }

  lemma ScanNext(o: Input, n: Input, w: nat, k: nat, diffs: nat, at: nat, other: nat)
    requires |o| == |n| && w > 0 && k + w <= |o| && Aligned(k, w) && Scanned(o, n, w, k, diffs, at, other)
    ensures if Diff(o, n, k, w) then Scanned(o, n, w, k + w, diffs + 1, k, at)
            else Scanned(o, n, w, k + w, diffs, at, other)
  {
    DiffInBytes(o, n, k, w);
  }

  lemma AlignedApart(a: nat, b: nat, w: nat)
    requires Aligned(a, w) && Aligned(b, w) && a != b
    ensures a + w <= b || b + w <= a
  {
  }

  lemma NextChunk(k: nat, w: nat, blen: nat)
    requires IsWidth(blen) && (w == 1 || w == 2) && w <= blen && Aligned(k, w) && k < blen
    ensures k + w <= blen && (k + w < blen ==> Aligned(k + w, w))
  {
  }

  lemma OnlyDiffIsLast(o: Input, n: Input, w: nat, diffs: nat, at: nat, other: nat, a: nat)
    requires |o| == |n| && w > 0 && Scanned(o, n, w, |o|, diffs, at, other)
    requires Aligned(a, w) && OnlyDiff(o, n, a, w)
    ensures diffs == 1 && a == at
  {
    DiffInBytes(o, n, a, w);
    assert diffs > 0;
    if a != at {
      AlignedApart(a, at, w);
      OutsideIsSame(o, n, a, at, w);
    }
    if other + w <= at {
      OutsideIsSame(o, n, at, other, w);
    }
  }

  lemma ScanEnd(o: Input, n: Input, w: nat, diffs: nat, at: nat, other: nat)
    requires |o| == |n| && w > 0 && Scanned(o, n, w, |o|, diffs, at, other)
    ensures diffs == 1 ==> OnlyDiff(o, n, at, w)
    ensures forall a: nat :: Aligned(a, w) && OnlyDiff(o, n, a, w) ==> diffs == 1 && a == at
  {
    if diffs == 1 {
      SameOutsideInBytes(o, n, at, w);
    }
    forall a: nat | Aligned(a, w) && OnlyDiff(o, n, a, w)
      ensures diffs == 1 && a == at
    {
      OnlyDiffIsLast(o, n, w, diffs, at, other, a);
    }
  }

  /** The scan, with the last differing chunks as numbers. */
  ghost predicate ScanState(o: Input, n: Input, w: nat, k: nat, diffs: nat, ov: nat, nv: nat, at: nat, other: nat)
    requires |o| == |n|
  {
    && Scanned(o, n, w, k, diffs, at, other)
    && (diffs >= 1 ==> ov == Dec(o[at..at + w]) && nv == Dec(n[at..at + w]))
  }

  method ScanStep(a: nat, b: nat, ghost o: Input, ghost n: Input, ghost k: nat, ghost w: nat,
                  diffs: nat, ov: nat, nv: nat, ghost at: nat, ghost other: nat)
    returns (diffs': nat, ov': nat, nv': nat, ghost at': nat, ghost other': nat)
    requires |o| == |n| && w > 0 && k + w <= |o| && Aligned(k, w) && ScanState(o, n, w, k, diffs, ov, nv, at, other)
    requires a == Dec(o[k..k + w]) && b == Dec(n[k..k + w])
    ensures ScanState(o, n, w, k + w, diffs', ov', nv', at', other')
  {
    ScanNext(o, n, w, k, diffs, at, other);
    SameNumberSameBytes(o[k..k + w], n[k..k + w], Little);
    diffs', ov', nv', at', other' := diffs, ov, nv, at, other;
    if a != b {
      diffs', ov', nv', at', other' := diffs + 1, a, b, k, at;
    }
  }

  /** The loops of `could_be_arith`: the chunks of `w` bytes in which two values differ. */
  method FindDiffs(oldVal: nat, newVal: nat, blen: nat, w: nat) returns (diffs: nat, ov: nat, nv: nat, ghost at: nat)
    requires IsWidth(blen) && (w == 1 || w == 2) && w <= blen
    ensures var o, n := Enc(oldVal, blen), Enc(newVal, blen);
            && (diffs == 1 ==>
                  && Aligned(at, w) && OnlyDiff(o, n, at, w)
                  && ov == Dec(o[at..at + w]) && nv == Dec(n[at..at + w]))
            && (forall a: nat :: Aligned(a, w) && OnlyDiff(o, n, a, w) ==> diffs == 1 && a == at)
  {
    ghost var o, n := Enc(oldVal, blen), Enc(newVal, blen);
    ghost var other := 0;
    diffs, ov, nv, at := 0, 0, 0, 0;
    var k := 0;
    while k < blen
      invariant k <= blen && (k < blen ==> Aligned(k, w)) && ScanState(o, n, w, k, diffs, ov, nv, at, other)
    {
      NextChunk(k, w, blen);
      var a := ChunkAt(oldVal, k, w, blen);
      var b := ChunkAt(newVal, k, w, blen);
      diffs, ov, nv, at, other := ScanStep(a, b, o, n, k, w, diffs, ov, nv, at, other);
      k := k + w;
    }
    ScanEnd(o, n, w, diffs, at, other);
  }

  function Swap16(x: nat): nat {
    x % 256 * 256 + x / 256
  }

  function Swap32(x: nat): nat {
    x % 256 * 0x100_0000 + x / 256 % 256 * 0x1_0000 + x / 0x1_0000 % 256 * 256 + x / 0x100_0000
  }

  /** The number in at least one byte, and its mirror image, one byte at a time. */
  lemma {:induction false} PeelByte(c: Input)
    requires c != []
    ensures Dec(c) == c[0] + 256 * Dec(c[1..])
    ensures Reverse(c) == Reverse(c[1..]) + [c[0]]
  {
  }

  lemma MirrorTwo(a: Byte, b: Byte)
    ensures Dec([a, b]) == a + 256 * (b as int) && Reverse([a, b]) == [b, a]
  {
    PeelByte([a, b]);
    assert [a, b][1..] == [b];
    PeelByte([b]);
    assert [b][1..] == [];
  }

  lemma MirrorFour(a: Byte, b: Byte, c: Byte, d: Byte)
    ensures Dec([a, b, c, d]) == (a as int) + 0x100 * (b as int) + 0x1_0000 * (c as int) + 0x100_0000 * (d as int)
    ensures Reverse([a, b, c, d]) == [d, c, b, a]
  {
    PeelByte([a, b, c, d]);
    assert [a, b, c, d][1..] == [b, c, d];
    PeelByte([b, c, d]);
    assert [b, c, d][1..] == [c, d];
    MirrorTwo(c, d);
  }

  lemma {:induction false} SwapReads16(c: Input)
    requires |c| == 2
    ensures Swap16(Dec(c)) == DecAs(c, Big)
  {
    assert c == [c[0], c[1]];
    MirrorTwo(c[0], c[1]);
    MirrorTwo(c[1], c[0]);
    TwoDigits(c[0], c[1], Dec(c));
  }

  lemma TwoDigits(a: Byte, b: Byte, x: int)
    requires x == a + 256 * (b as int)
    ensures x % 256 == a && x / 256 == b
  {
  }

  lemma Digits(a: Byte, b: Byte, c: Byte, d: Byte, x: int)
    requires x == (a as int) + 0x100 * (b as int) + 0x1_0000 * (c as int) + 0x100_0000 * (d as int)
    ensures x % 256 == a && x / 256 % 256 == b && x / 0x1_0000 % 256 == c && x / 0x100_0000 == d
  {
    var y: int := (b as int) + 0x100 * (c as int) + 0x1_0000 * (d as int);
    assert x == a + 256 * y;
    assert x / 256 == y;
    var z: int := (c as int) + 0x100 * (d as int);
    assert x == (a as int) + 0x100 * (b as int) + 0x1_0000 * z;
    assert x / 0x1_0000 == z;
  }

  lemma {:induction false} SwapReads32(c: Input)
    requires |c| == 4
    ensures Swap32(Dec(c)) == DecAs(c, Big)
  {
    assert c == [c[0], c[1], c[2], c[3]];
    MirrorFour(c[0], c[1], c[2], c[3]);
    MirrorFour(c[3], c[2], c[1], c[0]);
    Digits(c[0], c[1], c[2], c[3], Dec(c));
  }

  /** Whether a byte, or an aligned half, was moved by 1..35. */
  method TestChunks(oldVal: nat, newVal: nat, blen: nat, w: nat) returns (found: bool)
    requires IsWidth(blen) && (w == 1 || w == 2) && w <= blen
    ensures found <==> StepOfWidth(Enc(oldVal, blen), Enc(newVal, blen), w)
  {
    ghost var o, n := Enc(oldVal, blen), Enc(newVal, blen);
    var diffs, ov, nv, at := FindDiffs(oldVal, newVal, blen, w);
    WidthTest(o, n, w, diffs == 1, at);
    found := false;
    if diffs == 1 {
      found := TestChunk(ov, nv, w, o[at..at + w], n[at..at + w]);
    }
  }

  /** The test of one chunk in both byte orders; a single byte has only one. */
  method TestChunk(ov: nat, nv: nat, w: nat, ghost c: Input, ghost d: Input) returns (found: bool)
    requires (w == 1 || w == 2) && |c| == |d| == w && ov == Dec(c) && nv == Dec(d)
    ensures found
       <==> Near(DecAs(c, Little), DecAs(d, Little), Pow256(w)) || Near(DecAs(c, Big), DecAs(d, Big), Pow256(w))
  {
    found := Near(ov, nv, Pow256(w));
    if w == 2 {
      SwapReads16(c);
      SwapReads16(d);
      found := found || Near(Swap16(ov), Swap16(nv), Pow256(w));
    } else {
      OneByte(c);
      OneByte(d);
    }
  }

  lemma {:induction false} OneByte(c: Input)
    requires |c| == 1
    ensures Reverse(c) == c
  {
    assert c[1..] == [];
  }

  /** If at most one chunk can have moved, testing that chunk in both byte orders decides the matter. */
  lemma WidthTest(o: Input, n: Input, w: nat, some: bool, at: nat)
    requires |o| == |n| && w > 0 && (some ==> Aligned(at, w) && OnlyDiff(o, n, at, w))
    requires forall a: nat :: Aligned(a, w) && OnlyDiff(o, n, a, w) ==> some && a == at
    ensures StepOfWidth(o, n, w) <==> some && (ChunkMoved(o, n, at, w, Little) || ChunkMoved(o, n, at, w, Big))
  {
    forall a, e, delta | Aligned(a, w) && SmallDelta(delta) && IsStep(o, n, a, w, e, delta)
      ensures some && a == at && ChunkMoved(o, n, at, w, e)
    {
      StepTest(o, n, a, w, e);
    }
    if some && ChunkMoved(o, n, at, w, Little) {
      MovedIsStep(o, n, at, w, Little);
    }
    if some && ChunkMoved(o, n, at, w, Big) {
      MovedIsStep(o, n, at, w, Big);
    }
  }

  /** The code's test for the chunk at `at`, in one byte order. */
  predicate ChunkMoved(o: Input, n: Input, at: nat, w: nat, e: Endian)
    requires |o| == |n|
  {
    at + w <= |o| && Near(DecAs(o[at..at + w], e), DecAs(n[at..at + w], e), Pow256(w))
  }

  lemma MovedIsStep(o: Input, n: Input, at: nat, w: nat, e: Endian)
    requires |o| == |n| && w > 0 && Aligned(at, w) && OnlyDiff(o, n, at, w) && ChunkMoved(o, n, at, w, e)
    ensures StepOfWidth(o, n, w)
  {
    StepTest(o, n, at, w, e);
  }

  lemma {:induction false} SameEncSameNumber(a: nat, b: nat, w: nat)
    requires a < Pow256(w) && b < Pow256(w) && Enc(a, w) == Enc(b, w)
    ensures a == b
    decreases w
  {
    if w > 0 {
      assert Enc(a, w)[0] == Enc(b, w)[0];
      assert Enc(a, w)[1..] == Enc(a / 256, w - 1) && Enc(b, w)[1..] == Enc(b / 256, w - 1);
      SameEncSameNumber(a / 256, b / 256, w - 1);
    }
  }

  lemma {:induction false} DwordTest(oldVal: nat, newVal: nat)
    requires oldVal < Pow256(4) && newVal < Pow256(4) && oldVal != newVal
    ensures StepOfWidth(Enc(oldVal, 4), Enc(newVal, 4), 4)
       <==> Near(oldVal, newVal, Pow256(4)) || Near(Swap32(oldVal), Swap32(newVal), Pow256(4))
  {
    var o, n := Enc(oldVal, 4), Enc(newVal, 4);
    if o == n {
      SameEncSameNumber(oldVal, newVal, 4);
    }
    WholeTest(o, n);
    ReadBothWays(oldVal);
    ReadBothWays(newVal);
  }

  lemma WholeTest(o: Input, n: Input)
    requires |o| == |n| == 4 && o != n
    ensures StepOfWidth(o, n, 4)
       <==> Near(DecAs(o, Little), DecAs(n, Little), Pow256(4)) || Near(DecAs(o, Big), DecAs(n, Big), Pow256(4))
  {
    assert o[0..4] == o && n[0..4] == n && OnlyDiff(o, n, 0, 4);
    WidthTest(o, n, 4, true, 0);
  }

  lemma {:induction false} ReadBothWays(v: nat)
    requires v < Pow256(4)
    ensures DecAs(Enc(v, 4), Little) == v && DecAs(Enc(v, 4), Big) == Swap32(v)
  {
    SwapReads32(Enc(v, 4));
    ReadBack(v, 4);
  }

  lemma {:induction false} ReadBack(v: nat, w: nat)
    requires v < Pow256(w)
    ensures Dec(Enc(v, w)) == v
    decreases w
  {
    if w > 0 {
      ReadBack(v / 256, w - 1);
      assert Enc(v, w)[1..] == Enc(v / 256, w - 1);
    }
  }

  /** `could_be_arith`: whether a change is one that the arithmetic stages make. */
  method CouldBeArith(oldVal: nat, newVal: nat, blen: nat) returns (r: bool)
    requires IsWidth(blen) && oldVal < Pow256(blen) && newVal < Pow256(blen)
    ensures r <==> oldVal == newVal || OneStep(Enc(oldVal, blen), Enc(newVal, blen))
  {
    if oldVal == newVal {
      return true;
    }
    var found := TestChunks(oldVal, newVal, blen, 1);
    if found {
      return true;
    }
    if blen == 1 {
      return false;
    }
    found := TestChunks(oldVal, newVal, blen, 2);
    if found {
      return true;
    }
    if blen == 4 {
      DwordTest(oldVal, newVal);
      r := Near(oldVal, newVal, Pow256(4)) || Near(Swap32(oldVal), Swap32(newVal), Pow256(4));
    } else {
      r := false;
    }
  }

  // ----- the carry and borrow guards -----

  /** What is carried out of the low bytes when `delta` is added; -1 is a borrow. */
  function Carry(lo: Input, delta: int): int {
    if lo == [] then delta else Carry(lo[1..], (lo[0] + delta) / 256)
  }

  lemma {:induction false} EncInTwoParts(lo: Input, hi: Input, delta: int)
    ensures Enc(Dec(lo + hi) + delta, |lo| + |hi|) == Enc(Dec(lo) + delta, |lo|) + Enc(Dec(hi) + Carry(lo, delta), |hi|)
    decreases |lo|
  {
    if lo == [] {
      assert lo + hi == hi;
    } else {
      EncInTwoParts(lo[1..], hi, (lo[0] + delta) / 256);
      PartsGrow(lo, hi, delta);
    }
  }

  lemma PartsGrow(lo: Input, hi: Input, delta: int)
    requires lo != []
    requires var rest, d := lo[1..], (lo[0] + delta) / 256;
             Enc(Dec(rest + hi) + d, |rest| + |hi|) == Enc(Dec(rest) + d, |rest|) + Enc(Dec(hi) + Carry(rest, d), |hi|)
    ensures Enc(Dec(lo + hi) + delta, |lo| + |hi|) == Enc(Dec(lo) + delta, |lo|) + Enc(Dec(hi) + Carry(lo, delta), |hi|)
  {
    var rest, d := lo[1..], (lo[0] + delta) / 256;
    SplitOffWhole(lo, hi, delta);
    SplitOff(lo, delta);
    Regroup((lo[0] + delta) % 256, Enc(Dec(rest + hi) + d, |rest| + |hi|), Enc(Dec(rest) + d, |rest|),
            Enc(Dec(hi) + Carry(lo, delta), |hi|), Enc(Dec(lo + hi) + delta, |lo| + |hi|), Enc(Dec(lo) + delta, |lo|));
  }

  lemma SplitOffWhole(lo: Input, hi: Input, delta: int)
    requires lo != []
    ensures Enc(Dec(lo + hi) + delta, |lo| + |hi|)
         == [(lo[0] + delta) % 256] + Enc(Dec(lo[1..] + hi) + (lo[0] + delta) / 256, |lo[1..]| + |hi|)
  {
    assert (lo + hi)[1..] == lo[1..] + hi && (lo + hi)[0] == lo[0];
    SplitOff(lo + hi, delta);
  }

  lemma Regroup(b: Byte, whole: Input, low: Input, high: Input, whole': Input, low': Input)
    requires whole == low + high && whole' == [b] + whole && low' == [b] + low
    ensures whole' == low' + high
  {
  }

  lemma Associate(a: Input, b: Input, c: Input)
    ensures a + (b + c) == (a + b) + c
  {
  }

  lemma SplitOff(c: Input, delta: int)
    requires c != []
    ensures Enc(Dec(c) + delta, |c|) == [(c[0] + delta) % 256] + Enc(Dec(c[1..]) + (c[0] + delta) / 256, |c| - 1)
  {
    var v, rest := Dec(c) + delta, Dec(c[1..]);
    assert v == 256 * rest + (c[0] + delta);
    assert v % 256 == (c[0] + delta) % 256 && v / 256 == rest + (c[0] + delta) / 256;
  }

  lemma {:induction false} NoCarryIffInRange(lo: Input, delta: int)
    ensures Carry(lo, delta) == 0 <==> 0 <= Dec(lo) + delta < Pow256(|lo|)
    decreases |lo|
  {
    if lo != [] {
      NoCarryIffInRange(lo[1..], (lo[0] + delta) / 256);
    }
  }

  lemma {:induction false} CarryIsSmall(lo: Input, delta: int)
    requires lo != [] && -256 <= delta <= 256
    ensures -1 <= Carry(lo, delta) <= 1
    decreases |lo|
  {
    if |lo| > 1 {
      CarryIsSmall(lo[1..], (lo[0] + delta) / 256);
    } else {
      assert lo[1..] == [];
      assert Carry(lo, delta) == Carry([], (lo[0] + delta) / 256) == (lo[0] + delta) / 256;
    }
  }

  lemma SmallCarryShows(hi: Input, c: int)
    requires hi != [] && -1 <= c <= 1
    ensures Enc(Dec(hi) + c, |hi|) == hi <==> c == 0
  {
    EncDec(hi);
    SplitOff(hi, c);
  }

  /** A number whose low part is `lo` and whose high part is `hi`. */
  function Joined(lo: Input, hi: Input, e: Endian): (c: Input)
    ensures |c| == |lo| + |hi|
  {
    if e == Little then lo + hi else hi + lo
  }

  /** A wide step that stays within the low part is the step on the low part alone, and no other wide step is. */
  lemma WideIsNarrowBig(lo: Input, hi: Input, delta: int)
    requires lo != [] && hi != [] && -256 <= delta <= 256
    ensures Shifted(hi + lo, delta, Big) == hi + Shifted(lo, delta, Big) <==> StaysInRange(lo, delta, Big)
  {
    WideIsNarrowLittle(Reverse(lo), Reverse(hi), delta);
    WideIsNarrowMirrored(lo, hi, delta);
  }

  lemma {:induction false} MirroredWide(lo: Input, hi: Input, delta: int)
    ensures Shifted(hi + lo, delta, Big) == Reverse(Shifted(Reverse(lo) + Reverse(hi), delta, Little))
  {
    ReverseConcat(hi, lo);
  }

  lemma {:induction false} MirroredNarrow(lo: Input, hi: Input, delta: int)
    ensures hi + Shifted(lo, delta, Big) == Reverse(Shifted(Reverse(lo), delta, Little) + Reverse(hi))
  {
    ReverseConcat(Shifted(Reverse(lo), delta, Little), Reverse(hi));
    ReverseTwice(hi);
  }

  lemma {:induction false} WideIsNarrowMirrored(lo: Input, hi: Input, delta: int)
    ensures Shifted(hi + lo, delta, Big) == hi + Shifted(lo, delta, Big)
       <==> Shifted(Reverse(lo) + Reverse(hi), delta, Little) == Shifted(Reverse(lo), delta, Little) + Reverse(hi)
  {
    MirroredWide(lo, hi, delta);
    MirroredNarrow(lo, hi, delta);
    SameMirrored(Shifted(Reverse(lo) + Reverse(hi), delta, Little), Shifted(Reverse(lo), delta, Little) + Reverse(hi));
  }

  lemma SameTails(a: Input, s: Input, t: Input)
    ensures a + s == a + t <==> s == t
  {
    assert (a + s)[|a|..] == s && (a + t)[|a|..] == t;
  }

  lemma {:induction false} ShiftInTwoParts(lo: Input, hi: Input, delta: int)
    ensures Shifted(lo + hi, delta, Little) == Shifted(lo, delta, Little) + Shifted(hi, Carry(lo, delta), Little)
  {
    EncInTwoParts(lo, hi, delta);
  }

  ghost predicate StaysInRange(lo: Input, delta: int, e: Endian) {
    0 <= DecAs(lo, e) + delta < Pow256(|lo|)
  }

  lemma {:induction false} CarryShows(lo: Input, hi: Input, delta: int)
    requires lo != [] && hi != [] && -256 <= delta <= 256
    ensures Shifted(hi, Carry(lo, delta), Little) == hi <==> StaysInRange(lo, delta, Little)
  {
    NoCarryIffInRange(lo, delta);
    CarryIsSmall(lo, delta);
    SmallCarryShows(hi, Carry(lo, delta));
  }

  lemma WideIsNarrowLittle(lo: Input, hi: Input, delta: int)
    requires lo != [] && hi != [] && -256 <= delta <= 256
    ensures Shifted(lo + hi, delta, Little) == Shifted(lo, delta, Little) + hi <==> StaysInRange(lo, delta, Little)
  {
    ShiftInTwoParts(lo, hi, delta);
    CarryShows(lo, hi, delta);
    SameTails(Shifted(lo, delta, Little), Shifted(hi, Carry(lo, delta), Little), hi);
  }

  /** The low half of the number at hand, as the guards compute it. */
  function LowHalf(orig: nat, w: nat, e: Endian): nat {
    if w == 2 then (if e == Little then orig % 0x100 else orig / 0x100)
    else (if e == Little then orig % 0x1_0000 else Swap32(orig) % 0x1_0000)
  }

  /** The guards of the 16-bit and 32-bit arithmetic stages: the step carries or borrows out of the low half. */
  predicate Guard(orig: nat, w: nat, delta: int, e: Endian) {
    var top := if w == 2 then 0xff else 0xffff;
    if delta > 0 then LowHalf(orig, w, e) + delta > top else LowHalf(orig, w, e) < 0 - delta
  }

  /** Where the low half of the number at `at`, twice `h` bytes wide, lies. */
  function LowAt(at: nat, h: nat, e: Endian): nat {
    if e == Little then at else at + h
  }

  /** The buffer after a wide step, and after the same step on the low half only. */
  function WideStep(buf: Input, at: nat, w: nat, delta: int, e: Endian): (r: Input)
    requires at + w <= |buf|
    ensures |r| == |buf| && IsStep(buf, r, at, w, e, delta)
  {
    Overwrite(buf, at, Shifted(buf[at..at + w], delta, e))
  }

  /** The guard rejects a step exactly when the buffer is what the narrower stage makes of the low half. */
  lemma GuardIsExact(buf: Input, at: nat, h: nat, delta: int, e: Endian)
    requires (h == 1 || h == 2) && at + 2 * h <= |buf| && SmallDelta(delta)
    ensures !Guard(Dec(buf[at..at + 2 * h]), 2 * h, delta, e)
            <==> WideStep(buf, at, 2 * h, delta, e) == WideStep(buf, LowAt(at, h, e), h, delta, e)
  {
    if e == Little {
      GuardIsExactLittle(buf, at, h, delta);
    } else {
      GuardIsExactBig(buf, at, h, delta);
    }
  }

  lemma GuardIsExactLittle(buf: Input, at: nat, h: nat, delta: int)
    requires (h == 1 || h == 2) && at + 2 * h <= |buf| && SmallDelta(delta)
    ensures !Guard(Dec(buf[at..at + 2 * h]), 2 * h, delta, Little)
            <==> WideStep(buf, at, 2 * h, delta, Little) == WideStep(buf, at, h, delta, Little)
  {
    HalvesJoin(buf, at, h);
    GuardIsRange(buf[at..at + h], buf[at + h..at + 2 * h], delta, Little);
    NarrowStepLittle(buf, at, h, delta);
  }

  lemma GuardIsExactBig(buf: Input, at: nat, h: nat, delta: int)
    requires (h == 1 || h == 2) && at + 2 * h <= |buf| && SmallDelta(delta)
    ensures !Guard(Dec(buf[at..at + 2 * h]), 2 * h, delta, Big)
            <==> WideStep(buf, at, 2 * h, delta, Big) == WideStep(buf, at + h, h, delta, Big)
  {
    HalvesJoin(buf, at, h);
    GuardIsRange(buf[at + h..at + 2 * h], buf[at..at + h], delta, Big);
    NarrowStepBig(buf, at, h, delta);
  }

  lemma GuardIsRange(lo: Input, hi: Input, delta: int, e: Endian)
    requires |lo| == |hi| && (|lo| == 1 || |lo| == 2) && SmallDelta(delta)
    ensures Guard(Dec(Joined(lo, hi, e)), 2 * |lo|, delta, e) <==> !StaysInRange(lo, delta, e)
  {
    LowHalfIs(lo, hi, e);
    NumbersFit(lo, e);
  }

  lemma HalvesJoin(buf: Input, at: nat, h: nat)
    requires at + 2 * h <= |buf|
    ensures buf[at..at + 2 * h] == buf[at..at + h] + buf[at + h..at + 2 * h]
  {
  }

  lemma NarrowStepLittle(buf: Input, at: nat, h: nat, delta: int)
    requires h > 0 && at + 2 * h <= |buf| && SmallDelta(delta)
    ensures StaysInRange(buf[at..at + h], delta, Little)
            <==> WideStep(buf, at, 2 * h, delta, Little) == WideStep(buf, at, h, delta, Little)
  {
    var lo, hi := buf[at..at + h], buf[at + h..at + 2 * h];
    HalvesJoin(buf, at, h);
    WideIsNarrowLittle(lo, hi, delta);
    NarrowBlock(buf, at, Shifted(lo + hi, delta, Little), Shifted(lo, delta, Little));
  }

  /** Writing a block over the first half of a window, or a block with the second half behind it. */
  lemma NarrowBlock(buf: Input, at: nat, wide: Input, narrow: Input)
    requires |wide| == 2 * |narrow| && at + |wide| <= |buf|
    ensures Overwrite(buf, at, wide) == Overwrite(buf, at, narrow)
       <==> wide == narrow + buf[at + |narrow|..at + |wide|]
  {
    var h := |narrow|;
    var hi := buf[at + h..at + 2 * h];
    assert buf[at + h..] == hi + buf[at + 2 * h..];
    Associate(buf[..at] + narrow, hi, buf[at + 2 * h..]);
    Associate(buf[..at], narrow, hi);
    SameBlocks(buf, at, wide, narrow + hi);
  }

  lemma NarrowStepBig(buf: Input, at: nat, h: nat, delta: int)
    requires h > 0 && at + 2 * h <= |buf| && SmallDelta(delta)
    ensures StaysInRange(buf[at + h..at + 2 * h], delta, Big)
            <==> WideStep(buf, at, 2 * h, delta, Big) == WideStep(buf, at + h, h, delta, Big)
  {
    var hi, lo := buf[at..at + h], buf[at + h..at + 2 * h];
    HalvesJoin(buf, at, h);
    WideIsNarrowBig(lo, hi, delta);
    var wide, narrow := Shifted(hi + lo, delta, Big), Shifted(lo, delta, Big);
    assert buf[..at + h] == buf[..at] + hi;
    Associate(buf[..at], hi, narrow);
    SameBlocks(buf, at, wide, hi + narrow);
  }

  lemma SameBlocks(buf: Input, at: nat, a: Input, b: Input)
    requires |a| == |b| && at + |a| <= |buf|
    ensures Overwrite(buf, at, a) == Overwrite(buf, at, b) <==> a == b
  {
    assert Overwrite(buf, at, a)[at..at + |a|] == a && Overwrite(buf, at, b)[at..at + |a|] == b;
  }

  lemma {:induction false} LowHalfIs(lo: Input, hi: Input, e: Endian)
    requires |lo| == |hi| && (|lo| == 1 || |lo| == 2)
    ensures LowHalf(Dec(Joined(lo, hi, e)), 2 * |lo|, e) == DecAs(lo, e)
    ensures Pow256(|lo|) == (if |lo| == 1 then 0x100 else 0x1_0000)
  {
    Pow256Values();
    if |lo| == 1 {
      assert lo == [lo[0]] && hi == [hi[0]] && lo + hi == [lo[0], hi[0]] && hi + lo == [hi[0], lo[0]];
      MirrorTwo(lo[0], hi[0]);
      MirrorTwo(hi[0], lo[0]);
      PeelByte(lo);
      assert lo[1..] == [];
    } else {
      LowHalfIsWide(lo, hi, e);
    }
  }

  lemma LowDigits(a: Byte, b: Byte, c: Byte, d: Byte)
    ensures ((a as int) + 0x100 * (b as int) + 0x1_0000 * (c as int) + 0x100_0000 * (d as int)) % 0x1_0000
            == a + 0x100 * (b as int)
  {
    var z: int := (c as int) + 0x100 * (d as int);
    RemainderIs((a as int) + 0x100 * (b as int) + 0x1_0000 * z, 0x1_0000, z, a + 0x100 * (b as int));
  }

  lemma LowHalfIsWide(lo: Input, hi: Input, e: Endian)
    requires |lo| == |hi| == 2
    ensures LowHalf(Dec(Joined(lo, hi, e)), 4, e) == DecAs(lo, e)
  {
    assert lo == [lo[0], lo[1]] && hi == [hi[0], hi[1]];
    if e == Little {
      assert lo + hi == [lo[0], lo[1], hi[0], hi[1]];
      MirrorTwo(lo[0], lo[1]);
      MirrorFour(lo[0], lo[1], hi[0], hi[1]);
      LowDigits(lo[0], lo[1], hi[0], hi[1]);
    } else {
      SwapReads32(hi + lo);
      MirroredLow(hi[0], hi[1], lo[0], lo[1]);
    }
  }

  lemma MirroredLow(a: Byte, b: Byte, c: Byte, d: Byte)
    ensures DecAs([a, b, c, d], Big) % 0x1_0000 == DecAs([c, d], Big)
    ensures [a, b] + [c, d] == [a, b, c, d]
  {
    MirrorTwo(c, d);
    MirrorTwo(d, c);
    MirrorFour(a, b, c, d);
    MirrorFour(d, c, b, a);
    LowDigits(d, c, b, a);
  }

  // ----- could_be_bitflip -----

  /** `a ^ b` on numbers of `w` bytes. */
  function Xor(a: nat, b: nat, w: nat): nat {
    FromBits(XorBits(Bits(a, 8 * w), Bits(b, 8 * w)))
  }

  function XorBits(x: seq<bool>, y: seq<bool>): (z: seq<bool>)
    requires |x| == |y|
    ensures |z| == |x|
  {
    seq(|x|, k requires 0 <= k < |x| => x[k] != y[k])
  }

  /** `v << s`. */
  function Shl(v: nat, s: nat): (r: nat)
    ensures v > 0 ==> r > 0
  {
    if s == 0 then v else 2 * Shl(v, s - 1)
  }

  /** Runs of set bits that the flip stages toggle together: 1, 2 and 4 bits anywhere, 1, 2 and 4 bytes at byte
      boundaries. */
  predicate IsFlipPattern(ones: nat, shift: nat) {
    || ones == 1 || ones == 3 || ones == 15
    || (shift % 8 == 0 && (ones == 0xff || ones == 0xffff || ones == 0xffff_ffff))
  }

  /** The difference is empty or one run of bits that a flip stage toggles. */
  ghost predicate LooksFlipped(xorVal: nat) {
    xorVal == 0 || exists ones, shift :: IsFlipPattern(ones, shift) && xorVal == Shl(ones, shift)
  }

  lemma {:induction false} OddPartIsUnique(a: nat, s: nat, b: nat, t: nat)
    requires a % 2 == 1 && b % 2 == 1 && Shl(a, s) == Shl(b, t)
    ensures a == b && s == t
    decreases s
  {
    if s > 0 && t > 0 {
      OddPartIsUnique(a, s - 1, b, t - 1);
    }
  }

  lemma {:induction false} ShiftOnce(v: nat, s: nat)
    requires v % 2 == 0
    ensures Shl(v / 2, s + 1) == Shl(v, s)
  {
    if s > 0 {
      ShiftOnce(v, s - 1);
    }
  }

  /** `could_be_bitflip`. */
  method CouldBeBitflip(xorVal: nat) returns (r: bool)
    ensures r <==> LooksFlipped(xorVal)
  {
    if xorVal == 0 {
      return true;
    }
    var v, sh := xorVal, 0;
    while v % 2 == 0
      invariant v > 0 && Shl(v, sh) == xorVal
      decreases v
    {
      ShiftOnce(v, sh);
      v, sh := v / 2, sh + 1;
    }
    r := v == 1 || v == 3 || v == 15 || (sh % 8 == 0 && (v == 0xff || v == 0xffff || v == 0xffff_ffff));
    forall ones, shift | IsFlipPattern(ones, shift) && xorVal == Shl(ones, shift)
      ensures r
    {
      OddPartIsUnique(v, sh, ones, shift);
    }
    assert r == IsFlipPattern(v, sh);
  }
}
