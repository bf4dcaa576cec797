/** What the havoc stages of afl-fuzz and afl-rb share: randomness, block lengths, and tweaks of binary numbers. */
module Mutators {
  import opened Bytes

  const MAX_FILE := 1024 * 1024
  const ARITH_MAX := 35
  const HAVOC_BLK_SMALL := 32
  const HAVOC_BLK_MEDIUM := 128
  const HAVOC_BLK_LARGE := 1500
  const HAVOC_BLK_XL := 32768

  const INTERESTING_8: seq<int> := [-128, -1, 0, 1, 16, 32, 64, 100, 127]
  const INTERESTING_16: seq<int> := INTERESTING_8 + [-32768, -129, 128, 255, 256, 512, 1000, 1024, 4096, 32767]
  const INTERESTING_32: seq<int> :=
    INTERESTING_16 + [-2147483648, -100663046, -32769, 32768, 65535, 65536, 100663045, 2147483647]

  /** `UR(limit)`: any number below the limit. A limit of zero would divide by zero. */
  method UR(limit: nat) returns (r: nat)
    requires limit > 0
    ensures r < limit
  {
    r :| r < limit;
  }

  /** Tokens for the dictionary cases: user-supplied and auto-detected ones. */
  datatype Dictionary = Dictionary(extras: seq<Input>, autoExtras: seq<Input>)

  /** What the random stages depend on besides the case itself: the dictionaries, the number of the queue cycle, and
      whether the fuzzer has been running for ten minutes. */
  datatype Setup = Setup(dict: Dictionary, queueCycle: nat, runOver10m: bool)

  ghost predicate IsSetup(cfg: Setup) {
    IsDictionary(cfg.dict) && cfg.queueCycle > 0
  }

  /** A length drawn from `lo` to `hi`, or from 1 on if `lo` reaches the limit. */
  ghost predicate InRange(len: nat, limit: nat, lo: nat, hi: nat) {
    (if lo >= limit then 1 else lo) <= len <= Min(hi, limit)
  }

  /** The lengths that a block of at most `limit` bytes may have: up to 32 bytes at any time; after ten minutes also 32
      to 128 from the second cycle on, and 128 to 1500 or 1500 to 32768 from the third on. */
  ghost predicate IsBlockLen(len: nat, limit: nat, cfg: Setup) {
    || InRange(len, limit, 1, 32)
    || (cfg.runOver10m && cfg.queueCycle >= 2 && InRange(len, limit, 32, 128))
    || (cfg.runOver10m && cfg.queueCycle >= 3 && (InRange(len, limit, 128, 1500) || InRange(len, limit, 1500, 32768)))
  }

  /** Blocks are short in the first cycle and in the first ten minutes, never empty and never above the limit. */
  lemma BlocksStartShort(len: nat, limit: nat, cfg: Setup)
    requires IsBlockLen(len, limit, cfg)
    ensures 1 <= len <= Min(limit, 32768)
    ensures cfg.queueCycle <= 1 || !cfg.runOver10m ==> len <= 32
    ensures cfg.queueCycle <= 2 ==> len <= 128
  {
  }

  /** `choose_block_len`. */
  method ChooseBlockLen(limit: nat, cfg: Setup) returns (len: nat)
    requires limit > 0 && cfg.queueCycle > 0
    ensures IsBlockLen(len, limit, cfg) && 1 <= len <= Min(limit, HAVOC_BLK_XL)
  {
    var minValue, maxValue;
    var pick := UR(if cfg.runOver10m then Min(cfg.queueCycle, 3) else 1);
    if pick == 0 {
      minValue, maxValue := 1, HAVOC_BLK_SMALL;
    } else if pick == 1 {
      minValue, maxValue := HAVOC_BLK_SMALL, HAVOC_BLK_MEDIUM;
    } else {
      var dice := UR(10);
      if dice != 0 {
        minValue, maxValue := HAVOC_BLK_MEDIUM, HAVOC_BLK_LARGE;
      } else {
        minValue, maxValue := HAVOC_BLK_LARGE, HAVOC_BLK_XL;
      }
    }
    if minValue >= limit {
      minValue := 1;
    }
    var extra := UR(Min(maxValue, limit) - minValue + 1);
    len := minValue + extra;
  }

  // ----- numbers in a buffer -----

  datatype Endian = Little | Big

  /** The `w` low bytes of a number, least significant first; what does not fit is dropped. */
  function Enc(v: int, w: nat): (bs: Input)
    ensures |bs| == w
    decreases w
  {
    if w == 0 then [] else [v % 256] + Enc(v / 256, w - 1)
  }

  function Dec(bs: Input): nat {
    if bs == [] then 0 else bs[0] + 256 * Dec(bs[1..])
  }

  function Reverse(bs: Input): (r: Input)
    ensures |r| == |bs|
  {
    if bs == [] then [] else Reverse(bs[1..]) + [bs[0]]
  }

  function EncAs(v: int, w: nat, e: Endian): (bs: Input)
    ensures |bs| == w
  {
    if e == Little then Enc(v, w) else Reverse(Enc(v, w))
  }

  function DecAs(bs: Input, e: Endian): nat {
    if e == Little then Dec(bs) else Dec(Reverse(bs))
  }

  /** A number in the buffer moved by `delta`, with wrap-around. */
  function Shifted(bs: Input, delta: int, e: Endian): (r: Input)
    ensures |r| == |bs|
  {
    EncAs(DecAs(bs, e) + delta, |bs|, e)
  }

  lemma {:induction false} EncDec(bs: Input)
    ensures Enc(Dec(bs), |bs|) == bs
  {
    if bs != [] {
      EncDec(bs[1..]);
      assert (bs[0] + 256 * Dec(bs[1..])) / 256 == Dec(bs[1..]);
      assert bs == [bs[0]] + bs[1..];
    }
  }

  /** Two numbers have the same `w` low bytes. */
  ghost predicate SameLowBytes(a: int, b: int, w: nat)
    decreases w
  {
    w == 0 || (a % 256 == b % 256 && SameLowBytes(a / 256, b / 256, w - 1))
  }

  lemma {:induction false} DecEnc(v: int, w: nat)
    ensures SameLowBytes(Dec(Enc(v, w)), v, w)
    decreases w
  {
    if w > 0 {
      DecEnc(v / 256, w - 1);
      assert Enc(v, w)[1..] == Enc(v / 256, w - 1);
      assert Dec(Enc(v, w)) == v % 256 + 256 * Dec(Enc(v / 256, w - 1));
    }
  }

  lemma {:induction false} EncLowBytes(a: int, b: int, w: nat)
    requires SameLowBytes(a, b, w)
    ensures Enc(a, w) == Enc(b, w)
    decreases w
  {
    if w > 0 {
      EncLowBytes(a / 256, b / 256, w - 1);
    }
  }

  lemma {:induction false} ShiftLowBytes(a: int, b: int, delta: int, w: nat)
    requires SameLowBytes(a, b, w)
    ensures SameLowBytes(a + delta, b + delta, w)
    decreases w
  {
    if w > 0 {
      var r := a % 256;
      assert (a + delta) / 256 == a / 256 + (r + delta) / 256;
      assert (b + delta) / 256 == b / 256 + (r + delta) / 256;
      ShiftLowBytes(a / 256, b / 256, (r + delta) / 256, w - 1);
    }
  }

  lemma LittleShiftedBack(bs: Input, delta: int)
    ensures Enc(Dec(Enc(Dec(bs) + delta, |bs|)) - delta, |bs|) == bs
  {
    var w, v := |bs|, Dec(bs);
    DecEnc(v + delta, w);
    ShiftLowBytes(Dec(Enc(v + delta, w)), v + delta, -delta, w);
    EncLowBytes(Dec(Enc(v + delta, w)) - delta, v, w);
    EncDec(bs);
  }

  lemma {:induction false} ReverseConcat(a: Input, b: Input)
    ensures Reverse(a + b) == Reverse(b) + Reverse(a)
  {
    if a == [] {
      assert a + b == b;
    } else {
      assert (a + b)[1..] == a[1..] + b;
      ReverseConcat(a[1..], b);
    }
  }

  lemma {:induction false} ReverseTwice(bs: Input)
    ensures Reverse(Reverse(bs)) == bs
  {
    if bs != [] {
      ReverseConcat(Reverse(bs[1..]), [bs[0]]);
      ReverseTwice(bs[1..]);
      assert [bs[0]][1..] == [];
      assert Reverse([bs[0]]) == [bs[0]];
    }
  }

  /** A tweak and its opposite cancel, at any width and in either byte order. */
  lemma ShiftedBack(bs: Input, delta: int, e: Endian)
    ensures Shifted(Shifted(bs, delta, e), -delta, e) == bs
  {
    if e == Little {
      LittleShiftedBack(bs, delta);
    } else {
      var enc := Enc(Dec(Reverse(bs)) + delta, |bs|);
      ReverseTwice(enc);
      ReverseTwice(bs);
      LittleShiftedBack(Reverse(bs), delta);
      assert Shifted(bs, delta, e) == Reverse(enc);
      assert DecAs(Reverse(enc), e) == Dec(enc);
    }
  }

  // ----- havoc tweaks of numbers -----

  /** The width in bytes of the number that havoc case 1 to 10 works on. */
  function WidthOf(c: nat): nat {
    if c == 3 || c == 8 || c == 9 then 4 else if c == 2 || c == 6 || c == 7 then 2 else 1
  }

  function InterestingOf(w: nat): (values: seq<int>)
    ensures values != []
  {
    if w == 1 then INTERESTING_8 else if w == 2 then INTERESTING_16 else INTERESTING_32
  }

  /** What havoc case 1 to 10 may make of a number of one, two or four bytes: an interesting value, the number minus or
      plus 1..35, or any other byte. */
  ghost predicate IsTweakOf(c: nat, before: Input, after: Input) {
    && |after| == |before|
    && match c
       case 1 => |before| == 1 && IsOneOf(INTERESTING_8, after)
       case 2 => |before| == 2 && IsOneOf(INTERESTING_16, after)
       case 3 => |before| == 4 && IsOneOf(INTERESTING_32, after)
       case 4 => |before| == 1 && IsMovedBy(before, after, -35, -1)
       case 5 => |before| == 1 && IsMovedBy(before, after, 1, 35)
       case 6 => |before| == 2 && IsMovedBy(before, after, -35, -1)
       case 7 => |before| == 2 && IsMovedBy(before, after, 1, 35)
       case 8 => |before| == 4 && IsMovedBy(before, after, -35, -1)
       case 9 => |before| == 4 && IsMovedBy(before, after, 1, 35)
       case _ => |before| == 1 && after != before
  }

  ghost predicate IsOneOf(values: seq<int>, after: Input) {
    exists e, v :: v in values && after == EncAs(v, |after|, e)
  }

  ghost predicate IsMovedBy(before: Input, after: Input, lo: int, hi: int) {
    exists e, n :: lo <= n <= hi && after == Shifted(before, n, e)
  }

  /** A coin for the byte order; single bytes have none. */
  method AnyEndian(w: nat) returns (e: Endian)
  {
    e := Little;
    if w > 1 {
      var coin := UR(2);
      e := if coin == 1 then Little else Big;
    }
  }

  method TweakNumber(c: nat, before: Input) returns (after: Input)
    requires 1 <= c <= 10 && |before| == WidthOf(c)
    ensures IsTweakOf(c, before, after)
  {
    var e := AnyEndian(|before|);
    if c <= 3 {
      var values := InterestingOf(|before|);
      var k := UR(|values|);
      after := EncAs(values[k], |before|, e);
    } else if c <= 9 {
      var dice := UR(ARITH_MAX);
      var n: int := dice;
      n := if c % 2 == 0 then -1 - n else 1 + n;
      after := Shifted(before, n, e);
    } else {
      // xor with 1..255 gives every byte but the old one
      var b: Byte :| b != before[0];
      after := [b];
    }
  }

  predicate IsDictionary(d: Dictionary) {
    && (forall k :: 0 <= k < |d.extras| ==> |d.extras[k]| > 0)
    && (forall k :: 0 <= k < |d.autoExtras| ==> |d.autoExtras[k]| > 0)
  }

  method PickToken(d: Dictionary) returns (token: Input)
    requires IsDictionary(d) && |d.extras| + |d.autoExtras| > 0
    ensures |token| > 0 && (token in d.extras || token in d.autoExtras)
  {
    var useAuto := d.extras == [];
    if d.extras != [] && d.autoExtras != [] {
      var coin := UR(2);
      useAuto := coin == 1;
    }
    if useAuto {
      var k := UR(|d.autoExtras|);
      token := d.autoExtras[k];
    } else {
      var k := UR(|d.extras|);
      token := d.extras[k];
    }
  }

  /** `n` copies of one byte, random or taken from the buffer. */
  method ConstantBlock(buf: Input, n: nat) returns (block: Input)
    requires buf != []
    ensures |block| == n && IsConstant(block)
  {
    var coin := UR(2);
    var b: Byte;
    if coin == 1 {
      b :| true;
    } else {
      var k := UR(|buf|);
      b := buf[k];
    }
    block := seq(n, _ => b);
  }

  // ----- bits -----

  /** The `n` low bits of a number, most significant first. */
  function Bits(v: nat, n: nat): (bits: seq<bool>)
    ensures |bits| == n
  {
    if n == 0 then [] else Bits(v / 2, n - 1) + [v % 2 == 1]
  }

  function FromBits(bits: seq<bool>): (v: nat)
    ensures v < Pow2(|bits|)
  {
    if bits == [] then 0 else 2 * FromBits(bits[..|bits| - 1]) + (if bits[|bits| - 1] then 1 else 0)
  }

  lemma {:induction false} BitsRoundTrip(bits: seq<bool>)
    ensures Bits(FromBits(bits), |bits|) == bits
  {
    if bits != [] {
      var init := bits[..|bits| - 1];
      BitsRoundTrip(init);
      assert FromBits(bits) / 2 == FromBits(init);
      assert bits == init + [bits[|bits| - 1]];
    }
  }

  lemma {:induction false} FromBitsRoundTrip(v: nat, n: nat)
    requires v < Pow2(n)
    ensures FromBits(Bits(v, n)) == v
  {
    if n > 0 {
      FromBitsRoundTrip(v / 2, n - 1);
      assert Bits(v, n)[..n - 1] == Bits(v / 2, n - 1);
    }
  }

  lemma EightBits()
    ensures Pow2(8) == 256
  {
    assert Pow2(4) == 16;
  }

  function ByteBits(b: Byte): (bits: seq<bool>)
    ensures |bits| == 8
  {
    Bits(b, 8)
  }

  function ByteOf(bits: seq<bool>): (b: Byte)
    requires |bits| == 8
  {
    EightBits();
    FromBits(bits)
  }

  lemma ByteIsItsBits(b: Byte)
    ensures ByteOf(ByteBits(b)) == b
  {
    EightBits();
    FromBitsRoundTrip(b, 8);
  }

  /** A byte with bit `k`, counted from the most significant one, flipped: `b ^ (128 >> k)`. */
  function FlipBit(b: Byte, k: nat): (r: Byte)
    requires k < 8
    ensures r != b && ByteBits(r) == ByteBits(b)[k := !ByteBits(b)[k]]
  {
    BitsRoundTrip(ByteBits(b)[k := !ByteBits(b)[k]]);
    ByteOf(ByteBits(b)[k := !ByteBits(b)[k]])
  }

  lemma FlipTwice(b: Byte, k: nat)
    requires k < 8
    ensures FlipBit(FlipBit(b, k), k) == b
  {
    var bits: seq<bool> := ByteBits(b);
    assert bits[k := !bits[k]][k := bits[k]] == bits;
    ByteIsItsBits(b);
  }

  // ----- edits of a buffer -----

  /** `block` written over the buffer at `at`. */
  function Overwrite<T>(s: seq<T>, at: nat, block: seq<T>): (r: seq<T>)
    requires at + |block| <= |s|
    ensures |r| == |s|
  {
    s[..at] + block + s[at + |block|..]
  }

  function Insert<T>(s: seq<T>, at: nat, block: seq<T>): (r: seq<T>)
    requires at <= |s|
    ensures |r| == |s| + |block|
  {
    s[..at] + block + s[at..]
  }

  // ----- what the block and token cases work with -----

  ghost predicate IsPartAt(block: Input, buf: Input, i: nat) {
    i + |block| <= |buf| && block == buf[i..i + |block|]
  }

  ghost predicate IsPart(block: Input, buf: Input) {
    exists i :: IsPartAt(block, buf, i)
  }

  ghost predicate IsConstant(block: Input) {
    forall k :: 0 <= k < |block| ==> block[k] == block[0]
  }

  /** The material of the overwriting cases: another part of the buffer, or one byte repeated. */
  ghost predicate IsCopy(block: Input, buf: Input, cfg: Setup) {
    |buf| >= 2 && IsBlockLen(|block|, |buf| - 1, cfg) && (IsPart(block, buf) || IsConstant(block))
  }

  /** The material of the inserting case: a part of the buffer, or one byte repeated at most `limit` times. */
  ghost predicate IsClone(block: Input, buf: Input, limit: nat, cfg: Setup) {
    || (IsPart(block, buf) && IsBlockLen(|block|, |buf|, cfg))
    || (IsConstant(block) && IsBlockLen(|block|, limit, cfg))
  }

  predicate IsToken(dict: Dictionary, token: Input) {
    token in dict.extras || token in dict.autoExtras
  }
}
