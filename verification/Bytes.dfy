/** Bytes, buffers and the arithmetic helpers shared by every component. */
module Bytes {

  /** A byte of a test case. */
  type Byte = b: int | 0 <= b < 256

  /** A test case. */
  type Input = seq<Byte>

  /** One cell of a coverage map or of a byte mask, on which the source does bit operations. */
  type Cell = bv8

  /** A whole coverage map, one cell per branch tuple. */
  type Trace = seq<Cell>

  datatype Option<+T> = None | Some(value: T)

  function Min(a: int, b: int): (m: int)
    ensures m <= a && m <= b && (m == a || m == b)
  {
    if a < b then a else b
  }

  function Max(a: int, b: int): (m: int)
    ensures m >= a && m >= b && (m == a || m == b)
  {
    if a > b then a else b
  }

  /** `memcpy(dst + at, src, n)` where `src` starts at offset `from`. */
  method CopyBytes(dst: array<Byte>, at: nat, src: array<Byte>, from: nat, n: nat)
    requires dst != src
    requires at + n <= dst.Length && from + n <= src.Length
    modifies dst
    ensures dst[..] == old(dst[..at]) + src[from..from + n] + old(dst[at + n..])
  {
    for k := 0 to n
      invariant forall j :: 0 <= j < dst.Length ==> dst[j] == if at <= j < at + k then src[from + j - at]
                else old(dst[j])
    {
      dst[at + k] := src[from + k];
    }
  }

  /** `memset(dst + at, b, n)`. */
  method FillBytes(dst: array<Byte>, at: nat, b: Byte, n: nat)
    requires at + n <= dst.Length
    modifies dst
    ensures dst[..] == old(dst[..at]) + seq(n, _ => b) + old(dst[at + n..])
  {
    for k := 0 to n
      invariant forall j :: 0 <= j < dst.Length ==> dst[j] == if at <= j < at + k then b else old(dst[j])
    {
      dst[at + k] := b;
    }
  }

  /** `memmove(a + to, a + from, n)` for a move towards the front. */
  method MoveDown(a: array<Byte>, to: nat, from: nat, n: nat)
    requires to <= from && from + n <= a.Length
    modifies a
    ensures a[..] == old(a[..to]) + old(a[from..from + n]) + old(a[to + n..])
  {
    for k := 0 to n
      invariant forall j :: 0 <= j < to || to + k <= j < a.Length ==> a[j] == old(a[j])
      invariant forall j :: to <= j < to + k ==> a[j] == old(a[from + j - to])
    {
      a[to + k] := a[from + k];
    }
    MovedBytes(old(a[..]), a[..], to, from, n);
  }

  lemma MovedBytes(before: Input, after: Input, to: nat, from: nat, n: nat)
    requires |after| == |before| && to <= from && from + n <= |before|
    requires forall j :: 0 <= j < to || to + n <= j < |before| ==> after[j] == before[j]
    requires forall j :: to <= j < to + n ==> after[j] == before[from + j - to]
    ensures after == before[..to] + before[from..from + n] + before[to + n..]
  {
  }

  /** Quotient and remainder are found by exhibiting them. */
  lemma RemainderIs(v: int, m: nat, q: int, r: nat)
    requires v == m * q + r && r < m
    ensures v / m == q && v % m == r
  {
    var q', r' := v / m, v % m;
    assert m * (q - q') == r' - r;
    if q != q' {
      MultipleIsLarge(m, q - q');
      assert false;
    }
  }

  lemma {:induction false} MultipleIsLarge(m: nat, k: int)
    requires k != 0
    ensures m * k >= m || m * k <= 0 - m
    decreases if k > 0 then k else 0 - k
  {
    if k > 1 {
      MultipleIsLarge(m, k - 1);
    } else if k < -1 {
      MultipleIsLarge(m, k + 1);
    }
  }

  /** `s` with the block of `n` elements at `at` removed; the block is cut short by the end of `s`. */
  function Without<T>(s: seq<T>, at: nat, n: nat): (r: seq<T>)
    requires at <= |s|
    ensures |r| == |s| - Min(n, |s| - at)
  {
    s[..at] + (if at + n <= |s| then s[at + n..] else [])
  }

  /** Where block number `k` of length `n` starts. */
  function BlockStart(k: nat, n: nat): nat {
    if k == 0 then 0 else BlockStart(k - 1, n) + n
  }

  lemma {:induction false} BlocksAreOrdered(k: nat, j: nat, n: nat)
    requires k <= j
    ensures BlockStart(k, n) <= BlockStart(j, n)
  {
    if k < j {
      BlocksAreOrdered(k, j - 1, n);
    }
  }

  /** 2 to the power of `k`. */
  function Pow2(k: nat): (p: nat)
    ensures p >= 1
  {
    if k == 0 then 1 else 2 * Pow2(k - 1)
  }

  lemma {:induction false} Pow2Monotone(a: nat, b: nat)
    requires a <= b
    ensures Pow2(a) <= Pow2(b)
    ensures a < b ==> Pow2(a) < Pow2(b)
    decreases b
  {
    if a < b {
      Pow2Monotone(a, b - 1);
    }
  }

  ghost predicate IsPow2(n: int) {
    exists k: nat :: n == Pow2(k)
  }

  /** `next_p2`: the least power of two that is at least `val`. */
  method NextP2(val: nat) returns (ret: nat)
    ensures IsPow2(ret) && ret >= val
    ensures forall k: nat :: Pow2(k) >= val ==> ret <= Pow2(k)
    ensures val > 0 ==> ret < 2 * val
  {
    ret := 1;
    ghost var e := 0;
    while val > ret
      invariant ret == Pow2(e)
      invariant e > 0 ==> Pow2(e - 1) < val
      invariant ret < 2 * val || ret == 1
      decreases val - ret
    {
      ret := ret * 2;
      e := e + 1;
    }
    forall k: nat | Pow2(k) >= val
      ensures ret <= Pow2(k)
    {
      if k < e {
        Pow2Monotone(k, e - 1);
      } else {
        Pow2Monotone(e, k);
      }
    }
  }

  function Sum(s: seq<nat>): nat {
    if s == [] then 0 else Sum(s[..|s| - 1]) + s[|s| - 1]
  }
}
