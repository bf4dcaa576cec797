/** The deterministic stages of `fuzz_one`: `out_buf` is edited in place, run, and restored. */
module Stages {
  import opened Bytes
  import opened Mutators
  import opened Arith
  import opened Flips
  import opened BitRuns
  import opened LostSteps
  import opened Interest

  // ----- the effector map -----

  const EFF_BLOCK := 8

  /** `EFF_ALEN(len)`. */
  function EffLen(len: nat): nat {
    len / EFF_BLOCK + if len % EFF_BLOCK != 0 then 1 else 0
  }

  const EFF_MIN_LEN := 128
  const EFF_MAX_PERC := 90

  /** Inverting byte `p` changes the checksum of the trace; short inputs and dumb mode count every byte as effective. */
  ghost predicate Shows(buf: Input, sum: Input -> int, exec: int, flagAll: bool, p: nat)
    requires p < |buf|
  {
    flagAll || sum(Inverted(buf, p, 1)) != exec
  }

  /** Block `k` is the first or the last one, or has an effective byte among the first `n`. */
  ghost predicate Marked(buf: Input, sum: Input -> int, exec: int, flagAll: bool, n: nat, k: nat)
    requires n <= |buf|
  {
    || k == 0 || k == (|buf| - 1) / 8
    || exists p :: 0 <= p < n && Shows(buf, sum, exec, flagAll, p) && p / 8 == k
  }

  ghost predicate MarksAre(eff: seq<bool>, buf: Input, sum: Input -> int, exec: int, flagAll: bool, n: nat) {
    && CoversInput(eff, |buf|) && n <= |buf|
    && forall k :: 0 <= k < |eff| ==> (eff[k] <==> Marked(buf, sum, exec, flagAll, n, k))
  }

  function CountTrue(s: seq<bool>): (c: nat)
    ensures c <= |s|
  {
    if s == [] then 0 else CountTrue(s[..|s| - 1]) + if s[|s| - 1] then 1 else 0
  }

  lemma {:induction false} CountOneMore(s: seq<bool>, k: nat)
    requires k < |s| && !s[k]
    ensures CountTrue(s[k := true]) == CountTrue(s) + 1
  {
    var init := s[..|s| - 1];
    if k < |s| - 1 {
      assert s[k := true][..|s| - 1] == init[k := true];
      CountOneMore(init, k);
    } else {
      assert s[k := true][..|s| - 1] == init;
    }
  }

  lemma {:induction false} CountNone(n: nat)
    ensures CountTrue(seq(n, _ => false)) == 0
  {
    if n > 0 {
      assert seq(n, _ => false)[..n - 1] == seq(n - 1, _ => false);
      CountNone(n - 1);
    }
  }

  /** More than 90 percent of the blocks, but not all of them, are marked. */
  ghost predicate IsDense(marks: seq<bool>) {
    marks != [] && CountTrue(marks) != |marks| && CountTrue(marks) * 100 / |marks| > 90
  }

  lemma MarkStep(eff: seq<bool>, buf: Input, sum: Input -> int, exec: int, flagAll: bool, n: nat)
    requires n < |buf| && MarksAre(eff, buf, sum, exec, flagAll, n)
    ensures n / EFF_BLOCK < |eff|
    ensures var eff' := if Shows(buf, sum, exec, flagAll, n) then eff[n / EFF_BLOCK := true] else eff;
            MarksAre(eff', buf, sum, exec, flagAll, n + 1)
  {
    var b := n / EFF_BLOCK;
    assert b < |eff|;
    forall k | 0 <= k < |eff|
      ensures Marked(buf, sum, exec, flagAll, n + 1, k)
         <==> Marked(buf, sum, exec, flagAll, n, k) || (k == b && Shows(buf, sum, exec, flagAll, n))
    {
    }
  }

  /** The map has one cell for every block of eight bytes, the last of which may be incomplete. */
  ghost predicate CoversInput(eff: seq<bool>, len: nat) {
    len <= 8 * |eff| < len + 8
  }

  /** Some byte of a window lies in a marked block exactly if some block from that of its first to that of its last byte
      is marked. */
  lemma BlocksOfWindow(eff: seq<bool>, at: nat, n: nat)
    requires 0 < n && at + n <= 8 * |eff|
    ensures (exists b :: at / 8 <= b < (at + n - 1) / 8 + 1 && eff[b])
       <==> exists k :: at <= k < at + n && k / 8 < |eff| && eff[k / 8]
  {
    if k :| at <= k < at + n && eff[k / 8] {
      assert at / 8 <= k / 8 <= (at + n - 1) / 8;
    }
    if b :| at / 8 <= b < (at + n - 1) / 8 + 1 && eff[b] {
      var k := Max(at, 8 * b);
      assert k / 8 == b;
      assert eff[k / 8];
    }
  }

  // ----- the runs of an arithmetic stage -----

  /** Which buffer, if any, a stage runs for a given offset, step and byte order. */
  type Candidates = (nat, int, Endian) -> Option<Input>

  ghost function RunsOf(c: Option<Input>): seq<Input> {
    if c.Some? then [c.value] else []
  }

  ghost function BothWays(cand: Candidates, at: nat, j: nat, e: Endian): seq<Input> {
    RunsOf(cand(at, j, e)) + RunsOf(cand(at, 0 - j, e))
  }

  ghost function StepsBy(cand: Candidates, at: nat, w: nat, j: nat): seq<Input> {
    BothWays(cand, at, j, Little) + if w == 1 then [] else BothWays(cand, at, j, Big)
  }

  /** The runs for the first `n` numbers, one after the other. */
  ghost function Flat(f: nat -> seq<Input>, n: nat): seq<Input> {
    if n == 0 then [] else Flat(f, n - 1) + f(n - 1)
  }

  lemma {:induction false} InFlat(f: nat -> seq<Input>, n: nat, r: Input)
    ensures r in Flat(f, n) <==> exists k: nat :: k < n && r in f(k)
  {
    if n > 0 {
      InFlat(f, n - 1, r);
    }
  }

  lemma FlatWitness(f: nat -> seq<Input>, n: nat, r: Input) returns (k: nat)
    requires r in Flat(f, n)
    ensures k < n && r in f(k)
  {
    InFlat(f, n, r);
    k :| k < n && r in f(k);
  }

  /** Names an offset. */
  ghost predicate AboutOffset(at: nat) {
    true
  }

  ghost predicate IsFor(f: nat -> seq<Input>, g: nat -> seq<Input>) {
    forall at {:trigger AboutOffset(at)} :: f(at) == g(at)
  }

  ghost function Distances(cand: Candidates, at: nat, w: nat): nat -> seq<Input> {
    (k: nat) => StepsBy(cand, at, w, k + 1)
  }

  ghost function RunsUpTo(cand: Candidates, at: nat, w: nat, max: nat): seq<Input> {
    Flat(Distances(cand, at, w), max)
  }

  ghost function Offsets(cand: Candidates, w: nat, max: nat): nat -> seq<Input> {
    (at: nat) => RunsUpTo(cand, at, w, max)
  }

  /** The runs for the first `n` offsets, with steps of up to `max`. */
  ghost function ArithRuns(cand: Candidates, w: nat, max: nat, n: nat): seq<Input> {
    Flat(Offsets(cand, w, max), n)
  }

  /** A step of up to `max` either way. Single bytes have no byte order; the stage counts them as little-endian. */
  ghost predicate IsStepOf(w: nat, delta: int, e: Endian, max: nat) {
    (1 <= delta <= max || 0 - max <= delta <= -1) && (w == 1 ==> e == Little)
  }

  /** The candidate for a step of up to `max` is `r`. */
  ghost predicate Yields(cand: Candidates, at: nat, w: nat, max: nat, delta: int, e: Endian, r: Input) {
    IsStepOf(w, delta, e, max) && cand(at, delta, e) == Some(r)
  }

  lemma InStepsBy(cand: Candidates, at: nat, w: nat, j: nat, r: Input)
    requires j > 0
    ensures r in StepsBy(cand, at, w, j) ==> exists delta, e :: Yields(cand, at, w, j, delta, e, r)
    ensures forall delta, e :: (delta == j || delta == 0 - j) && Yields(cand, at, w, j, delta, e, r) ==>
              r in StepsBy(cand, at, w, j)
  {
    assert r in RunsOf(cand(at, j, Little)) <==> Yields(cand, at, w, j, j, Little, r);
    assert r in RunsOf(cand(at, 0 - j, Little)) <==> Yields(cand, at, w, j, 0 - j, Little, r);
    assert w != 1 ==> (r in RunsOf(cand(at, j, Big)) <==> Yields(cand, at, w, j, j, Big, r));
    assert w != 1 ==> (r in RunsOf(cand(at, 0 - j, Big)) <==> Yields(cand, at, w, j, 0 - j, Big, r));
    forall delta, e | (delta == j || delta == 0 - j) && Yields(cand, at, w, j, delta, e, r)
      ensures r in StepsBy(cand, at, w, j)
    {
      assert e == Little || (w != 1 && e == Big);
    }
  }

  lemma InRunsUpTo(cand: Candidates, at: nat, w: nat, max: nat, r: Input)
    ensures r in RunsUpTo(cand, at, w, max) <==> exists delta, e :: Yields(cand, at, w, max, delta, e, r)
  {
    if r in RunsUpTo(cand, at, w, max) {
      RunIsYielded(cand, at, w, max, r);
    }
    forall delta, e | Yields(cand, at, w, max, delta, e, r)
      ensures r in RunsUpTo(cand, at, w, max)
    {
      YieldedIsRun(cand, at, w, max, delta, e, r);
    }
  }

  lemma RunIsYielded(cand: Candidates, at: nat, w: nat, max: nat, r: Input)
    requires r in RunsUpTo(cand, at, w, max)
    ensures exists delta, e :: Yields(cand, at, w, max, delta, e, r)
  {
    var k := FlatWitness(Distances(cand, at, w), max, r);
    DistanceYields(cand, at, w, k + 1, max, r);
  }

  lemma DistanceYields(cand: Candidates, at: nat, w: nat, j: nat, max: nat, r: Input)
    requires 0 < j <= max && r in StepsBy(cand, at, w, j)
    ensures exists delta, e :: Yields(cand, at, w, max, delta, e, r)
  {
    InStepsBy(cand, at, w, j, r);
    var delta, e :| Yields(cand, at, w, j, delta, e, r);
    assert Yields(cand, at, w, max, delta, e, r);
  }

  lemma YieldedIsRun(cand: Candidates, at: nat, w: nat, max: nat, delta: int, e: Endian, r: Input)
    requires Yields(cand, at, w, max, delta, e, r)
    ensures r in RunsUpTo(cand, at, w, max)
  {
    var f, j := Distances(cand, at, w), if delta > 0 then delta else 0 - delta;
    InStepsBy(cand, at, w, j, r);
    assert Yields(cand, at, w, j, delta, e, r);
    assert r in f(j - 1);
    InFlat(f, max, r);
  }

  lemma InArithRuns(cand: Candidates, w: nat, max: nat, n: nat, r: Input)
    ensures r in ArithRuns(cand, w, max, n)
            <==> exists at: nat, delta, e :: at < n && Yields(cand, at, w, max, delta, e, r)
  {
    var f := Offsets(cand, w, max);
    InFlat(f, n, r);
    if r in ArithRuns(cand, w, max, n) {
      var at: nat :| at < n && r in f(at);
      InRunsUpTo(cand, at, w, max, r);
    }
    forall at: nat, delta, e | at < n && Yields(cand, at, w, max, delta, e, r)
      ensures r in ArithRuns(cand, w, max, n)
    {
      InRunsUpTo(cand, at, w, max, r);
      assert r in f(at);
    }
  }

  lemma {:induction false} NothingToRun(cand: Candidates, at: nat, w: nat, max: nat)
    requires forall delta, e :: cand(at, delta, e).None?
    ensures RunsUpTo(cand, at, w, max) == []
    decreases max
  {
    if max > 0 {
      NothingToRun(cand, at, w, max - 1);
    }
  }

  /** How many steps there are for each distance. */
  function Ways(w: nat): nat {
    if w == 1 then 2 else 4
  }

  /** The steps still to be considered after those for `j` distances. */
  function After(left: int, j: nat, w: nat): int {
    if w == 1 then left - 2 * j else left - 4 * j
  }

  /** How many candidates an offset has, with `k` values or distances in 1, 2 or 4 variants each. */
  function PerOffset(k: nat, variants: nat): nat {
    if variants == 1 then k else if variants == 2 then 2 * k else 4 * k
  }

  /** The candidates still to be considered with `n` offsets of `per` candidates to go. */
  function Budget(n: nat, per: nat): nat {
    if n == 0 then 0 else Budget(n - 1, per) + per
  }

  lemma {:induction false} BudgetIs(n: nat, per: nat)
    ensures Budget(n, per) == n * per
    decreases n
  {
    if n > 0 {
      BudgetIs(n - 1, per);
      assert (n - 1) * per + per == n * per;
    }
  }

  /** The number of runs a stage plans: `per` for each of `n` offsets. */
  method Planned(n: nat, per: nat) returns (max: nat)
    ensures max == Budget(n, per)
  {
    max := n * per;
    BudgetIs(n, per);
  }

  /** The list is what the stage of width `w` runs. */
  ghost predicate IsStageList(list: seq<Input>, buf: Input, eff: seq<bool>, w: nat, max: nat) {
    forall v: nat {:trigger AboutOffset(v)} :: v == w <= |buf| ==> list == StageRuns(buf, eff, v, max)
  }

  /** The steps of a stage, and what it runs at each offset. */
  lemma ListSteps(buf: Input, eff: seq<bool>, w: nat, max: nat, list: seq<Input>)
    returns (cand: Candidates, f: nat -> seq<Input>)
    requires w <= |buf| && IsStageList(list, buf, eff, w, max)
    ensures Lists(cand, buf, eff, w) && IsFor(f, Offsets(cand, w, max)) && Flat(f, |buf| - w + 1) == list
  {
    assert AboutOffset(w);
    cand := Steps(buf, eff, w);
    f := Offsets(cand, w, max);
  }

  lemma BothWaysOrder(cand: Candidates, at: nat, j: nat, e: Endian, done: seq<Input>)
    ensures done + BothWays(cand, at, j, e) == done + RunsOf(cand(at, j, e)) + RunsOf(cand(at, 0 - j, e))
  {
  }

  lemma StepsByOrder(cand: Candidates, at: nat, w: nat, j: nat, done: seq<Input>)
    ensures done + StepsBy(cand, at, w, j)
         == if w == 1 then done + BothWays(cand, at, j, Little)
            else done + BothWays(cand, at, j, Little) + BothWays(cand, at, j, Big)
  {
  }

  lemma OneMore(f: nat -> seq<Input>, n: nat, done: seq<Input>)
    ensures done + Flat(f, n + 1) == done + Flat(f, n) + f(n)
  {
  }

  lemma {:induction false} FlatGrows(f: nat -> seq<Input>, a: nat, b: nat, done: seq<Input>)
    requires a <= b
    ensures Flat(f, a) <= Flat(f, b) && done + Flat(f, a) <= done + Flat(f, b)
    decreases b
  {
    if a < b {
      FlatGrows(f, a, b - 1, done);
    }
  }

  // ----- which steps an arithmetic stage tries -----

  /** The change that a step makes to the number at `at`. */
  function StepXor(buf: Input, at: nat, w: nat, delta: int, e: Endian): nat
    requires at + w <= |buf|
  {
    Xor(Dec(buf[at..at + w]), Dec(Shifted(buf[at..at + w], delta, e)), w)
  }

  /** A step is tried when it crosses the halves of the number and does not look like a flip. */
  ghost predicate Wanted(buf: Input, at: nat, w: nat, delta: int, e: Endian)
    requires at + w <= |buf|
  {
    (w == 1 || Guard(Dec(buf[at..at + w]), w, delta, e)) && !LooksFlipped(StepXor(buf, at, w, delta, e))
  }

  /** The window lies in the buffer and touches an effective block. */
  ghost predicate Effective(buf: Input, eff: seq<bool>, at: nat, w: nat) {
    at + w <= |buf| && exists k :: at <= k < at + w && k / 8 < |eff| && eff[k / 8]
  }

  ghost function StepFor(buf: Input, eff: seq<bool>, w: nat, at: nat, delta: int, e: Endian): Option<Input> {
    if Effective(buf, eff, at, w) && Wanted(buf, at, w, delta, e) then Some(WideStep(buf, at, w, delta, e)) else None
  }

  ghost function Steps(buf: Input, eff: seq<bool>, w: nat): Candidates {
    (at: nat, delta: int, e: Endian) => StepFor(buf, eff, w, at, delta, e)
  }

  /** Names the candidate that a step is about. */
  ghost predicate About(at: nat, delta: int, e: Endian) {
    true
  }

  lemma NextDistance(f: nat -> seq<Input>, cand: Candidates, at: nat, w: nat, j: nat, done: seq<Input>)
    requires IsFor(f, Distances(cand, at, w))
    ensures done + Flat(f, j + 1) == done + Flat(f, j) + StepsBy(cand, at, w, j + 1)
  {
    assert AboutOffset(j);
    OneMore(f, j, done);
  }

  /** `cand` lists the steps of the arithmetic stage. */
  ghost predicate Lists(cand: Candidates, buf: Input, eff: seq<bool>, w: nat) {
    forall at, delta, e {:trigger About(at, delta, e)} :: cand(at, delta, e) == StepFor(buf, eff, w, at, delta, e)
  }

  /** What the arithmetic stage of width `w` runs. */
  ghost function StageRuns(buf: Input, eff: seq<bool>, w: nat, max: nat): seq<Input>
    requires w <= |buf|
  {
    ArithRuns(Steps(buf, eff, w), w, max, |buf| - w + 1)
  }

  /** A run of the arithmetic stage: a step of up to `max` either way on a number that touches an effective block,
      passing the guard and not looking like a flip. */
  ghost predicate IsArithRun(buf: Input, eff: seq<bool>, w: nat, max: nat, r: Input, at: nat, delta: int, e: Endian) {
    && IsStepOf(w, delta, e, max) && IsStep(buf, r, at, w, e, delta)
    && (exists k :: at <= k < at + w && k / 8 < |eff| && eff[k / 8]) && Wanted(buf, at, w, delta, e)
  }

  lemma RunIsStep(buf: Input, eff: seq<bool>, w: nat, max: nat, r: Input, at: nat, delta: int, e: Endian)
    ensures IsArithRun(buf, eff, w, max, r, at, delta, e) <==> Yields(Steps(buf, eff, w), at, w, max, delta, e, r)
    ensures IsArithRun(buf, eff, w, max, r, at, delta, e) ==> at + w <= |buf|
  {
  }

  /** The arithmetic stage runs exactly those steps. */
  lemma ArithRunsAreExact(buf: Input, eff: seq<bool>, w: nat, max: nat, r: Input)
    requires w <= |buf|
    ensures r in StageRuns(buf, eff, w, max) <==> exists at, delta, e :: IsArithRun(buf, eff, w, max, r, at, delta, e)
  {
    var cand, n := Steps(buf, eff, w), |buf| - w + 1;
    InArithRuns(cand, w, max, n, r);
    if r in StageRuns(buf, eff, w, max) {
      var at: nat, delta, e :| at < n && Yields(cand, at, w, max, delta, e, r);
      RunIsStep(buf, eff, w, max, r, at, delta, e);
    }
    forall at, delta, e | IsArithRun(buf, eff, w, max, r, at, delta, e)
      ensures r in StageRuns(buf, eff, w, max)
    {
      RunIsStep(buf, eff, w, max, r, at, delta, e);
    }
  }

  /** The steps of the arithmetic stage of width `w` are among the runs. */
  ghost predicate RanSteps(buf: Input, eff: seq<bool>, w: nat, max: nat, runs: seq<Input>) {
    w <= |buf| && forall r :: r in StageRuns(buf, eff, w, max) ==> r in runs
  }

  // ----- nothing is lost to the guards -----

  /** The buffer `r` is a step of width `w` that was run, or that looks like a flip. */
  ghost predicate RunOrFlip(buf: Input, eff: seq<bool>, w: nat, max: nat, r: Input) {
    && IsWidth(w) && w <= |buf|
    && (r in StageRuns(buf, eff, w, max) || exists at, delta, e :: IsFlipLikeStep(buf, eff, r, at, w, delta, e))
  }

  /** The buffer `r` is a step on effective bytes that looks like a flip. */
  ghost predicate IsFlipLikeStep(buf: Input, eff: seq<bool>, r: Input, at: nat, w: nat, delta: int, e: Endian) {
    && SmallDelta(delta) && IsStep(buf, r, at, w, e, delta) && AllEffective(eff, at, w)
    && LooksFlipped(StepXor(buf, at, w, delta, e))
  }

  ghost predicate AllEffective(eff: seq<bool>, at: nat, w: nat) {
    at + w <= 8 * |eff| && forall k :: at <= k < at + w ==> eff[k / 8]
  }

  lemma GuardedStepIsRun(buf: Input, eff: seq<bool>, at: nat, w: nat, max: nat, delta: int, e: Endian)
    requires IsWidth(w) && at + w <= |buf| && SmallDelta(delta) && IsStepOf(w, delta, e, max)
             && AllEffective(eff, at, w)
    requires w == 1 || Guard(Dec(buf[at..at + w]), w, delta, e)
    ensures RunOrFlip(buf, eff, w, max, WideStep(buf, at, w, delta, e))
  {
    var r := WideStep(buf, at, w, delta, e);
    assert eff[at / 8];
    ArithRunsAreExact(buf, eff, w, max, r);
    if LooksFlipped(StepXor(buf, at, w, delta, e)) {
      assert IsFlipLikeStep(buf, eff, r, at, w, delta, e);
    } else {
      assert IsArithRun(buf, eff, w, max, r, at, delta, e);
    }
  }

  /** The stage of width `w` or a narrower one runs `r`, or takes it for a flip. */
  ghost predicate IsCovered(buf: Input, eff: seq<bool>, w: nat, max: nat, r: Input) {
    exists v: nat :: v <= w && RunOrFlip(buf, eff, v, max, r)
  }

  /** No step on effective bytes is lost to the guards: it is run by its own stage or a narrower one, unless it is taken
      for a flip there. The stages use a `max` of 35. */
  lemma {:induction false} NoStepIsLost(buf: Input, eff: seq<bool>, at: nat, w: nat, max: nat, delta: int, e: Endian)
    requires IsWidth(w) && at + w <= |buf| && AllEffective(eff, at, w)
    requires max <= 35 && (1 <= delta <= max || 0 - max <= delta <= -1)
    ensures IsCovered(buf, eff, w, max, WideStep(buf, at, w, delta, e))
    decreases w
  {
    if w == 1 {
      OneByteOrder(buf[at..at + 1], delta, e);
      GuardedStepIsRun(buf, eff, at, 1, max, delta, Little);
    } else if Guard(Dec(buf[at..at + w]), w, delta, e) {
      GuardedStepIsRun(buf, eff, at, w, max, delta, e);
    } else {
      RejectedStepIsNarrow(buf, at, w, delta, e);
      NoStepIsLost(buf, eff, LowAt(at, w / 2, e), w / 2, max, delta, e);
    }
  }

  lemma RejectedStepIsNarrow(buf: Input, at: nat, w: nat, delta: int, e: Endian)
    requires (w == 2 || w == 4) && at + w <= |buf| && SmallDelta(delta) && !Guard(Dec(buf[at..at + w]), w, delta, e)
    ensures WideStep(buf, at, w, delta, e) == WideStep(buf, LowAt(at, w / 2, e), w / 2, delta, e)
  {
    assert w == 2 * (w / 2);
    GuardIsExact(buf, at, w / 2, delta, e);
  }

  lemma OneByteOrder(c: Input, delta: int, e: Endian)
    requires |c| == 1
    ensures Shifted(c, delta, e) == Shifted(c, delta, Little)
  {
    assert c[1..] == [] && Reverse(c) == c;
    var enc := Enc(Dec(c) + delta, 1);
    assert enc[1..] == [] && Reverse(enc) == enc;
  }

  // ----- the buffer -----

  class Fuzzer {
    const inBuf: Input
    const outBuf: array<Byte>
    /** Whether the n-th run asks to abandon the entry: an interruption, a request to skip, or too many timeouts. */
    const stops: nat -> bool
    var stageCur: int
    var stageMax: int
    /** The buffers that the target was run on. */
    var runs: seq<Input>

    constructor (input: Input, stops: nat -> bool)
      ensures inBuf == input && this.stops == stops && Clean() && runs == [] && fresh(outBuf)
    {
      inBuf, this.stops := input, stops;
      outBuf := new Byte[|input|](i requires 0 <= i < |input| => input[i]);
      stageCur, stageMax, runs := 0, 0, [];
      new;
      assert outBuf[..] == inBuf;
    }

    /** `out_buf` holds the input. */
    ghost predicate Clean()
      reads this, outBuf
    {
      outBuf[..] == inBuf
    }

    /** Inside a stage: `out_buf` is the input but for the `w` bytes at `at`; the stage has made the runs `done` and has
        `left` candidates to go. */
    ghost predicate Mid(at: nat, w: nat, before: seq<Input>, done: seq<Input>, left: int)
      reads this, outBuf
    {
      && SameOutside(inBuf, outBuf[..], at, w) && runs == before + done && NoneAsked(|before|, |runs|)
      && stageCur == |done| && stageMax == |done| + left
    }

    /** A stage that ran to its end. */
    ghost predicate Finished(before: seq<Input>, done: seq<Input>)
      reads this, outBuf
    {
      Clean() && runs == before + done && NoneAsked(|before|, |runs|) && stageMax == stageCur == |done|
    }

    /** No run from number `a` up to number `b` asks to abandon the entry. */
    ghost predicate NoneAsked(a: nat, b: nat) {
      forall k :: a <= k < b ==> !stops(k)
    }

    /** The runs since `before` are the first ones of `list`; the last of them, and none before it, asked to abandon the
        entry. `AboutRuns` marks the members that look into it. */
    ghost predicate Abandoned(before: seq<Input>, list: seq<Input>)
      reads this
    {
      forall n: nat {:trigger AboutRuns(n)} :: n == |runs| ==>
        before <= runs <= before + list && |before| < n && stops(n - 1) && NoneAsked(|before|, n - 1)
    }

    static ghost predicate AboutRuns(n: nat) {
      true
    }

    /** The list of which the runs are the first ones may go on in any way. */
    lemma GoesOn(before: seq<Input>, list: seq<Input>, longer: seq<Input>)
      requires Abandoned(before, list) && list <= longer
      ensures Abandoned(before, longer)
    {
      assert AboutRuns(|runs|);
      assert before + longer == (before + list) + longer[|list|..];
    }

    /** A stage that started after the runs `done` of others. */
    lemma AfterOthers(before: seq<Input>, done: seq<Input>, list: seq<Input>)
      requires Abandoned(before + done, list) && NoneAsked(|before|, |before + done|)
      ensures Abandoned(before, done + list)
    {
      assert AboutRuns(|runs|);
      Chain(before, done, list);
      assert before <= before + done;
    }

    /** While the input is in place, the stage may move on to any window. */
    lemma MoveOn(at: nat, w: nat, i: nat, v: nat, before: seq<Input>, done: seq<Input>, left: int)
      requires Clean() && Mid(at, w, before, done, left) && i + v <= |inBuf|
      ensures Mid(i, v, before, done, left)
    {
    }

    method Write(at: nat, block: Input)
      requires at + |block| <= outBuf.Length
      modifies outBuf
      ensures outBuf[..] == Overwrite(old(outBuf[..]), at, block)
    {
      WriteInto(outBuf, at, block);
    }

    static method WriteInto(a: array<Byte>, at: nat, block: Input)
      requires at + |block| <= a.Length
      modifies a
      ensures a[..] == Overwrite(old(a[..]), at, block)
    {
      for k := 0 to |block|
        invariant forall j :: 0 <= j < a.Length ==> a[j] == if at <= j < at + k then block[j - at] else old(a[j])
      {
        a[at + k] := block[k];
      }
    }

    /** `common_fuzz_stuff` on `out_buf`; the target decides whether the entry is abandoned. */
    method Run() returns (bail: bool)
      modifies this`runs
      ensures runs == old(runs) + [outBuf[..]] && bail == stops(|old(runs)|)
    {
      bail := RunOn(outBuf[..]);
    }

    method RunOn(buf: Input) returns (bail: bool)
      modifies this`runs
      ensures runs == old(runs) + [buf] && bail == stops(|old(runs)|)
    {
      bail := stops(|runs|);
      runs := runs + [buf];
    }

    /** Run the input with `block` at `at`, in a stage that has so far only touched bytes under the block. */
    method RunWith(at: nat, block: Input, ghost w: nat, ghost before: seq<Input>, ghost done: seq<Input>,
                   ghost left: int) returns (bail: bool)
      requires w <= |block| && at + |block| <= |inBuf| && Mid(at, w, before, done, left)
      modifies this`runs, this`stageCur, outBuf
      ensures bail ==> Abandoned(before, done + [Overwrite(inBuf, at, block)])
      ensures !bail ==> Mid(at, |block|, before, done + [Overwrite(inBuf, at, block)], left - 1)
      ensures !bail ==> outBuf[..] == Overwrite(inBuf, at, block)
    {
      OverwriteOver(inBuf, outBuf[..], at, w, block);
      Write(at, block);
      bail := Run();
      stageCur := stageCur + 1;
    }

    method Skip(ghost at: nat, ghost w: nat, ghost before: seq<Input>, ghost done: seq<Input>, ghost left: int)
      requires Mid(at, w, before, done, left)
      modifies this`stageMax
      ensures Mid(at, w, before, done, left - 1)
    {
      stageMax := stageMax - 1;
    }

    /** Put back the `w` bytes at `at`. */
    method Restore(at: nat, orig: Input, ghost before: seq<Input>, ghost done: seq<Input>, ghost left: int)
      requires Mid(at, |orig|, before, done, left) && orig == inBuf[at..at + |orig|]
      modifies outBuf
      ensures Clean() && Mid(at, |orig|, before, done, left)
    {
      OverwriteOver(inBuf, outBuf[..], at, |orig|, orig);
      Write(at, orig);
      assert outBuf[..] == inBuf[..at] + inBuf[at..at + |orig|] + inBuf[at + |orig|..];
      assert outBuf[..] == inBuf;
    }

    // ----- the effector map -----

    /** The tests `eff_map[EFF_APOS(i)] || ... || eff_map[EFF_APOS(i + w - 1)]`. */
    method WindowTouches(eff: seq<bool>, at: nat, w: nat) returns (any: bool)
      requires CoversInput(eff, |inBuf|) && at + w <= |inBuf|
      ensures any <==> Effective(inBuf, eff, at, w)
    {
      any := false;
      for k := at to at + w
        invariant any <==> exists j :: at <= j < k && j / 8 < |eff| && eff[j / 8]
      {
        if eff[k / EFF_BLOCK] {
          any := true;
        }
      }
    }

    /** `memchr(eff_map + EFF_APOS(i), 1, EFF_SPAN_ALEN(i, n))`. */
    method SpanTouches(eff: seq<bool>, at: nat, n: nat) returns (any: bool)
      requires CoversInput(eff, |inBuf|) && 0 < n && at + n <= |inBuf|
      ensures any <==> Effective(inBuf, eff, at, n)
    {
      var first, last := at / EFF_BLOCK, (at + n - 1) / EFF_BLOCK;
      any := false;
      for b := first to last + 1
        invariant any <==> exists j :: first <= j < b && eff[j]
      {
        if eff[b] {
          any := true;
        }
      }
      BlocksOfWindow(eff, at, n);
    }

    // ----- arithmetic -----

    method TryStep(at: nat, orig: Input, delta: int, e: Endian, eff: seq<bool>, ghost cand: Candidates,
                   ghost before: seq<Input>, ghost done: seq<Input>, ghost left: int) returns (bail: bool)
      requires |orig| > 0 && Mid(at, |orig|, before, done, left) && orig == inBuf[at..at + |orig|]
      requires Effective(inBuf, eff, at, |orig|) && Lists(cand, inBuf, eff, |orig|)
      modifies this, outBuf
      ensures bail ==> Abandoned(before, done + RunsOf(cand(at, delta, e)))
      ensures !bail ==> Mid(at, |orig|, before, done + RunsOf(cand(at, delta, e)), left - 1)
    {
      assert About(at, delta, e);
      var wanted := IsWanted(at, orig, delta, e);
      if wanted {
        bail := RunWith(at, Shifted(orig, delta, e), |orig|, before, done, left);
      } else {
        bail := false;
        Skip(at, |orig|, before, done, left);
        assert done + [] == done;
      }
    }

    /** The guard of the stage and the test for a flip. */
    method IsWanted(ghost at: nat, orig: Input, delta: int, e: Endian) returns (wanted: bool)
      requires at + |orig| <= |inBuf| && orig == inBuf[at..at + |orig|]
      ensures wanted == Wanted(inBuf, at, |orig|, delta, e)
    {
      var flipped := CouldBeBitflip(Xor(Dec(orig), Dec(Shifted(orig, delta, e)), |orig|));
      wanted := (|orig| == 1 || Guard(Dec(orig), |orig|, delta, e)) && !flipped;
    }

    /** The steps by `j` up and down, in one byte order. */
    method TryBothWays(at: nat, orig: Input, j: nat, e: Endian, eff: seq<bool>, ghost cand: Candidates,
                       ghost before: seq<Input>, ghost done: seq<Input>, ghost left: int) returns (bail: bool)
      requires |orig| > 0 && Mid(at, |orig|, before, done, left) && orig == inBuf[at..at + |orig|]
      requires Effective(inBuf, eff, at, |orig|) && Lists(cand, inBuf, eff, |orig|)
      modifies this, outBuf
      ensures bail ==> Abandoned(before, done + BothWays(cand, at, j, e))
      ensures !bail ==> Mid(at, |orig|, before, done + BothWays(cand, at, j, e), left - 2)
    {
      BothWaysOrder(cand, at, j, e, done);
      bail := TryStep(at, orig, j, e, eff, cand, before, done, left);
      if bail {
        GoesOn(before, done + RunsOf(cand(at, j, e)), done + BothWays(cand, at, j, e));
        return;
      }
      bail := TryStep(at, orig, 0 - j, e, eff, cand, before, done + RunsOf(cand(at, j, e)), left - 1);
    }

    /** All steps by `j` on the number at `at`; afterwards the input is back in place. */
    method TryDelta(at: nat, orig: Input, j: nat, eff: seq<bool>, ghost cand: Candidates,
                    ghost before: seq<Input>, ghost done: seq<Input>, ghost left: int) returns (bail: bool)
      requires |orig| > 0 && Mid(at, |orig|, before, done, left) && orig == inBuf[at..at + |orig|]
      requires Effective(inBuf, eff, at, |orig|) && Lists(cand, inBuf, eff, |orig|)
      modifies this, outBuf
      ensures bail ==> Abandoned(before, done + StepsBy(cand, at, |orig|, j))
      ensures !bail ==> Clean() && Mid(at, |orig|, before, done + StepsBy(cand, at, |orig|, j), left - Ways(|orig|))
    {
      StepsByOrder(cand, at, |orig|, j, done);
      bail := TryBothWays(at, orig, j, Little, eff, cand, before, done, left);
      if bail {
        GoesOn(before, done + BothWays(cand, at, j, Little), done + StepsBy(cand, at, |orig|, j));
        return;
      }
      if |orig| > 1 {
        bail := TryBothWays(at, orig, j, Big, eff, cand, before, done + BothWays(cand, at, j, Little), left - 2);
        if bail {
          return;
        }
      }
      Restore(at, orig, before, done + StepsBy(cand, at, |orig|, j), left - Ways(|orig|));
    }

    /** The next distance for the number at `at`. */
    method NextDelta(at: nat, orig: Input, j: nat, max: nat, eff: seq<bool>, ghost cand: Candidates,
                     ghost f: nat -> seq<Input>,
                     ghost before: seq<Input>, ghost done: seq<Input>, ghost left: int) returns (bail: bool)
      requires j < max && |orig| > 0 && Effective(inBuf, eff, at, |orig|) && orig == inBuf[at..at + |orig|]
      requires Lists(cand, inBuf, eff, |orig|) && IsFor(f, Distances(cand, at, |orig|))
      requires Mid(at, |orig|, before, done + Flat(f, j), After(left, j, |orig|))
      modifies this, outBuf
      ensures bail ==> Abandoned(before, done + Flat(f, max))
      ensures !bail ==> Clean() && Mid(at, |orig|, before, done + Flat(f, j + 1), After(left, j + 1, |orig|))
    {
      NextDistance(f, cand, at, |orig|, j, done);
      bail := TryDelta(at, orig, j + 1, eff, cand, before, done + Flat(f, j), After(left, j, |orig|));
      if bail {
        FlatGrows(f, j + 1, max, done);
        GoesOn(before, done + Flat(f, j + 1), done + Flat(f, max));
      }
    }

    /** All steps on the number at `at`. */
    method TryNumber(at: nat, w: nat, max: nat, eff: seq<bool>, ghost cand: Candidates, ghost f: nat -> seq<Input>,
                     ghost before: seq<Input>, ghost done: seq<Input>, ghost left: int) returns (bail: bool)
      requires w > 0 && at + w <= |inBuf| && Clean() && Mid(at, w, before, done, left)
               && IsFor(f, Distances(cand, at, w))
      requires Effective(inBuf, eff, at, w) && Lists(cand, inBuf, eff, w)
      modifies this, outBuf
      ensures bail ==> Abandoned(before, done + Flat(f, max))
      ensures !bail ==> Clean() && Mid(at, w, before, done + Flat(f, max), After(left, max, w))
    {
      var orig := outBuf[at..at + w];
      bail := false;
      assert done + Flat(f, 0) == done;
      for j: nat := 0 to max
        invariant Clean() && Mid(at, w, before, done + Flat(f, j), After(left, j, w))
      {
        bail := NextDelta(at, orig, j, max, eff, cand, f, before, done, left);
        if bail {
          return;
        }
      }
    }

    /** One offset of the arithmetic stage. */
    method ArithOffset(i: nat, w: nat, max: nat, eff: seq<bool>, ghost cand: Candidates,
                       ghost before: seq<Input>, ghost done: seq<Input>, ghost left: int) returns (bail: bool)
      requires w > 0 && i + w <= |inBuf| && CoversInput(eff, |inBuf|) && Clean() && Mid(i, w, before, done, left)
      requires Lists(cand, inBuf, eff, w)
      modifies this, outBuf
      ensures bail ==> Abandoned(before, done + RunsUpTo(cand, i, w, max))
      ensures !bail ==> Clean() && Mid(i, w, before, done + RunsUpTo(cand, i, w, max), After(left, max, w))
    {
      var touches := WindowTouches(eff, i, w);
      if !touches {
        stageMax := stageMax - PerOffset(max, Ways(w));
        bail := false;
        forall delta, e
          ensures cand(i, delta, e).None?
        {
          assert About(i, delta, e);
        }
        NothingToRun(cand, i, w, max);
        assert done + [] == done;
      } else {
        bail := TryNumber(i, w, max, eff, cand, Distances(cand, i, w), before, done, left);
      }
    }

    /** The next offset of the arithmetic stage. */
    method NextOffset(i: nat, w: nat, max: nat, eff: seq<bool>, ghost cand: Candidates, ghost f: nat -> seq<Input>,
                      ghost before: seq<Input>, ghost left: int) returns (bail: bool)
      requires w > 0 && i + w <= |inBuf| && CoversInput(eff, |inBuf|) && Clean() && Mid(0, w, before, Flat(f, i), left)
      requires Lists(cand, inBuf, eff, w) && IsFor(f, Offsets(cand, w, max))
      modifies this, outBuf
      ensures bail ==> Abandoned(before, Flat(f, |inBuf| - w + 1))
      ensures !bail ==> Clean() && Mid(0, w, before, Flat(f, i + 1), After(left, max, w))
    {
      assert AboutOffset(i);
      MoveOn(0, w, i, w, before, Flat(f, i), left);
      bail := ArithOffset(i, w, max, eff, cand, before, Flat(f, i), left);
      if bail {
        FlatGrows(f, i + 1, |inBuf| - w + 1, []);
        GoesOn(before, Flat(f, i + 1), Flat(f, |inBuf| - w + 1));
      } else {
        MoveOn(i, w, 0, w, before, Flat(f, i + 1), After(left, max, w));
      }
    }

    method ArithLoop(w: nat, max: nat, eff: seq<bool>, ghost cand: Candidates, ghost f: nat -> seq<Input>)
      returns (bail: bool)
      requires IsWidth(w) && w <= |inBuf| && Clean() && CoversInput(eff, |inBuf|) && Lists(cand, inBuf, eff, w)
      requires IsFor(f, Offsets(cand, w, max))
      requires stageCur == 0 && stageMax == Budget(|inBuf| - w + 1, PerOffset(max, Ways(w)))
      modifies this, outBuf
      ensures bail ==> Abandoned(old(runs), Flat(f, |inBuf| - w + 1))
      ensures !bail ==> Finished(old(runs), Flat(f, |inBuf| - w + 1))
    {
      var n := |inBuf| - w + 1;
      ghost var before := runs;
      bail := false;
      for i := 0 to n
        invariant Clean() && Mid(0, w, before, Flat(f, i), Budget(n - i, PerOffset(max, Ways(w))))
      {
        bail := NextOffset(i, w, max, eff, cand, f, before, Budget(n - i, PerOffset(max, Ways(w))));
        if bail {
          return;
        }
      }
    }

    method ListedSteps(w: nat, max: nat, eff: seq<bool>, ghost list: seq<Input>) returns (bail: bool)
      requires IsWidth(w) && w <= |inBuf| && Clean() && CoversInput(eff, |inBuf|)
      requires IsStageList(list, inBuf, eff, w, max)
      modifies this, outBuf
      ensures bail ==> Abandoned(old(runs), list)
      ensures !bail ==> Finished(old(runs), list)
    {
      var planned := Planned(|inBuf| - w + 1, PerOffset(max, Ways(w)));
      stageCur, stageMax := 0, planned;
      ghost var cand, f := ListSteps(inBuf, eff, w, max, list);
      bail := ArithLoop(w, max, eff, cand, f);
    }

    /** The arithmetic stage of width 1, 2 or 4, with steps of up to `max`, which is `ARITH_MAX`. */
    method ArithStage(w: nat, max: nat, eff: seq<bool>) returns (bail: bool)
      requires IsWidth(w) && w <= |inBuf| && Clean() && CoversInput(eff, |inBuf|)
      modifies this, outBuf
      ensures bail ==> Abandoned(old(runs), StageRuns(inBuf, eff, w, max))
      ensures !bail ==> Finished(old(runs), StageRuns(inBuf, eff, w, max))
    {
      bail := ListedSteps(w, max, eff, StageRuns(inBuf, eff, w, max));
    }

    // ----- interesting values -----

    /** One value in one byte order. */
    method TryValue(at: nat, w: nat, v: int, e: Endian, eff: seq<bool>, ghost skip: Filter, ghost cand: Candidates,
                    ghost before: seq<Input>, ghost done: seq<Input>, ghost left: int) returns (bail: bool)
      requires IsWidth(w) && Filters(skip)
      requires Mid(at, w, before, done, left) && Effective(inBuf, eff, at, w) && ListsValues(cand, inBuf, eff, w, skip)
      modifies this, outBuf
      ensures bail ==> Abandoned(before, done + RunsOf(cand(at, v, e)))
      ensures !bail ==> Mid(at, w, before, done + RunsOf(cand(at, v, e)), left - 1)
    {
      assert About(at, v, e);
      var value := EncAs(v, w, e);
      var skipped := IsSkipped(at, value, e, skip);
      if (e == Little || value != EncAs(v, w, Little)) && !skipped {
        bail := RunWith(at, value, w, before, done, left);
      } else {
        bail := false;
        Skip(at, w, before, done, left);
        assert done + [] == done;
      }
    }

    /** The filters for a value at offset `at`. */
    method IsSkipped(at: nat, value: Input, e: Endian, ghost skip: Filter) returns (skipped: bool)
      requires IsWidth(|value|) && at + |value| <= |inBuf| && Filters(skip)
      ensures skipped == skip(inBuf[at..at + |value|], value, e)
    {
      assert AboutChange(inBuf[at..at + |value|], value, e);
      skipped := CheckTried(inBuf[at..at + |value|], value, e);
    }

    /** One value in both byte orders; single bytes are restored at once. */
    method TryBothOrders(at: nat, w: nat, v: int, eff: seq<bool>, ghost skip: Filter, ghost cand: Candidates,
                         ghost before: seq<Input>, ghost done: seq<Input>, ghost left: int) returns (bail: bool)
      requires IsWidth(w) && Filters(skip)
      requires Mid(at, w, before, done, left) && Effective(inBuf, eff, at, w) && ListsValues(cand, inBuf, eff, w, skip)
      modifies this, outBuf
      ensures bail ==> Abandoned(before, done + ValueRuns(cand, at, w, v))
      ensures !bail ==> Mid(at, w, before, done + ValueRuns(cand, at, w, v), left - Orders(w))
    {
      ValueRunsOrder(cand, at, w, v, done);
      bail := TryValue(at, w, v, Little, eff, skip, cand, before, done, left);
      ghost var little := done + RunsOf(cand(at, v, Little));
      if bail {
        GoesOn(before, little, done + ValueRuns(cand, at, w, v));
        return;
      }
      if w == 1 {
        Restore(at, inBuf[at..at + 1], before, little, left - 1);
      } else {
        bail := TryValue(at, w, v, Big, eff, skip, cand, before, little, left - 1);
      }
    }

    method NextValue(at: nat, w: nat, vals: seq<int>, k: nat, eff: seq<bool>, ghost skip: Filter,
                     ghost cand: Candidates,
                     ghost f: nat -> seq<Input>, ghost before: seq<Input>, ghost done: seq<Input>, ghost left: int)
      returns (bail: bool)
      requires IsWidth(w) && Filters(skip)
      requires k < |vals| && Effective(inBuf, eff, at, w) && ListsValues(cand, inBuf, eff, w, skip)
      requires IsFor(f, ValuesAt(cand, at, w, vals)) && Mid(at, w, before, done + Flat(f, k), AfterValues(left, k, w))
      modifies this, outBuf
      ensures bail ==> Abandoned(before, done + Flat(f, |vals|))
      ensures !bail ==> Mid(at, w, before, done + Flat(f, k + 1), AfterValues(left, k + 1, w))
    {
      assert AboutOffset(k);
      OneMore(f, k, done);
      bail := TryBothOrders(at, w, vals[k], eff, skip, cand, before, done + Flat(f, k), AfterValues(left, k, w));
      if bail {
        FlatGrows(f, k + 1, |vals|, done);
        GoesOn(before, done + Flat(f, k + 1), done + Flat(f, |vals|));
      }
    }

    /** All values at one offset; afterwards the input is back in place. */
    method TryValues(at: nat, w: nat, vals: seq<int>, eff: seq<bool>, ghost skip: Filter, ghost cand: Candidates,
                     ghost f: nat -> seq<Input>, ghost before: seq<Input>, ghost done: seq<Input>, ghost left: int)
      returns (bail: bool)
      requires IsWidth(w) && Filters(skip)
      requires Clean() && Mid(at, w, before, done, left) && IsFor(f, ValuesAt(cand, at, w, vals))
      requires Effective(inBuf, eff, at, w) && ListsValues(cand, inBuf, eff, w, skip)
      modifies this, outBuf
      ensures bail ==> Abandoned(before, done + Flat(f, |vals|))
      ensures !bail ==> Clean() && Mid(at, w, before, done + Flat(f, |vals|), AfterValues(left, |vals|, w))
    {
      bail := false;
      var orig := outBuf[at..at + w];
      assert done + Flat(f, 0) == done;
      for k := 0 to |vals|
        invariant Mid(at, w, before, done + Flat(f, k), AfterValues(left, k, w))
      {
        bail := NextValue(at, w, vals, k, eff, skip, cand, f, before, done, left);
        if bail {
          return;
        }
      }
      Restore(at, orig, before, done + Flat(f, |vals|), AfterValues(left, |vals|, w));
    }

    /** One offset of the interesting-value stage. */
    method ValueOffset(i: nat, w: nat, vals: seq<int>, eff: seq<bool>, ghost skip: Filter, ghost cand: Candidates,
                       ghost f: nat -> seq<Input>, ghost before: seq<Input>, ghost done: seq<Input>, ghost left: int)
      returns (bail: bool)
      requires IsWidth(w) && Filters(skip)
      requires i + w <= |inBuf| && CoversInput(eff, |inBuf|) && Clean() && Mid(i, w, before, done, left)
      requires ListsValues(cand, inBuf, eff, w, skip) && IsFor(f, ValuesAt(cand, i, w, vals))
      modifies this, outBuf
      ensures bail ==> Abandoned(before, done + Flat(f, |vals|))
      ensures !bail ==> Clean() && Mid(i, w, before, done + Flat(f, |vals|), AfterValues(left, |vals|, w))
    {
      var touches := WindowTouches(eff, i, w);
      if !touches {
        bail := false;
        stageMax := stageMax - PerOffset(|vals|, Orders(w));
        NothingAt(cand, inBuf, eff, w, skip, i, vals, f);
        assert done + [] == done;
      } else {
        bail := TryValues(i, w, vals, eff, skip, cand, f, before, done, left);
      }
    }

    method NextValueOffset(i: nat, w: nat, vals: seq<int>, eff: seq<bool>, ghost skip: Filter, ghost cand: Candidates,
                           ghost f: nat -> seq<Input>, ghost before: seq<Input>, ghost left: int) returns (bail: bool)
      requires IsWidth(w) && Filters(skip)
      requires i + w <= |inBuf| && CoversInput(eff, |inBuf|) && Clean() && Mid(0, w, before, Flat(f, i), left)
      requires ListsValues(cand, inBuf, eff, w, skip) && IsFor(f, ValueOffsets(cand, w, vals))
      modifies this, outBuf
      ensures bail ==> Abandoned(before, Flat(f, |inBuf| - w + 1))
      ensures !bail ==> Clean() && Mid(0, w, before, Flat(f, i + 1), AfterValues(left, |vals|, w))
    {
      ghost var list := Flat(f, i);
      ghost var g := NextList(cand, w, vals, f, i);
      MoveOn(0, w, i, w, before, list, left);
      bail := ValueOffset(i, w, vals, eff, skip, cand, g, before, list, left);
      if bail {
        FlatGrows(f, i + 1, |inBuf| - w + 1, []);
        GoesOn(before, Flat(f, i + 1), Flat(f, |inBuf| - w + 1));
      } else {
        MoveOn(i, w, 0, w, before, Flat(f, i + 1), AfterValues(left, |vals|, w));
      }
    }

    method ValueLoop(w: nat, vals: seq<int>, eff: seq<bool>, ghost skip: Filter, ghost cand: Candidates,
                     ghost f: nat -> seq<Input>)
      returns (bail: bool)
      requires IsWidth(w) && Filters(skip)
      requires w <= |inBuf| && Clean() && CoversInput(eff, |inBuf|) && ListsValues(cand, inBuf, eff, w, skip)
      requires IsFor(f, ValueOffsets(cand, w, vals))
      requires stageCur == 0 && stageMax == Budget(|inBuf| - w + 1, PerOffset(|vals|, Orders(w)))
      modifies this, outBuf
      ensures bail ==> Abandoned(old(runs), Flat(f, |inBuf| - w + 1))
      ensures !bail ==> Finished(old(runs), Flat(f, |inBuf| - w + 1))
    {
      var n := |inBuf| - w + 1;
      ghost var before := runs;
      bail := false;
      for i := 0 to n
        invariant Clean() && Mid(0, w, before, Flat(f, i), Budget(n - i, PerOffset(|vals|, Orders(w))))
      {
        bail := NextValueOffset(i, w, vals, eff, skip, cand, f, before, Budget(n - i, PerOffset(|vals|, Orders(w))));
        if bail {
          return;
        }
      }
    }

    /** The interesting-value stage of width 1, 2 or 4. */
    method InterestStage(w: nat, vals: seq<int>, eff: seq<bool>) returns (bail: bool)
      requires IsWidth(w) && w <= |inBuf| && Clean() && CoversInput(eff, |inBuf|)
      modifies this, outBuf
      ensures bail ==> Abandoned(old(runs), InterestRuns(inBuf, eff, w, vals, TriedFilter()))
      ensures !bail ==> Finished(old(runs), InterestRuns(inBuf, eff, w, vals, TriedFilter()))
    {
      bail := ListedValues(w, vals, eff, TriedFilter(), InterestRuns(inBuf, eff, w, vals, TriedFilter()));
    }

    method ListedValues(w: nat, vals: seq<int>, eff: seq<bool>, ghost skip: Filter, ghost list: seq<Input>)
      returns (bail: bool)
      requires IsWidth(w) && w <= |inBuf| && Clean() && CoversInput(eff, |inBuf|) && Filters(skip)
      requires IsValueList(list, inBuf, eff, w, vals, skip)
      modifies this, outBuf
      ensures bail ==> Abandoned(old(runs), list)
      ensures !bail ==> Finished(old(runs), list)
    {
      var planned := Planned(|inBuf| - w + 1, PerOffset(|vals|, Orders(w)));
      stageCur, stageMax := 0, planned;
      ghost var cand, f := ListValues(inBuf, eff, w, vals, skip, list);
      bail := ValueLoop(w, vals, eff, skip, cand, f);
    }

    // ----- flips -----

    /** `FLIP_BIT` on `k` neighbouring bits of `out_buf`. */
    method FlipBits(s: nat, k: nat)
      requires s + k <= 8 * outBuf.Length
      modifies outBuf
      ensures outBuf[..] == FlipRun(old(outBuf[..]), s, k)
    {
      ghost var before := outBuf[..];
      for i := 0 to k
        invariant outBuf[..] == FlipRun(before, s, i)
      {
        FlipNext(before, s, i);
      }
    }

    method FlipNext(ghost before: Input, s: nat, i: nat)
      requires s + i < 8 * outBuf.Length == 8 * |before| && outBuf[..] == FlipRun(before, s, i)
      modifies outBuf
      ensures outBuf[..] == FlipRun(before, s, i + 1)
    {
      FlipOne(s + i);
      FlipRunNext(before, s, i);
    }

    method FlipOne(b: nat)
      requires b < 8 * outBuf.Length
      modifies outBuf
      ensures outBuf[..] == FlipAt(old(outBuf[..]), b)
    {
      outBuf[b / 8] := FlipBit(outBuf[b / 8], b % 8);
    }

    /** One position of a walk: flip, run, flip back. */
    method WalkStep(s: nat, k: nat) returns (bail: bool)
      requires Clean() && s + k <= 8 * |inBuf|
      modifies this`runs, outBuf
      ensures runs == old(runs) + [FlipRun(inBuf, s, k)] && bail == stops(|old(runs)|) && (!bail ==> Clean())
    {
      FlipBits(s, k);
      bail := Run();
      if !bail {
        FlipBits(s, k);
        FlipRunTwice(inBuf, s, k);
      }
    }

    method WalkLoop(k: nat, ghost g: nat -> Input) returns (bail: bool)
      requires Clean() && k <= 8 * |inBuf| && stageCur == 0 && stageMax == 8 * |inBuf| - k + 1
      requires forall s: nat {:trigger AboutOffset(s)} :: s + k <= 8 * |inBuf| ==> g(s) == FlipRun(inBuf, s, k)
      modifies this, outBuf
      ensures bail ==> Abandoned(old(runs), Visited(g, 8 * |inBuf| - k + 1))
      ensures !bail ==> Finished(old(runs), Visited(g, 8 * |inBuf| - k + 1))
    {
      bail := false;
      ghost var before := runs;
      while stageCur < stageMax
        invariant 0 <= stageCur <= stageMax == 8 * |inBuf| - k + 1
        invariant Clean() && runs == before + Visited(g, stageCur) && NoneAsked(|before|, |runs|)
      {
        assert AboutOffset(stageCur);
        bail := WalkStep(stageCur, k);
        VisitNext(g, stageCur);
        if bail {
          VisitedGrows(g, stageCur + 1, stageMax);
          GoesOn(before, Visited(g, stageCur + 1), Visited(g, stageMax));
          return;
        }
        stageCur := stageCur + 1;
      }
    }

    /** The walking bit flips: 1, 2 or 4 bits at every position. */
    method WalkBits(k: nat) returns (bail: bool)
      requires Clean() && k <= 8 * |inBuf|
      modifies this, outBuf
      ensures bail ==> Abandoned(old(runs), Walk(inBuf, k))
      ensures !bail ==> Finished(old(runs), Walk(inBuf, k))
    {
      stageCur, stageMax := 0, 8 * |inBuf| - k + 1;
      bail := WalkLoop(k, FlipsAt(inBuf, k));
    }

    /** Invert the `w` bytes at `at`, run, and invert them back. */
    method InvertStep(at: nat, w: nat, ghost before: seq<Input>, ghost done: seq<Input>, ghost left: int)
      returns (bail: bool)
      requires Clean() && at + w <= |inBuf| && Mid(at, w, before, done, left)
      modifies this, outBuf
      ensures bail ==> Abandoned(before, done + [Inverted(inBuf, at, w)])
      ensures !bail ==> Clean() && Mid(at, w, before, done + [Inverted(inBuf, at, w)], left - 1)
    {
      bail := RunWith(at, Complement(outBuf[at..at + w]), w, before, done, left);
      if !bail {
        assert outBuf[at..at + w] == Complement(inBuf[at..at + w]);
        ComplementTwice(inBuf[at..at + w]);
        Restore(at, Complement(outBuf[at..at + w]), before, done + [Inverted(inBuf, at, w)], left - 1);
      }
    }

    /** The map before the first byte flip: only the first and the last block are marked. */
    method NewEffectorMap(ghost sum: Input -> int, ghost exec: int, ghost flagAll: bool)
      returns (eff: seq<bool>, effCnt: nat)
      requires inBuf != []
      ensures MarksAre(eff, inBuf, sum, exec, flagAll, 0) && effCnt == CountTrue(eff)
    {
      var last := (|inBuf| - 1) / EFF_BLOCK;
      eff, effCnt := seq(EffLen(|inBuf|), _ => false), 1;
      CountNone(|eff|);
      CountOneMore(eff, 0);
      eff := eff[0 := true];
      if last != 0 {
        CountOneMore(eff, last);
        eff := eff[last := true];
        effCnt := effCnt + 1;
      }
    }

    /** The walking byte flips. They run every byte inverted, and mark the blocks whose bytes have an effect: `marks` is
        the exact map, and `eff` is `marks`, or all blocks when nearly all are marked. */
    method WalkBytes(sum: Input -> int, exec: int, dumb: bool)
      returns (bail: bool, eff: seq<bool>, ghost marks: seq<bool>)
      requires Clean() && inBuf != []
      modifies this, outBuf
      ensures bail ==> Abandoned(old(runs), ByteRuns(inBuf, |inBuf|))
      ensures !bail ==> Finished(old(runs), ByteRuns(inBuf, |inBuf|))
      ensures !bail ==> MarksAre(marks, inBuf, sum, exec, dumb || |inBuf| < 128, |inBuf|)
      ensures !bail ==> eff == if IsDense(marks) then seq(|marks|, _ => true) else marks
    {
      var flagAll := dumb || |inBuf| < EFF_MIN_LEN;
      var effCnt;
      eff, effCnt := NewEffectorMap(sum, exec, flagAll);
      stageCur, stageMax := 0, |inBuf|;
      bail, marks := false, [];
      ghost var before := runs;
      for i := 0 to |inBuf|
        invariant Clean() && Mid(0, 1, before, ByteRuns(inBuf, i), |inBuf| - i)
        invariant MarksAre(eff, inBuf, sum, exec, flagAll, i) && effCnt == CountTrue(eff)
      {
        bail := InvertByte(i, before);
        if bail {
          return;
        }
        eff, effCnt := MarkByte(i, eff, effCnt, sum, exec, flagAll);
      }
      marks := eff;
      if effCnt != |eff| && effCnt * 100 / |eff| > EFF_MAX_PERC {
        eff := seq(|eff|, _ => true);
      }
    }

    method InvertByte(i: nat, ghost before: seq<Input>) returns (bail: bool)
      requires i < |inBuf| && Clean() && Mid(0, 1, before, ByteRuns(inBuf, i), |inBuf| - i)
      modifies this, outBuf
      ensures bail ==> Abandoned(before, ByteRuns(inBuf, |inBuf|))
      ensures !bail ==> Clean() && Mid(0, 1, before, ByteRuns(inBuf, i + 1), |inBuf| - i - 1)
    {
      MoveOn(0, 1, i, 1, before, ByteRuns(inBuf, i), |inBuf| - i);
      bail := InvertStep(i, 1, before, ByteRuns(inBuf, i), |inBuf| - i);
      if bail {
        GoesOn(before, ByteRuns(inBuf, i + 1), ByteRuns(inBuf, |inBuf|));
      } else {
        MoveOn(i, 1, 0, 1, before, ByteRuns(inBuf, i + 1), |inBuf| - i - 1);
      }
    }

    method MarkByte(i: nat, eff: seq<bool>, effCnt: nat, sum: Input -> int, exec: int, flagAll: bool)
      returns (eff': seq<bool>, effCnt': nat)
      requires i < |inBuf| && MarksAre(eff, inBuf, sum, exec, flagAll, i) && effCnt == CountTrue(eff)
      ensures MarksAre(eff', inBuf, sum, exec, flagAll, i + 1) && effCnt' == CountTrue(eff')
    {
      eff', effCnt' := eff, effCnt;
      MarkStep(eff, inBuf, sum, exec, flagAll, i);
      if !eff[i / EFF_BLOCK] {
        if flagAll || sum(Inverted(inBuf, i, 1)) != exec {
          CountOneMore(eff, i / EFF_BLOCK);
          eff', effCnt' := eff[i / EFF_BLOCK := true], effCnt + 1;
        }
      } else {
        assert eff[i / EFF_BLOCK := true] == eff;
      }
    }

    /** The walking flips of 2 or 4 bytes, at the offsets that the effector map selects. */
    method WalkWords(w: nat, eff: seq<bool>) returns (bail: bool)
      requires Clean() && 0 < w <= |inBuf| && CoversInput(eff, |inBuf|)
      modifies this, outBuf
      ensures bail ==> Abandoned(old(runs), InvertedRuns(inBuf, eff, w, |inBuf| - w + 1))
      ensures !bail ==> Finished(old(runs), InvertedRuns(inBuf, eff, w, |inBuf| - w + 1))
    {
      var n := |inBuf| - w + 1;
      stageCur, stageMax := 0, n;
      bail := false;
      ghost var before := runs;
      for i := 0 to n
        invariant Clean() && Mid(0, w, before, InvertedRuns(inBuf, eff, w, i), n - i)
      {
        bail := InvertNext(i, w, eff, before, n - i);
        if bail {
          InvertedGrow(inBuf, eff, w, i + 1, n);
          GoesOn(before, InvertedRuns(inBuf, eff, w, i + 1), InvertedRuns(inBuf, eff, w, n));
          return;
        }
      }
    }

    /** The next offset, if the effector map selects it. */
    method InvertNext(i: nat, w: nat, eff: seq<bool>, ghost before: seq<Input>, ghost left: int) returns (bail: bool)
      requires Clean() && 0 < w && i + w <= |inBuf| && CoversInput(eff, |inBuf|)
      requires Mid(0, w, before, InvertedRuns(inBuf, eff, w, i), left)
      modifies this, outBuf
      ensures bail ==> Abandoned(before, InvertedRuns(inBuf, eff, w, i + 1))
      ensures !bail ==> Clean() && Mid(0, w, before, InvertedRuns(inBuf, eff, w, i + 1), left - 1)
    {
      ghost var done := InvertedRuns(inBuf, eff, w, i);
      var touches := WindowTouches(eff, i, w);
      MoveOn(0, w, i, w, before, done, left);
      if !touches {
        bail := false;
        Skip(i, w, before, done, left);
        assert done + [] == done;
      } else {
        bail := InvertStep(i, w, before, done, left);
      }
      if !bail {
        MoveOn(i, w, 0, w, before, InvertedRuns(inBuf, eff, w, i + 1), left - 1);
      }
    }

    // ----- dictionary tokens -----

    /** One token at offset `i`, over a buffer where at most a shorter token has been written at the same place. */
    method TryToken(i: nat, token: Input, drop: bool, eff: seq<bool>, lastLen: nat,
                    ghost before: seq<Input>, ghost done: seq<Input>, ghost left: int)
      returns (bail: bool, lastLen': nat, ghost done': seq<Input>)
      requires i < |inBuf| && CoversInput(eff, |inBuf|) && lastLen <= |token|
      requires Mid(i, lastLen, before, done, left) && (Clean() || outBuf[..] in done)
      modifies this, outBuf
      ensures bail ==> Abandoned(before, done')
      ensures !bail ==> Mid(i, lastLen', before, done', left - 1) && (Clean() || outBuf[..] in done')
      ensures !bail ==> lastLen' <= |token|
      ensures done' == done || (CanTake(inBuf, eff, i, token) && done' == done + [Overwrite(inBuf, i, token)])
      ensures !drop && CanTake(inBuf, eff, i, token)
              ==> Overwrite(inBuf, i, token) in done' || Overwrite(inBuf, i, token) == inBuf
      ensures !drop ==> done' == done + TokenRun(eff, i, old(outBuf[..]), token)
      ensures !bail && !drop ==> outBuf[..] == TokenOut(eff, i, old(outBuf[..]), token)
    {
      bail, lastLen', done' := false, lastLen, done;
      assert done + [] == done;
      if drop || |token| > |inBuf| - i {
        Skip(i, lastLen, before, done, left);
        return;
      }
      OverwriteOver(inBuf, outBuf[..], i, lastLen, token);
      if outBuf[i..i + |token|] == token {
        OverwriteIsSameOutside(outBuf[..], outBuf[..], i, token);
        Skip(i, lastLen, before, done, left);
        return;
      }
      var touches := SpanTouches(eff, i, |token|);
      if !touches {
        Skip(i, lastLen, before, done, left);
      } else {
        bail := RunWith(i, token, lastLen, before, done, left);
        lastLen', done' := |token|, done + [Overwrite(inBuf, i, token)];
      }
    }

    /** All tokens at offset `i`, smallest first; afterwards the input is back in place. */
    method TryTokens(i: nat, tokens: seq<Input>, mayDrop: bool, eff: seq<bool>,
                     ghost before: seq<Input>, ghost done: seq<Input>, ghost left: int)
      returns (bail: bool, ghost done': seq<Input>)
      requires i < |inBuf| && CoversInput(eff, |inBuf|) && ByLength(tokens)
      requires Clean() && Mid(0, 0, before, done, left) && TokensTried(inBuf, eff, tokens, mayDrop, done, i, 0)
      modifies this, outBuf
      ensures bail ==> Abandoned(before, done') && TokensBegun(inBuf, eff, tokens, mayDrop, done')
      ensures !bail ==> Clean() && Mid(0, 0, before, done', left - |tokens|)
      ensures !bail ==> TokensTried(inBuf, eff, tokens, mayDrop, done', i + 1, 0)
    {
      var lastLen: nat := 0;
      bail, done' := false, done;
      MoveOn(0, 0, i, 0, before, done, left);
      for j := 0 to |tokens|
        invariant AtToken(i, j, tokens, mayDrop, eff, lastLen, before, done', left)
      {
        bail, lastLen, done' := NextToken(i, j, tokens, mayDrop, eff, lastLen, before, done', left);
        if bail {
          return;
        }
      }
      Restore(i, inBuf[i..i + lastLen], before, done', left - |tokens|);
      MoveOn(i, lastLen, 0, 0, before, done', left - |tokens|);
      NextTokenOffset(inBuf, eff, tokens, mayDrop, done', i);
    }

    /** Before token `j` at offset `i`: a token no longer than those to come may be in place. */
    ghost predicate AtToken(i: nat, j: nat, tokens: seq<Input>, mayDrop: bool, eff: seq<bool>, lastLen: nat,
                            before: seq<Input>, done: seq<Input>, left: int)
      reads this, outBuf
    {
      && j <= |tokens| && Mid(i, lastLen, before, done, left - j) && (Clean() || outBuf[..] in done)
      && (!mayDrop ==> outBuf[..] == OutAfter(eff, i, inBuf, tokens, j))
      && (forall k :: j <= k < |tokens| ==> lastLen <= |tokens[k]|)
      && TokensTried(inBuf, eff, tokens, mayDrop, done, i, j)
    }

    method NextToken(i: nat, j: nat, tokens: seq<Input>, mayDrop: bool, eff: seq<bool>, lastLen: nat,
                     ghost before: seq<Input>, ghost done: seq<Input>, ghost left: int)
      returns (bail: bool, lastLen': nat, ghost done': seq<Input>)
      requires i < |inBuf| && j < |tokens| && CoversInput(eff, |inBuf|) && ByLength(tokens)
      requires AtToken(i, j, tokens, mayDrop, eff, lastLen, before, done, left)
      modifies this, outBuf
      ensures bail ==> Abandoned(before, done') && TokensBegun(inBuf, eff, tokens, mayDrop, done')
      ensures !bail ==> AtToken(i, j + 1, tokens, mayDrop, eff, lastLen', before, done', left)
    {
      var drop := false;
      if mayDrop {
        drop := *;
      }
      bail, lastLen', done' := TryToken(i, tokens[j], drop, eff, lastLen, before, done, left - j);
      OneMoreToken(inBuf, eff, tokens, mayDrop, done, done', i, j);
      if bail {
        SoFarIsBegun(inBuf, eff, tokens, mayDrop, done', i, j + 1);
      }
    }

    /** The dictionary overwrite stages: every run is the input with one token at one offset and nothing else changed;
        and unless tokens are dropped at random, every token is tried wherever it fits, touches an effective block and
        makes a difference. */
    method OverwriteStage(tokens: seq<Input>, mayDrop: bool, eff: seq<bool>)
      returns (bail: bool, ghost done: seq<Input>)
      requires Clean() && CoversInput(eff, |inBuf|) && ByLength(tokens)
      modifies this, outBuf
      ensures bail ==> Abandoned(old(runs), done) && TokensBegun(inBuf, eff, tokens, mayDrop, done)
      ensures !bail ==> Finished(old(runs), done)
      ensures !bail ==> AreTokenRuns(inBuf, eff, tokens, mayDrop, done)
    {
      var planned := Planned(|inBuf|, |tokens|);
      stageCur, stageMax := 0, planned;
      ghost var before := runs;
      bail, done := false, [];
      NoTokensTried(inBuf, eff, tokens, mayDrop);
      for i := 0 to |inBuf|
        invariant Clean() && Mid(0, 0, before, done, Budget(|inBuf| - i, |tokens|))
        invariant TokensTried(inBuf, eff, tokens, mayDrop, done, i, 0)
      {
        bail, done := TryTokens(i, tokens, mayDrop, eff, before, done, Budget(|inBuf| - i, |tokens|));
        if bail {
          return;
        }
      }
      TokensAtEnd(inBuf, eff, tokens, mayDrop, done);
    }

    /** One token inserted at offset `i`, in the scratch buffer `exTmp` whose head is already that of the input. */
    method TryInsert(i: nat, token: Input, exTmp: array<Byte>, ghost before: seq<Input>, ghost done: seq<Input>,
                     ghost left: int)
      returns (bail: bool)
      requires exTmp != outBuf && i <= |inBuf| && Clean() && Mid(0, 0, before, done, left)
      requires |inBuf| + |token| <= exTmp.Length && exTmp[..i] == inBuf[..i]
      modifies this, exTmp
      ensures bail ==> Abandoned(before, done + InsertRuns(inBuf, i, token))
      ensures exTmp[..i] == inBuf[..i]
      ensures !bail ==> Clean() && Mid(0, 0, before, done + InsertRuns(inBuf, i, token), left - 1)
    {
      bail := false;
      if |inBuf| + |token| > MAX_FILE {
        Skip(0, 0, before, done, left);
        assert done + [] == done;
        return;
      }
      WriteInto(exTmp, i, token);
      WriteInto(exTmp, i + |token|, outBuf[i..]);
      InsertIsPieces(inBuf, exTmp[..], i, token);
      bail := RunOn(exTmp[..|inBuf| + |token|]);
      stageCur := stageCur + 1;
    }

    /** The dictionary insertion stage: every token that keeps the file within the limit, at every offset. */
    method InsertStage(tokens: seq<Input>) returns (bail: bool)
      requires Clean() && forall j :: 0 <= j < |tokens| ==> |tokens[j]| <= MAX_DICT_FILE
      modifies this, outBuf
      ensures bail ==> Abandoned(old(runs), InsertsBefore(inBuf, tokens, |inBuf| + 1))
      ensures !bail ==> Finished(old(runs), InsertsBefore(inBuf, tokens, |inBuf| + 1))
    {
      var planned := Planned(|inBuf| + 1, |tokens|);
      stageCur, stageMax := 0, planned;
      ghost var before := runs;
      bail := false;
      var exTmp := new Byte[|inBuf| + MAX_DICT_FILE];
      for i: nat := 0 to |inBuf| + 1
        invariant exTmp != outBuf && fresh(exTmp) && (i <= |inBuf| ==> exTmp[..i] == inBuf[..i])
        invariant Clean() && Mid(0, 0, before, InsertsBefore(inBuf, tokens, i), Budget(|inBuf| + 1 - i, |tokens|))
      {
        bail := InsertOffset(i, tokens, exTmp, before);
        if bail {
          return;
        }
      }
    }

    /** Every token at offset `i`; then the head of the scratch buffer grows. */
    method InsertOffset(i: nat, tokens: seq<Input>, exTmp: array<Byte>, ghost before: seq<Input>) returns (bail: bool)
      requires exTmp != outBuf && i <= |inBuf| && exTmp.Length == |inBuf| + MAX_DICT_FILE && exTmp[..i] == inBuf[..i]
      requires forall j :: 0 <= j < |tokens| ==> |tokens[j]| <= MAX_DICT_FILE
      requires Clean() && Mid(0, 0, before, InsertsBefore(inBuf, tokens, i), Budget(|inBuf| + 1 - i, |tokens|))
      modifies this, exTmp
      ensures bail ==> Abandoned(before, InsertsBefore(inBuf, tokens, |inBuf| + 1))
      ensures !bail ==>
                && Clean() && Mid(0, 0, before, InsertsBefore(inBuf, tokens, i + 1), Budget(|inBuf| - i, |tokens|))
                && (i < |inBuf| ==> exTmp[..i + 1] == inBuf[..i + 1])
    {
      bail := InsertAll(i, tokens, exTmp, before, InsertsBefore(inBuf, tokens, i), Budget(|inBuf| + 1 - i, |tokens|));
      if bail {
        InsertsGrow(inBuf, tokens, i + 1);
        GoesOn(before, InsertsBefore(inBuf, tokens, i + 1), InsertsBefore(inBuf, tokens, |inBuf| + 1));
      } else if i < |inBuf| {
        ghost var head := exTmp[..i];
        exTmp[i] := outBuf[i];
        assert exTmp[..i + 1] == head + [inBuf[i]] == inBuf[..i + 1];
      }
    }

    method InsertAll(i: nat, tokens: seq<Input>, exTmp: array<Byte>, ghost before: seq<Input>, ghost done: seq<Input>,
                     ghost left: int)
      returns (bail: bool)
      requires exTmp != outBuf && i <= |inBuf| <= exTmp.Length && Clean() && Mid(0, 0, before, done, left)
      requires exTmp[..i] == inBuf[..i] && forall j :: 0 <= j < |tokens| ==> |inBuf| + |tokens[j]| <= exTmp.Length
      modifies this, exTmp
      ensures bail ==> Abandoned(before, done + InsertsAt(inBuf, i, tokens, |tokens|))
      ensures exTmp[..i] == inBuf[..i]
      ensures !bail ==> Clean() && Mid(0, 0, before, done + InsertsAt(inBuf, i, tokens, |tokens|), left - |tokens|)
    {
      bail := false;
      assert done + [] == done;
      for j: nat := 0 to |tokens|
        invariant exTmp[..i] == inBuf[..i]
        invariant Clean() && Mid(0, 0, before, done + InsertsAt(inBuf, i, tokens, j), left - j)
      {
        bail := TryInsert(i, tokens[j], exTmp, before, done + InsertsAt(inBuf, i, tokens, j), left - j);
        assert done + InsertsAt(inBuf, i, tokens, j + 1)
               == done + InsertsAt(inBuf, i, tokens, j) + InsertRuns(inBuf, i, tokens[j]);
        if bail {
          InsertsAtGrow(inBuf, i, tokens, j + 1, done);
          GoesOn(before, done + InsertsAt(inBuf, i, tokens, j + 1), done + InsertsAt(inBuf, i, tokens, |tokens|));
          return;
        }
      }
    }

    // ----- the whole pass -----

    /** Stages that ran to their ends since `before`: the input is back in place, the runs made are `done`, and
        `cycles`, the sum of their `stage_max`, is the number of these runs. */
    ghost predicate Passed(before: seq<Input>, done: seq<Input>, cycles: int)
      reads this, outBuf
    {
      Clean() && runs == before + done && NoneAsked(|before|, |runs|) && cycles == |done|
    }

    method WalkAndCount(k: nat, ghost before: seq<Input>, ghost done: seq<Input>, cycles: int)
      returns (bail: bool, cycles': int)
      requires Passed(before, done, cycles) && k <= 8 * |inBuf|
      modifies this, outBuf
      ensures bail ==> Abandoned(before, done + Walk(inBuf, k))
      ensures !bail ==> Passed(before, done + Walk(inBuf, k), cycles')
    {
      ghost var walk := Walk(inBuf, k);
      bail := WalkBits(k);
      if bail {
        AfterOthers(before, done, walk);
      }
      Chain(before, done, walk);
      cycles' := cycles + stageMax;
    }

    method WalkWordsAndCount(w: nat, eff: seq<bool>, ghost before: seq<Input>, ghost done: seq<Input>, cycles: int)
      returns (bail: bool, cycles': int)
      requires Passed(before, done, cycles) && 0 < w && CoversInput(eff, |inBuf|)
      modifies this, outBuf
      ensures bail ==> Abandoned(before, done + WordRuns(inBuf, eff, w))
      ensures !bail ==> Passed(before, done + WordRuns(inBuf, eff, w), cycles')
    {
      ghost var list := WordRuns(inBuf, eff, w);
      bail, cycles' := false, cycles;
      if |inBuf| >= w {
        bail := WalkWords(w, eff);
        cycles' := cycles + stageMax;
      }
      if bail {
        AfterOthers(before, done, list);
      }
      Chain(before, done, list);
    }

    method WalkBytesAndCount(sum: Input -> int, exec: int, dumb: bool, ghost before: seq<Input>, ghost done: seq<Input>,
                             cycles: int)
      returns (bail: bool, cycles': int, eff: seq<bool>, ghost marks: seq<bool>)
      requires Passed(before, done, cycles) && inBuf != []
      modifies this, outBuf
      ensures bail ==> Abandoned(before, done + ByteRuns(inBuf, |inBuf|))
      ensures !bail ==> Passed(before, done + ByteRuns(inBuf, |inBuf|), cycles')
      ensures !bail ==> IsEffectorMap(eff, marks, inBuf, sum, exec, dumb)
    {
      ghost var list := ByteRuns(inBuf, |inBuf|);
      bail, eff, marks := WalkBytes(sum, exec, dumb);
      if bail {
        AfterOthers(before, done, list);
      }
      Chain(before, done, list);
      cycles' := cycles + stageMax;
    }

    /** The bit and byte flips, which also give the effector map. */
    method FlipStages(sum: Input -> int, exec: int, dumb: bool)
      returns (bail: bool, cycles: int, eff: seq<bool>, ghost marks: seq<bool>)
      requires Clean() && inBuf != []
      modifies this, outBuf
      ensures bail ==> Abandoned(old(runs), FlipRuns(inBuf, eff))
      ensures !bail ==> IsEffectorMap(eff, marks, inBuf, sum, exec, dumb)
      ensures !bail ==> Passed(old(runs), FlipRuns(inBuf, eff), cycles)
    {
      ghost var before := runs;
      eff, marks := [], [];
      assert before + [] == before;
      ghost var done := [];
      bail, cycles := WalkAndCount(1, before, done, 0);
      done := done + Walk(inBuf, 1);
      if bail {
        FlipsGoOn(before, done, eff);
        return;
      }
      bail, cycles := WalkAndCount(2, before, done, cycles);
      done := done + Walk(inBuf, 2);
      if bail {
        FlipsGoOn(before, done, eff);
        return;
      }
      bail, cycles := WalkAndCount(4, before, done, cycles);
      done := done + Walk(inBuf, 4);
      if bail {
        FlipsGoOn(before, done, eff);
        return;
      }
      bail, cycles, eff, marks := WalkBytesAndCount(sum, exec, dumb, before, done, cycles);
      done := done + ByteRuns(inBuf, |inBuf|);
      if bail {
        FlipsGoOn(before, done, eff);
        return;
      }
      bail, cycles := WalkWordsAndCount(2, eff, before, done, cycles);
      done := done + WordRuns(inBuf, eff, 2);
      if bail {
        FlipsGoOn(before, done, eff);
        return;
      }
      bail, cycles := WalkWordsAndCount(4, eff, before, done, cycles);
    }

    /** A pass abandoned in one of the flip stages. */
    lemma FlipsGoOn(before: seq<Input>, done: seq<Input>, eff: seq<bool>)
      requires inBuf != [] && Abandoned(before, done)
      requires var bits := [] + Walk(inBuf, 1) + Walk(inBuf, 2) + Walk(inBuf, 4);
               || done == [] + Walk(inBuf, 1) || done == [] + Walk(inBuf, 1) + Walk(inBuf, 2)
               || done == bits || done == bits + ByteRuns(inBuf, |inBuf|)
               || done == bits + ByteRuns(inBuf, |inBuf|) + WordRuns(inBuf, eff, 2)
      ensures Abandoned(before, FlipRuns(inBuf, eff))
    {
      FirstFlips(inBuf, eff);
      GoesOn(before, done, FlipRuns(inBuf, eff));
    }

    method ArithAndCount(w: nat, max: nat, eff: seq<bool>, ghost before: seq<Input>, ghost done: seq<Input>,
                         cycles: int)
      returns (bail: bool, cycles': int)
      requires Passed(before, done, cycles) && IsWidth(w) && CoversInput(eff, |inBuf|)
      modifies this, outBuf
      ensures bail ==> Abandoned(before, done + StepsOf(inBuf, eff, w, max))
      ensures !bail ==> Passed(before, done + StepsOf(inBuf, eff, w, max), cycles')
    {
      ghost var list := StepsOf(inBuf, eff, w, max);
      bail, cycles' := false, cycles;
      if |inBuf| >= w {
        bail := ArithStage(w, max, eff);
        cycles' := cycles + stageMax;
      }
      if bail {
        AfterOthers(before, done, list);
      }
      Chain(before, done, list);
    }

    /** The arithmetic stages; `max` is `ARITH_MAX`. */
    method ArithStages(max: nat, eff: seq<bool>, ghost before: seq<Input>, ghost done: seq<Input>, cycles0: int)
      returns (bail: bool, cycles: int)
      requires Passed(before, done, cycles0) && CoversInput(eff, |inBuf|)
      modifies this, outBuf
      ensures bail ==> Abandoned(before, done + AllSteps(inBuf, eff, max))
      ensures !bail ==> Passed(before, done + AllSteps(inBuf, eff, max), cycles)
    {
      ghost var a, b, c := StepsOf(inBuf, eff, 1, max), StepsOf(inBuf, eff, 2, max), StepsOf(inBuf, eff, 4, max);
      Chain3(done, a, b, c);
      bail, cycles := ArithAndCount(1, max, eff, before, done, cycles0);
      if bail {
        GoesOn(before, done + a, done + AllSteps(inBuf, eff, max));
        return;
      }
      bail, cycles := ArithAndCount(2, max, eff, before, done + a, cycles);
      if bail {
        GoesOn(before, done + a + b, done + AllSteps(inBuf, eff, max));
        return;
      }
      bail, cycles := ArithAndCount(4, max, eff, before, done + a + b, cycles);
    }

    method InterestAndCount(w: nat, noArith: bool, eff: seq<bool>, ghost before: seq<Input>, ghost done: seq<Input>,
                            cycles: int)
      returns (bail: bool, cycles': int)
      requires Passed(before, done, cycles) && IsWidth(w) && CoversInput(eff, |inBuf|)
      modifies this, outBuf
      ensures bail ==> Abandoned(before, done + ValuesOf(inBuf, eff, w, noArith))
      ensures !bail ==> Passed(before, done + ValuesOf(inBuf, eff, w, noArith), cycles')
    {
      ghost var list := ValuesOf(inBuf, eff, w, noArith);
      bail, cycles' := false, cycles;
      if |inBuf| >= w && (w == 1 || !noArith) {
        bail := InterestStage(w, InterestingOf(w), eff);
        cycles' := cycles + stageMax;
      }
      if bail {
        AfterOthers(before, done, list);
      }
      Chain(before, done, list);
    }

    method InterestStages(noArith: bool, eff: seq<bool>, ghost before: seq<Input>, ghost done: seq<Input>, cycles0: int)
      returns (bail: bool, cycles: int)
      requires Passed(before, done, cycles0) && CoversInput(eff, |inBuf|)
      modifies this, outBuf
      ensures bail ==> Abandoned(before, done + AllValues(inBuf, eff, noArith))
      ensures !bail ==> Passed(before, done + AllValues(inBuf, eff, noArith), cycles)
    {
      ghost var a, b := ValuesOf(inBuf, eff, 1, noArith), ValuesOf(inBuf, eff, 2, noArith);
      Chain3(done, a, b, ValuesOf(inBuf, eff, 4, noArith));
      bail, cycles := InterestAndCount(1, noArith, eff, before, done, cycles0);
      if bail {
        GoesOn(before, done + a, done + AllValues(inBuf, eff, noArith));
        return;
      }
      bail, cycles := InterestAndCount(2, noArith, eff, before, done + a, cycles);
      if bail {
        GoesOn(before, done + a + b, done + AllValues(inBuf, eff, noArith));
        return;
      }
      bail, cycles := InterestAndCount(4, noArith, eff, before, done + a + b, cycles);
    }

    method OverwriteAndCount(tokens: seq<Input>, mayDrop: bool, eff: seq<bool>,
                             ghost before: seq<Input>, ghost done: seq<Input>, cycles: int)
      returns (bail: bool, cycles': int, ghost over: seq<Input>)
      requires Passed(before, done, cycles) && CoversInput(eff, |inBuf|) && ByLength(tokens)
      modifies this, outBuf
      ensures bail ==> Abandoned(before, done + over) && TokensBegun(inBuf, eff, tokens, mayDrop, over)
      ensures !bail ==> Passed(before, done + over, cycles') && AreTokenRuns(inBuf, eff, tokens, mayDrop, over)
    {
      bail, cycles', over := false, cycles, [];
      NoTokensNoRuns(inBuf, eff, tokens, mayDrop);
      if tokens != [] {
        bail, over := OverwriteStage(tokens, mayDrop, eff);
        cycles' := cycles + stageMax;
      }
      if bail {
        AfterOthers(before, done, over);
      }
      Chain(before, done, over);
    }

    method InsertAndCount(tokens: seq<Input>, ghost before: seq<Input>, ghost done: seq<Input>, cycles: int)
      returns (bail: bool, cycles': int)
      requires Passed(before, done, cycles) && forall j :: 0 <= j < |tokens| ==> |tokens[j]| <= MAX_DICT_FILE
      modifies this, outBuf
      ensures bail ==> Abandoned(before, done + InsertsOf(inBuf, tokens))
      ensures !bail ==> Passed(before, done + InsertsOf(inBuf, tokens), cycles')
    {
      ghost var list := InsertsOf(inBuf, tokens);
      bail, cycles' := false, cycles;
      if tokens != [] {
        bail := InsertStage(tokens);
        cycles' := cycles + stageMax;
      }
      if bail {
        AfterOthers(before, done, list);
      }
      Chain(before, done, list);
    }

    /** The dictionary stages; `over` and `autoOver` are the runs of the two overwrite stages. */
    method TokenStages(extras: seq<Input>, autoExtras: seq<Input>, eff: seq<bool>,
                       ghost before: seq<Input>, ghost done0: seq<Input>, cycles0: int)
      returns (bail: bool, cycles: int, ghost over: seq<Input>, ghost autoOver: seq<Input>)
      requires Passed(before, done0, cycles0) && CoversInput(eff, |inBuf|) && ByLength(extras) && ByLength(autoExtras)
      requires forall j :: 0 <= j < |extras| ==> |extras[j]| <= MAX_DICT_FILE
      modifies this, outBuf
      ensures bail ==> Abandoned(before, done0 + AllTokens(inBuf, extras, over, autoOver))
      ensures bail ==> TokensBegun(inBuf, eff, extras, |extras| > 200, over)
      ensures bail ==> TokensBegun(inBuf, eff, autoExtras, false, autoOver)
      ensures !bail ==> Passed(before, done0 + AllTokens(inBuf, extras, over, autoOver), cycles)
      ensures !bail ==> AreTokenRuns(inBuf, eff, extras, |extras| > 200, over)
      ensures !bail ==> AreTokenRuns(inBuf, eff, autoExtras, false, autoOver)
    {
      autoOver := [];
      ghost var inserts := InsertsOf(inBuf, extras);
      bail, cycles, over := OverwriteAndCount(extras, |extras| > MAX_DET_EXTRAS, eff, before, done0, cycles0);
      Chain3(done0, over, inserts, []);
      if bail {
        GoesOn(before, done0 + over, done0 + (over + inserts + []));
        return;
      }
      BegunAtEnd(inBuf, eff, extras, |extras| > 200, over);
      bail, cycles := InsertAndCount(extras, before, done0 + over, cycles);
      if bail {
        GoesOn(before, done0 + over + inserts, done0 + (over + inserts + []));
        return;
      }
      bail, cycles, autoOver := OverwriteAndCount(autoExtras, false, eff, before, done0 + over + inserts, cycles);
      Chain3(done0, over, inserts, autoOver);
    }

    /** The stages without tokens. */
    method PlainStages(sum: Input -> int, exec: int, dumb: bool, noArith: bool, max: nat)
      returns (bail: bool, cycles: int, eff: seq<bool>, ghost marks: seq<bool>)
      requires Clean() && inBuf != []
      modifies this, outBuf
      ensures bail ==> Abandoned(old(runs), PlainRuns(inBuf, eff, noArith, max))
      ensures !bail ==> IsEffectorMap(eff, marks, inBuf, sum, exec, dumb)
      ensures !bail ==> Passed(old(runs), PlainRuns(inBuf, eff, noArith, max), cycles)
    {
      ghost var before := runs;
      bail, cycles, eff, marks := FlipStages(sum, exec, dumb);
      ghost var done := FlipRuns(inBuf, eff);
      FirstOfThree(done, AllSteps(inBuf, eff, max), AllValues(inBuf, eff, noArith), []);
      FirstOfThree(done, AllValues(inBuf, eff, noArith), [], []);
      if bail {
        GoesOn(before, done, PlainRuns(inBuf, eff, noArith, max));
        return;
      }
      if !noArith {
        bail, cycles := ArithStages(max, eff, before, done, cycles);
        done := done + AllSteps(inBuf, eff, max);
        if bail {
          GoesOn(before, done, PlainRuns(inBuf, eff, noArith, max));
          return;
        }
      }
      bail, cycles := InterestStages(noArith, eff, before, done, cycles);
    }

    /** All deterministic stages. A pass is abandoned exactly if a run asked for it. Otherwise it leaves `out_buf` equal
        to `in_buf`; the effector map is the one that the byte flips show; the runs made are exactly those of the
        stages, in order, and as many as the stages count; and every arithmetic step by up to `max`, which is
        `ARITH_MAX`, on effective bytes has been run, except exactly the steps by 32 that carry or borrow one bit, which
        no stage without tokens runs. */
    method Deterministic(sum: Input -> int, exec: int, dumb: bool, noArith: bool, max: nat,
                         extras: seq<Input>, autoExtras: seq<Input>)
      returns (bail: bool, cycles: int, eff: seq<bool>,
               ghost marks: seq<bool>, ghost over: seq<Input>, ghost autoOver: seq<Input>)
      requires Clean() && inBuf != [] && ByLength(extras) && ByLength(autoExtras)
      requires forall j :: 0 <= j < |extras| ==> |extras[j]| <= MAX_DICT_FILE
      modifies this, outBuf
      ensures bail ==> Abandoned(old(runs), PassRuns(inBuf, eff, noArith, max, extras, over, autoOver))
      ensures bail ==> TokensBegun(inBuf, eff, extras, |extras| > 200, over)
      ensures bail ==> TokensBegun(inBuf, eff, autoExtras, false, autoOver)
      ensures !bail ==> IsEffectorMap(eff, marks, inBuf, sum, exec, dumb)
      ensures !bail ==> AreTokenRuns(inBuf, eff, extras, |extras| > 200, over)
      ensures !bail ==> AreTokenRuns(inBuf, eff, autoExtras, false, autoOver)
      ensures !bail ==> Passed(old(runs), PassRuns(inBuf, eff, noArith, max, extras, over, autoOver), cycles)
      ensures !bail && !noArith && max <= 35 ==> AllStepsSettled(inBuf, eff, max, runs)
    {
      ghost var before := runs;
      over, autoOver := [], [];
      bail, cycles, eff, marks := PlainStages(sum, exec, dumb, noArith, max);
      ghost var done := PlainRuns(inBuf, eff, noArith, max);
      if bail {
        PlainRunsFirst(inBuf, eff, noArith, max, extras);
        GoesOn(before, done, PassRuns(inBuf, eff, noArith, max, extras, [], []));
        return;
      }
      bail, cycles, over, autoOver := TokenStages(extras, autoExtras, eff, before, done, cycles);
      if !bail && !noArith && max <= 35 {
        PassSettles(inBuf, eff, max, extras, over, autoOver, before);
      }
    }
  }

  // ----- the runs of a whole pass -----

  lemma Chain(before: seq<Input>, done: seq<Input>, list: seq<Input>)
    ensures before + done + list == before + (done + list)
  {
  }

  /** `marks` are the blocks that the byte flips show to be effective, and `eff` is `marks`, or all blocks when nearly
      all are marked. */
  ghost predicate IsEffectorMap(eff: seq<bool>, marks: seq<bool>, buf: Input, sum: Input -> int, exec: int,
                                dumb: bool) {
    && MarksAre(marks, buf, sum, exec, dumb || |buf| < 128, |buf|) && CoversInput(eff, |buf|)
    && eff == if IsDense(marks) then seq(|marks|, _ => true) else marks
  }

  ghost function FlipRuns(buf: Input, eff: seq<bool>): seq<Input>
    requires buf != []
  {
    [] + Walk(buf, 1) + Walk(buf, 2) + Walk(buf, 4) + ByteRuns(buf, |buf|)
    + WordRuns(buf, eff, 2) + WordRuns(buf, eff, 4)
  }

  lemma FirstOfThree(a: seq<Input>, b: seq<Input>, c: seq<Input>, d: seq<Input>)
    ensures a <= a + b && a <= a + b + c && a <= a + b + c + d
  {
  }

  /** The flip stages run one after the other. */
  lemma {:induction false} FirstFlips(buf: Input, eff: seq<bool>)
    requires buf != []
    ensures var bits := [] + Walk(buf, 1) + Walk(buf, 2) + Walk(buf, 4);
            && [] + Walk(buf, 1) <= FlipRuns(buf, eff) && [] + Walk(buf, 1) + Walk(buf, 2) <= FlipRuns(buf, eff)
            && bits <= FlipRuns(buf, eff) && bits + ByteRuns(buf, |buf|) <= FlipRuns(buf, eff)
            && bits + ByteRuns(buf, |buf|) + WordRuns(buf, eff, 2) <= FlipRuns(buf, eff)
  {
    var one := [] + Walk(buf, 1);
    var bits := one + Walk(buf, 2) + Walk(buf, 4);
    FirstOfThree(bits, ByteRuns(buf, |buf|), WordRuns(buf, eff, 2), WordRuns(buf, eff, 4));
    FirstOfThree(bits + ByteRuns(buf, |buf|), WordRuns(buf, eff, 2), WordRuns(buf, eff, 4), []);
    FirstOfThree(one, Walk(buf, 2), Walk(buf, 4), []);
    FirstOfThree(one + Walk(buf, 2), Walk(buf, 4), [], []);
  }

  /** What the stages run that need at least `w` bytes. */
  ghost function WordRuns(buf: Input, eff: seq<bool>, w: nat): seq<Input> {
    if w <= |buf| then InvertedRuns(buf, eff, w, |buf| - w + 1) else []
  }

  ghost function StepsOf(buf: Input, eff: seq<bool>, w: nat, max: nat): seq<Input> {
    if w <= |buf| then StageRuns(buf, eff, w, max) else []
  }

  lemma Chain3(done: seq<Input>, a: seq<Input>, b: seq<Input>, c: seq<Input>)
    ensures done + a + b + c == done + (a + b + c)
  {
  }

  ghost function AllSteps(buf: Input, eff: seq<bool>, max: nat): seq<Input> {
    StepsOf(buf, eff, 1, max) + StepsOf(buf, eff, 2, max) + StepsOf(buf, eff, 4, max)
  }

  /** Without arithmetics only single bytes are set to interesting values. */
  ghost function ValuesOf(buf: Input, eff: seq<bool>, w: nat, noArith: bool): seq<Input> {
    if w <= |buf| && (w == 1 || !noArith) then InterestRuns(buf, eff, w, InterestingOf(w), TriedFilter()) else []
  }

  ghost function AllValues(buf: Input, eff: seq<bool>, noArith: bool): seq<Input> {
    ValuesOf(buf, eff, 1, noArith) + ValuesOf(buf, eff, 2, noArith) + ValuesOf(buf, eff, 4, noArith)
  }

  ghost function AllTokens(buf: Input, extras: seq<Input>, over: seq<Input>, autoOver: seq<Input>): seq<Input> {
    over + InsertsOf(buf, extras) + autoOver
  }

  ghost function InsertsOf(buf: Input, tokens: seq<Input>): seq<Input> {
    if tokens == [] then [] else InsertsBefore(buf, tokens, |buf| + 1)
  }

  /** What the stages without tokens run. */
  ghost function PlainRuns(buf: Input, eff: seq<bool>, noArith: bool, max: nat): seq<Input>
    requires buf != []
  {
    (if noArith then FlipRuns(buf, eff) else FlipRuns(buf, eff) + AllSteps(buf, eff, max))
      + AllValues(buf, eff, noArith)
  }

  /** Everything that a pass runs, in order; `over` and `autoOver` are the runs of the token overwrite stages. */
  ghost function PassRuns(buf: Input, eff: seq<bool>, noArith: bool, max: nat, extras: seq<Input>,
                          over: seq<Input>, autoOver: seq<Input>): seq<Input>
    requires buf != []
  {
    PlainRuns(buf, eff, noArith, max) + AllTokens(buf, extras, over, autoOver)
  }

  lemma PlainRunsFirst(buf: Input, eff: seq<bool>, noArith: bool, max: nat, extras: seq<Input>)
    requires buf != []
    ensures PlainRuns(buf, eff, noArith, max) <= PassRuns(buf, eff, noArith, max, extras, [], [])
  {
    FirstOfThree(PlainRuns(buf, eff, noArith, max), AllTokens(buf, extras, [], []), [], []);
  }

  /** What the overwrite stage runs: single tokens only; and unless tokens are dropped at random, exactly the list. */
  ghost predicate AreTokenRuns(buf: Input, eff: seq<bool>, tokens: seq<Input>, mayDrop: bool, over: seq<Input>) {
    && (forall r :: r in over ==> exists i, j :: IsTokenRun(buf, eff, tokens, i, j, r))
    && (!mayDrop ==> over == OverwriteRuns(buf, eff, tokens, |buf|))
    && (!mayDrop ==> forall i: nat, j: nat :: Tried(buf, eff, tokens, i, j, over))
  }

  lemma TokensAtEnd(buf: Input, eff: seq<bool>, tokens: seq<Input>, mayDrop: bool, over: seq<Input>)
    requires TokensTried(buf, eff, tokens, mayDrop, over, |buf|, 0)
    ensures AreTokenRuns(buf, eff, tokens, mayDrop, over)
  {
    assert AboutToken(0);
    if !mayDrop {
      assert OverwriteRuns(buf, eff, tokens, |buf|) + [] == OverwriteRuns(buf, eff, tokens, |buf|);
      forall i: nat, j: nat
        ensures Tried(buf, eff, tokens, i, j, over)
      {
        assert i < |buf| ==> Tried(buf, eff, tokens, i, j, over);
      }
    }
  }

  /** What an overwrite stage that was given up has run: single tokens only; and unless tokens are dropped at random,
      the first runs of the list. */
  ghost predicate TokensBegun(buf: Input, eff: seq<bool>, tokens: seq<Input>, mayDrop: bool, over: seq<Input>) {
    && (forall r :: r in over ==> exists i, j :: IsTokenRun(buf, eff, tokens, i, j, r))
    && (!mayDrop ==> over <= OverwriteRuns(buf, eff, tokens, |buf|))
  }

  lemma BegunAtEnd(buf: Input, eff: seq<bool>, tokens: seq<Input>, mayDrop: bool, over: seq<Input>)
    requires AreTokenRuns(buf, eff, tokens, mayDrop, over)
    ensures TokensBegun(buf, eff, tokens, mayDrop, over)
  {
  }

  lemma SoFarIsBegun(buf: Input, eff: seq<bool>, tokens: seq<Input>, mayDrop: bool, done: seq<Input>, i: nat, j: nat)
    requires TokensTried(buf, eff, tokens, mayDrop, done, i, j) && i < |buf| && j <= |tokens|
    ensures TokensBegun(buf, eff, tokens, mayDrop, done)
  {
    assert AboutToken(j);
    LoopRunsGrow(eff, i, buf, tokens, j);
    OverwritesGrow(buf, eff, tokens, i + 1, |buf|);
  }

  lemma {:induction false} LoopRunsGrow(eff: seq<bool>, i: nat, out: Input, tokens: seq<Input>, n: nat)
    requires n <= |tokens|
    ensures LoopRuns(eff, i, out, tokens, n) <= LoopRuns(eff, i, out, tokens, |tokens|)
    decreases |tokens| - n
  {
    if n < |tokens| {
      LoopRunsGrow(eff, i, out, tokens, n + 1);
    }
  }

  lemma {:induction false} OverwritesGrow(buf: Input, eff: seq<bool>, tokens: seq<Input>, a: nat, b: nat)
    requires a <= b
    ensures OverwriteRuns(buf, eff, tokens, a) <= OverwriteRuns(buf, eff, tokens, b)
    decreases b
  {
    if a < b {
      OverwritesGrow(buf, eff, tokens, a, b - 1);
    }
  }

  lemma NoTokensNoRuns(buf: Input, eff: seq<bool>, tokens: seq<Input>, mayDrop: bool)
    ensures tokens == [] ==> AreTokenRuns(buf, eff, tokens, mayDrop, [])
  {
    NothingToOverwrite(buf, eff, tokens, |buf|);
  }

  lemma {:induction false} NothingToOverwrite(buf: Input, eff: seq<bool>, tokens: seq<Input>, n: nat)
    ensures tokens == [] ==> OverwriteRuns(buf, eff, tokens, n) == []
  {
    if n > 0 {
      NothingToOverwrite(buf, eff, tokens, n - 1);
    }
  }

  /** The step was run; or it is one that carries or borrows one bit, and no stage without tokens runs it. */
  ghost predicate StepSettled(buf: Input, eff: seq<bool>, max: nat, runs: seq<Input>, at: nat, w: nat, delta: int,
                              e: Endian)
    requires buf != [] && at + w <= |buf|
  {
    var r := WideStep(buf, at, w, delta, e);
    if CarriesOneBit(buf, at, w, delta, e) then r !in PlainRuns(buf, eff, false, max) else r in runs
  }

  /** Every step of up to `max` on effective bytes, at any offset, width and byte order, is settled. */
  ghost predicate AllStepsSettled(buf: Input, eff: seq<bool>, max: nat, runs: seq<Input>)
    requires buf != []
  {
    forall at: nat, w: nat, delta, e ::
      IsWidth(w) && at + w <= |buf| && AllEffective(eff, at, w) && (1 <= delta <= max || 0 - max <= delta <= -1)
      ==> StepSettled(buf, eff, max, runs, at, w, delta, e)
  }

  /** The runs of a pass include the steps of every width. */
  lemma PassIncludesSteps(buf: Input, eff: seq<bool>, max: nat, extras: seq<Input>,
                      over: seq<Input>, autoOver: seq<Input>, before: seq<Input>, w: nat)
    requires buf != [] && IsWidth(w) && w <= |buf|
    ensures RanSteps(buf, eff, w, max, before + PassRuns(buf, eff, false, max, extras, over, autoOver))
  {
    assert StepsOf(buf, eff, w, max) == StageRuns(buf, eff, w, max);
    forall r | r in StageRuns(buf, eff, w, max)
      ensures r in PassRuns(buf, eff, false, max, extras, over, autoOver)
    {
      assert r in AllSteps(buf, eff, max);
    }
  }

  lemma PassIncludesFlips(buf: Input, eff: seq<bool>, max: nat, extras: seq<Input>,
                          over: seq<Input>, autoOver: seq<Input>, before: seq<Input>)
    requires buf != []
    ensures forall r :: r in FlipRuns(buf, eff) ==> r in before + PassRuns(buf, eff, false, max, extras, over, autoOver)
  {
  }

  /** A pass settles every step. */
  lemma PassSettles(buf: Input, eff: seq<bool>, max: nat, extras: seq<Input>,
                    over: seq<Input>, autoOver: seq<Input>, before: seq<Input>)
    requires buf != [] && max <= 35
    ensures AllStepsSettled(buf, eff, max, before + PassRuns(buf, eff, false, max, extras, over, autoOver))
  {
    var runs := before + PassRuns(buf, eff, false, max, extras, over, autoOver);
    forall w: nat | IsWidth(w) && w <= |buf|
      ensures RanSteps(buf, eff, w, max, runs)
    {
      PassIncludesSteps(buf, eff, max, extras, over, autoOver, before, w);
    }
    PassIncludesFlips(buf, eff, max, extras, over, autoOver, before);
    PassSettlesSteps(buf, eff, max, runs);
  }

  lemma PassSettlesSteps(buf: Input, eff: seq<bool>, max: nat, runs: seq<Input>)
    requires buf != [] && max <= 35
    requires forall v: nat :: IsWidth(v) && v <= |buf| ==> RanSteps(buf, eff, v, max, runs)
    requires forall r :: r in FlipRuns(buf, eff) ==> r in runs
    ensures AllStepsSettled(buf, eff, max, runs)
  {
    forall at: nat, w: nat, delta, e | IsWidth(w) && at + w <= |buf| && AllEffective(eff, at, w)
                                       && (1 <= delta <= max || 0 - max <= delta <= -1)
      ensures StepSettled(buf, eff, max, runs, at, w, delta, e)
    {
      PassCoversSteps(buf, eff, max, runs, at, w, delta, e);
    }
  }

  /** After a pass, every step by 1..35 on effective bytes, at any offset, width and byte order, was run, except for
      steps by 32 that carry or borrow one bit into the next byte: those look like flips of four bits, which the walk,
      counting bits from the top of each byte, never makes. */
  lemma PassCoversSteps(buf: Input, eff: seq<bool>, max: nat, runs: seq<Input>, at: nat, w: nat, delta: int, e: Endian)
    requires forall v: nat :: IsWidth(v) && v <= |buf| ==> RanSteps(buf, eff, v, max, runs)
    requires buf != [] && forall r :: r in FlipRuns(buf, eff) ==> r in runs
    requires IsWidth(w) && at + w <= |buf| && AllEffective(eff, at, w)
    requires max <= 35 && (1 <= delta <= max || 0 - max <= delta <= -1)
    ensures StepSettled(buf, eff, max, runs, at, w, delta, e)
  {
    var r := WideStep(buf, at, w, delta, e);
    CrossingIsOneCarry(buf, at, w, delta, e);
    if CarriesOneBit(buf, at, w, delta, e) {
      CrossingIsNotRun(buf, eff, max, r);
    } else {
      NoStepIsLost(buf, eff, at, w, max, delta, e);
      var v: nat :| v <= w && RunOrFlip(buf, eff, v, max, r);
      if r in StageRuns(buf, eff, v, max) {
        assert RanSteps(buf, eff, v, max, runs);
      } else {
        var at', delta', e' :| IsFlipLikeStep(buf, eff, r, at', v, delta', e');
        FlipLikeStepIsRun(buf, eff, r, at', v, delta', e');
      }
    }
  }

  // ----- which buffers the flip stages run -----

  /** The difference is all bits of the `w` bytes at `i`. */
  ghost predicate InvertsBytes(buf: Input, r: Input, i: nat, w: nat) {
    ChangesRun(buf, r, 8 * i, 8 * w)
  }

  /** The difference is 1, 2 or 4 neighbouring bits in the order of the walk, a byte, or a window of 2 or 4 bytes that
      touches an effective block. */
  ghost predicate IsFlipRun(buf: Input, eff: seq<bool>, r: Input) {
    || (exists s, n :: (n == 1 || n == 2 || n == 4) && ChangesRun(buf, r, s, n))
    || (exists i :: InvertsBytes(buf, r, i, 1))
    || (exists i: nat, w: nat ::
          && (w == 2 || w == 4) && InvertsBytes(buf, r, i, w)
          && exists k :: i <= k < i + w && k / 8 < |eff| && eff[k / 8])
  }

  lemma WalkIsExact(buf: Input, k: nat, r: Input)
    requires k <= 8 * |buf|
    ensures r in Walk(buf, k) <==> exists s :: ChangesRun(buf, r, s, k)
  {
    if r in Walk(buf, k) {
      var s :| 0 <= s < |Walk(buf, k)| && Walk(buf, k)[s] == r;
      WalkAt(buf, k, s);
      FlipRunChanges(buf, s, k);
    }
    if s :| ChangesRun(buf, r, s, k) {
      WalkAt(buf, k, s);
      FlipRunChanges(buf, s, k);
      SameChanges(buf, r, FlipRun(buf, s, k), s, k);
    }
  }

  lemma InvertedIsExact(buf: Input, i: nat, w: nat, r: Input)
    requires i + w <= |buf|
    ensures r == Inverted(buf, i, w) <==> InvertsBytes(buf, r, i, w)
  {
    InvertedChanges(buf, i, w);
    if InvertsBytes(buf, r, i, w) {
      SameChanges(buf, r, Inverted(buf, i, w), 8 * i, 8 * w);
    }
  }

  lemma {:induction false} ByteRunsAreExact(buf: Input, r: Input)
    ensures r in ByteRuns(buf, |buf|) <==> exists i :: InvertsBytes(buf, r, i, 1)
  {
    if r in ByteRuns(buf, |buf|) {
      var i :| 0 <= i < |buf| && ByteRuns(buf, |buf|)[i] == r;
      InvertedIsExact(buf, i, 1, r);
    }
    if i: nat :| InvertsBytes(buf, r, i, 1) {
      InvertedIsExact(buf, i, 1, r);
      assert ByteRuns(buf, |buf|)[i] == r;
    }
  }

  lemma WordRunsAreExact(buf: Input, eff: seq<bool>, w: nat, r: Input)
    requires w > 0
    ensures r in WordRuns(buf, eff, w) <==> exists i :: Effective(buf, eff, i, w) && InvertsBytes(buf, r, i, w)
  {
    if w <= |buf| {
      InvertedRunsAreExact(buf, eff, w, |buf| - w + 1, r);
    }
    forall i: nat | Effective(buf, eff, i, w)
      ensures r == Inverted(buf, i, w) <==> InvertsBytes(buf, r, i, w)
    {
      InvertedIsExact(buf, i, w, r);
    }
  }

  /** The flip stages run exactly those buffers. */
  lemma FlipRunsAreExact(buf: Input, eff: seq<bool>, r: Input)
    requires buf != []
    ensures r in FlipRuns(buf, eff) <==> IsFlipRun(buf, eff, r)
  {
    WalkIsExact(buf, 1, r);
    WalkIsExact(buf, 2, r);
    WalkIsExact(buf, 4, r);
    ByteRunsAreExact(buf, r);
    WordRunsAreExact(buf, eff, 2, r);
    WordRunsAreExact(buf, eff, 4, r);
  }

  lemma CrossingIsNoFlip(buf: Input, eff: seq<bool>, r: Input)
    requires buf != [] && CrossesByte(buf, r)
    ensures r !in FlipRuns(buf, eff)
  {
    FlipRunsAreExact(buf, eff, r);
    forall s: nat, n: nat
      ensures !ChangesRun(buf, r, s, n)
    {
      CrossingIsNoRun(buf, r, s, n);
    }
  }

  /** An arithmetic step that makes such a change looks like a flip, and is not run. */
  lemma CrossingIsNoRunOf(buf: Input, eff: seq<bool>, w: nat, max: nat, r: Input)
    requires w <= |buf| && CrossesByte(buf, r)
    ensures r !in StageRuns(buf, eff, w, max)
  {
    ArithRunsAreExact(buf, eff, w, max, r);
    if r in StageRuns(buf, eff, w, max) {
      var at, delta, e :| IsArithRun(buf, eff, w, max, r, at, delta, e);
      ArithRunIsNoCrossing(buf, eff, w, max, r, at, delta, e);
    }
  }

  lemma ArithRunIsNoCrossing(buf: Input, eff: seq<bool>, w: nat, max: nat, r: Input, at: nat, delta: int, e: Endian)
    requires IsArithRun(buf, eff, w, max, r, at, delta, e)
    ensures !CrossesByte(buf, r)
  {
    var d := Shifted(buf[at..at + w], delta, e);
    assert !LooksFlipped(Xor(Dec(buf[at..at + |d|]), Dec(d), |d|));
    if CrossesByte(buf, Overwrite(buf, at, d)) {
      CrossingLooksFlipped(buf, at, d);
    }
  }

  lemma CrossingIsNoStep(buf: Input, eff: seq<bool>, max: nat, r: Input)
    requires CrossesByte(buf, r)
    ensures r !in AllSteps(buf, eff, max)
  {
    forall w: nat | w <= |buf|
      ensures r !in StageRuns(buf, eff, w, max)
    {
      CrossingIsNoRunOf(buf, eff, w, max, r);
    }
  }

  /** Nor does an interesting value come through the filters. */
  lemma CrossingIsNoValue(buf: Input, eff: seq<bool>, w: nat, r: Input)
    requires CrossesByte(buf, r)
    ensures r !in ValuesOf(buf, eff, w, false)
  {
    if r in ValuesOf(buf, eff, w, false) {
      UntriedValuesAreRun(buf, eff, w, InterestingOf(w), r);
      var at, v, e :| IsUntriedValue(buf, eff, w, InterestingOf(w), r, at, v, e);
      UntriedIsNoCrossing(buf, eff, w, InterestingOf(w), r, at, v, e);
    }
  }

  lemma UntriedIsNoCrossing(buf: Input, eff: seq<bool>, w: nat, vals: seq<int>, r: Input, at: nat, v: int, e: Endian)
    requires IsUntriedValue(buf, eff, w, vals, r, at, v, e)
    ensures !CrossesByte(buf, r)
  {
    var d := EncAs(v, w, e);
    assert !LooksFlipped(Xor(Dec(buf[at..at + |d|]), Dec(d), |d|));
    if CrossesByte(buf, Overwrite(buf, at, d)) {
      CrossingLooksFlipped(buf, at, d);
    }
  }

  lemma CrossingIsNotRun(buf: Input, eff: seq<bool>, max: nat, r: Input)
    requires buf != [] && CrossesByte(buf, r)
    ensures r !in PlainRuns(buf, eff, false, max)
  {
    CrossingIsNoFlip(buf, eff, r);
    CrossingIsNoStep(buf, eff, max, r);
    CrossingIsNoValue(buf, eff, 1, r);
    CrossingIsNoValue(buf, eff, 2, r);
    CrossingIsNoValue(buf, eff, 4, r);
  }

  /** The step from 0x00e0 to 0x0100 is lost, although its bytes are effective. */
  lemma CarryIsLost()
    ensures var buf: Input, eff := [0xe0, 0], [true];
            && WideStep(buf, 0, 2, 32, Little) == [0, 1] && AllEffective(eff, 0, 2)
            && [0, 1] !in PlainRuns(buf, eff, false, 35)
  {
    var buf: Input, eff := [0xe0, 0], [true];
    var r := WideStep(buf, 0, 2, 32, Little);
    LittleStep(buf[0..2], 32);
    assert buf[0..2] == buf && r == Shifted(buf, 32, Little) == [0, 1];
    CrossingIsOneCarry(buf, 0, 2, 32, Little);
    CrossingIsNotRun(buf, eff, 35, r);
  }

  lemma {:induction false} CrossingLooksFlipped(buf: Input, at: nat, d: Input)
    requires at + |d| <= |buf| && CrossesByte(buf, Overwrite(buf, at, d))
    ensures LooksFlipped(Xor(Dec(buf[at..at + |d|]), Dec(d), |d|))
  {
    var q: nat, t: nat, n: nat :| CrossesAt(buf, Overwrite(buf, at, d), q, t, n);
    ChangesAreShown(buf, at, d, n, 8 * q + t);
    OnesValues();
    assert IsFlipPattern(AllOnes(n), 8 * q + t - 8 * at);
  }

  // ----- which flip-like changes the flip stages run -----

  /** The pattern is one that the flip stages reach: within one byte, or a window of 2 or 4 bytes that touches an
      effective block. */
  ghost predicate IsReached(buf: Input, eff: seq<bool>, at: nat, ones: nat, shift: nat) {
    || ones == 1 || (ones == 3 && shift % 8 <= 6) || (ones == 15 && shift % 8 <= 4) || ones == 0xff
    || (ones == 0xffff && Effective(buf, eff, at + shift / 8, 2))
    || (ones == 0xffff_ffff && Effective(buf, eff, at + shift / 8, 4))
  }

  /** A change that looks like a flip is run by the flip stages exactly if they reach its pattern; otherwise the pattern
      crosses a byte boundary, or its bytes are not effective. */
  lemma {:induction false} FlipLikeIsRun(buf: Input, eff: seq<bool>, at: nat, d: Input, ones: nat, shift: nat)
    requires at + |d| <= |buf| && d != []
    requires IsFlipPattern(ones, shift) && Xor(Dec(buf[at..at + |d|]), Dec(d), |d|) == Shl(ones, shift)
    ensures Overwrite(buf, at, d) in FlipRuns(buf, eff) <==> IsReached(buf, eff, at, ones, shift)
    ensures CrossesByte(buf, Overwrite(buf, at, d)) <==> IsAcrossBytes(ones, shift)
  {
    var r, n, q, t := Overwrite(buf, at, d), CountOnes(ones, shift), at + shift / 8, shift % 8;
    ShownChanges(buf, at, d, n, shift);
    assert 8 * at + shift == 8 * q + t;
    FlipRunsAreExact(buf, eff, r);
    FlipLikeChange(buf, eff, r, q, t, n);
  }

  /** The same in terms of the bits that differ: `n` bits of a little-endian number from bit `t` of byte `q` on. */
  lemma FlipLikeChange(buf: Input, eff: seq<bool>, r: Input, q: nat, t: nat, n: nat)
    requires buf != [] && t < 8 && ChangesLow(buf, r, 8 * q + t, n)
    requires n == 1 || n == 2 || n == 4 || (t == 0 && (n == 8 || n == 16 || n == 32))
    ensures IsFlipRun(buf, eff, r)
       <==> t + n <= 8 || (n == 16 && Effective(buf, eff, q, 2)) || (n == 32 && Effective(buf, eff, q, 4))
    ensures CrossesByte(buf, r) <==> n <= 4 && t + n > 8
  {
    if t + n <= 8 {
      RunInByte(buf, r, q, t, n);
      FlipLikeInByte(buf, eff, r, q, t, n);
    } else if n <= 4 {
      assert CrossesAt(buf, r, q, t, n);
      CrossingIsNoFlip(buf, eff, r);
      FlipRunsAreExact(buf, eff, r);
    } else {
      RunOfBytes(buf, r, q, n / 8);
      FlipLikeBytes(buf, eff, r, q, n / 8);
    }
  }

  /** A pattern of 2 or 4 bits that lies in two bytes. */
  predicate IsAcrossBytes(ones: nat, shift: nat) {
    (ones == 3 && shift % 8 > 6) || (ones == 15 && shift % 8 > 4)
  }

  /** How many bits a flip pattern has. */
  function CountOnes(ones: nat, shift: nat): (n: nat)
    requires IsFlipPattern(ones, shift)
    ensures n == 1 || n == 2 || n == 4 || (shift % 8 == 0 && (n == 8 || n == 16 || n == 32))
    ensures ones == AllOnes(n)
    ensures (n == 1 <==> ones == 1) && (n == 2 <==> ones == 3) && (n == 4 <==> ones == 15)
    ensures (n == 8 <==> ones == 0xff) && (n == 16 <==> ones == 0xffff) && (n == 32 <==> ones == 0xffff_ffff)
  {
    OnesValues();
    if ones == 1 then 1 else if ones == 3 then 2 else if ones == 15 then 4
    else if ones == 0xff then 8 else if ones == 0xffff then 16 else 32
  }

  lemma NotCrossing(buf: Input, r: Input, s: nat, n: nat)
    requires ChangesRun(buf, r, s, n)
    ensures !CrossesByte(buf, r)
  {
    if CrossesByte(buf, r) {
      CrossingIsNoRun(buf, r, s, n);
    }
  }

  lemma FlipLikeInByte(buf: Input, eff: seq<bool>, r: Input, q: nat, t: nat, n: nat)
    requires (n == 1 || n == 2 || n == 4 || (n == 8 && t == 0)) && t + n <= 8
    requires ChangesRun(buf, r, 8 * q + 8 - t - n, n)
    ensures IsFlipRun(buf, eff, r) && !CrossesByte(buf, r)
  {
    NotCrossing(buf, r, 8 * q + 8 - t - n, n);
    if n == 8 {
      assert InvertsBytes(buf, r, q, 1);
    }
  }

  lemma FlipLikeBytes(buf: Input, eff: seq<bool>, r: Input, q: nat, m: nat)
    requires (m == 2 || m == 4) && ChangesRun(buf, r, 8 * q, 8 * m)
    ensures IsFlipRun(buf, eff, r) <==> Effective(buf, eff, q, m)
    ensures !CrossesByte(buf, r)
  {
    NotCrossing(buf, r, 8 * q, 8 * m);
    assert InvertsBytes(buf, r, q, m);
    forall s: nat, n: nat | n > 0 && ChangesRun(buf, r, s, n)
      ensures s == 8 * q && n == 8 * m
    {
      RunIsUnique(buf, r, s, n, 8 * q, 8 * m);
    }
  }

  lemma EffectivePart(buf: Input, eff: seq<bool>, at: nat, w: nat, i: nat, v: nat)
    requires AllEffective(eff, at, w) && at <= i && i + v <= at + w <= |buf| && v > 0
    ensures Effective(buf, eff, i, v)
  {
    assert eff[i / 8];
  }

  lemma StepMoves(c: Input, delta: int, e: Endian)
    requires c != [] && SmallDelta(delta)
    ensures Shifted(c, delta, e) != c
  {
    ShiftedIsModular(c, c, delta, e);
    NumbersFit(c, e);
    NearIsSmallDelta(DecAs(c, e), DecAs(c, e), Pow256(|c|));
  }

  /** On effective bytes only the byte boundaries matter. */
  lemma FlipLikeStepIsRun(buf: Input, eff: seq<bool>, r: Input, at: nat, w: nat, delta: int, e: Endian)
    requires buf != [] && IsWidth(w) && IsFlipLikeStep(buf, eff, r, at, w, delta, e)
    ensures r in FlipRuns(buf, eff) <==> !CrossesByte(buf, r)
  {
    var c := buf[at..at + w];
    var d := Shifted(c, delta, e);
    StepMoves(c, delta, e);
    if StepXor(buf, at, w, delta, e) == 0 {
      SameXor(c, d);
    }
    var ones, shift :| IsFlipPattern(ones, shift) && StepXor(buf, at, w, delta, e) == Shl(ones, shift);
    FlipLikeIsRun(buf, eff, at, d, ones, shift);
    ReachedUnlessAcross(buf, eff, at, d, ones, shift);
  }

  lemma {:induction false} ReachedUnlessAcross(buf: Input, eff: seq<bool>, at: nat, d: Input, ones: nat, shift: nat)
    requires at + |d| <= |buf| && AllEffective(eff, at, |d|) && IsFlipPattern(ones, shift)
    requires Xor(Dec(buf[at..at + |d|]), Dec(d), |d|) == Shl(ones, shift)
    ensures IsReached(buf, eff, at, ones, shift) <==> !IsAcrossBytes(ones, shift)
  {
    var n := CountOnes(ones, shift);
    ShownChanges(buf, at, d, n, shift);
    if n > 8 {
      EffectivePart(buf, eff, at, |d|, at + shift / 8, n / 8);
    }
  }

  lemma OverwriteOver(a: Input, b: Input, at: nat, w: nat, block: Input)
    requires SameOutside(a, b, at, w) && w <= |block| && at + |block| <= |a|
    ensures Overwrite(b, at, block) == Overwrite(a, at, block)
    ensures SameOutside(a, Overwrite(a, at, block), at, |block|)
  {
    assert a[at + |block|..] == a[at + w..][|block| - w..];
    assert b[at + |block|..] == b[at + w..][|block| - w..];
  }

  // ----- runs of the byte flips -----

  ghost function InvertedRuns(buf: Input, eff: seq<bool>, w: nat, n: nat): seq<Input>
    requires n + w <= |buf| + 1
  {
    if n == 0 then []
    else InvertedRuns(buf, eff, w, n - 1) + if Effective(buf, eff, n - 1, w) then [Inverted(buf, n - 1, w)] else []
  }

  lemma {:induction false} InvertedGrow(buf: Input, eff: seq<bool>, w: nat, a: nat, b: nat)
    requires a <= b && b + w <= |buf| + 1
    ensures InvertedRuns(buf, eff, w, a) <= InvertedRuns(buf, eff, w, b)
    decreases b
  {
    if a < b {
      InvertedGrow(buf, eff, w, a, b - 1);
    }
  }

  ghost function ByteRuns(buf: Input, n: nat): (r: seq<Input>)
    requires n <= |buf|
    ensures |r| == n && forall i :: 0 <= i < n ==> r[i] == Inverted(buf, i, 1)
  {
    if n == 0 then [] else ByteRuns(buf, n - 1) + [Inverted(buf, n - 1, 1)]
  }

  // ----- runs of the interesting-value stages -----

  /** Whether a change looks like something tried before, given the old bytes, the new bytes and the byte order. */
  type Filter = (Input, Input, Endian) -> bool

  /** Names the change that a filter is asked about. */
  ghost predicate AboutChange(o: Input, n: Input, e: Endian) {
    true
  }

  /** `skip` is the filter of the stages. */
  ghost predicate Filters(skip: Filter) {
    forall o, n, e {:trigger AboutChange(o, n, e)} :: skip(o, n, e) == LooksTried(o, n, e)
  }

  ghost function TriedFilter(): (skip: Filter)
    ensures Filters(skip)
  {
    (o: Input, n: Input, e: Endian) => LooksTried(o, n, e)
  }

  ghost function ValueFor(buf: Input, eff: seq<bool>, w: nat, skip: Filter, at: nat, v: int, e: Endian): Option<Input> {
    if && Effective(buf, eff, at, w) && (e == Little || EncAs(v, w, e) != EncAs(v, w, Little))
       && !skip(buf[at..at + w], EncAs(v, w, e), e)
    then Some(Overwrite(buf, at, EncAs(v, w, e))) else None
  }

  ghost function Values(buf: Input, eff: seq<bool>, w: nat, skip: Filter): Candidates {
    (at: nat, v: int, e: Endian) => ValueFor(buf, eff, w, skip, at, v, e)
  }

  ghost predicate ListsValues(cand: Candidates, buf: Input, eff: seq<bool>, w: nat, skip: Filter) {
    forall at, v, e {:trigger About(at, v, e)} :: cand(at, v, e) == ValueFor(buf, eff, w, skip, at, v, e)
  }

  /** The list is what the stage of width `w` runs. */
  ghost predicate IsValueList(list: seq<Input>, buf: Input, eff: seq<bool>, w: nat, vals: seq<int>, skip: Filter) {
    forall v: nat {:trigger AboutOffset(v)} :: v == w <= |buf| ==> list == InterestRuns(buf, eff, v, vals, skip)
  }

  /** The values of a stage, and what it runs at each offset. */
  lemma ListValues(buf: Input, eff: seq<bool>, w: nat, vals: seq<int>, skip: Filter, list: seq<Input>)
    returns (cand: Candidates, f: nat -> seq<Input>)
    requires w <= |buf| && IsValueList(list, buf, eff, w, vals, skip)
    ensures ListsValues(cand, buf, eff, w, skip) && IsFor(f, ValueOffsets(cand, w, vals))
    ensures Flat(f, |buf| - w + 1) == list
  {
    assert AboutOffset(w);
    cand := Values(buf, eff, w, skip);
    f := ValueOffsets(cand, w, vals);
  }

  lemma ValuesAreListed(buf: Input, eff: seq<bool>, w: nat, skip: Filter)
    ensures ListsValues(Values(buf, eff, w, skip), buf, eff, w, skip)
  {
  }

  function Orders(w: nat): nat {
    if w == 1 then 1 else 2
  }

  function AfterValues(left: int, k: nat, w: nat): int {
    if w == 1 then left - k else left - 2 * k
  }

  ghost function ValueRuns(cand: Candidates, at: nat, w: nat, v: int): seq<Input> {
    RunsOf(cand(at, v, Little)) + if w == 1 then [] else RunsOf(cand(at, v, Big))
  }

  lemma ValueRunsOrder(cand: Candidates, at: nat, w: nat, v: int, done: seq<Input>)
    ensures done + ValueRuns(cand, at, w, v)
         == if w == 1 then done + RunsOf(cand(at, v, Little))
            else done + RunsOf(cand(at, v, Little)) + RunsOf(cand(at, v, Big))
  {
  }

  ghost function ValuesAt(cand: Candidates, at: nat, w: nat, vals: seq<int>): nat -> seq<Input> {
    (k: nat) => if k < |vals| then ValueRuns(cand, at, w, vals[k]) else []
  }

  ghost function ValueOffsets(cand: Candidates, w: nat, vals: seq<int>): nat -> seq<Input> {
    (at: nat) => Flat(ValuesAt(cand, at, w, vals), |vals|)
  }

  ghost function InterestRuns(buf: Input, eff: seq<bool>, w: nat, vals: seq<int>, skip: Filter): seq<Input>
    requires w <= |buf|
  {
    Flat(ValueOffsets(Values(buf, eff, w, skip), w, vals), |buf| - w + 1)
  }

  lemma {:induction false} FlatOfNothing(f: nat -> seq<Input>, n: nat)
    requires forall k: nat :: k < n ==> f(k) == []
    ensures Flat(f, n) == []
  {
    if n > 0 {
      FlatOfNothing(f, n - 1);
    }
  }

  /** What the stage runs at the next offset. */
  lemma NextList(cand: Candidates, w: nat, vals: seq<int>, f: nat -> seq<Input>, i: nat) returns (g: nat -> seq<Input>)
    requires IsFor(f, ValueOffsets(cand, w, vals))
    ensures IsFor(g, ValuesAt(cand, i, w, vals)) && Flat(f, i + 1) == Flat(f, i) + Flat(g, |vals|)
  {
    assert AboutOffset(i);
    g := ValuesAt(cand, i, w, vals);
  }

  lemma {:induction false} NothingAt(cand: Candidates, buf: Input, eff: seq<bool>, w: nat, skip: Filter, at: nat,
                                     vals: seq<int>, f: nat -> seq<Input>)
    requires ListsValues(cand, buf, eff, w, skip) && !Effective(buf, eff, at, w)
    requires IsFor(f, ValuesAt(cand, at, w, vals))
    ensures Flat(f, |vals|) == []
  {
    forall k: nat | k < |vals|
      ensures f(k) == []
    {
      assert AboutOffset(k);
      assert About(at, vals[k], Little);
      assert About(at, vals[k], Big);
    }
    FlatOfNothing(f, |vals|);
  }

  /** A run of the interesting-value stage: one of the values over a window that touches an effective block, not
      filtered out; big-endian only when the byte order makes a difference. */
  ghost predicate IsInterestRun(buf: Input, eff: seq<bool>, w: nat, vals: seq<int>, skip: Filter, r: Input, at: nat,
                                v: int, e: Endian) {
    && v in vals && at + w <= |buf| && (exists k :: at <= k < at + w && k / 8 < |eff| && eff[k / 8])
    && r == Overwrite(buf, at, EncAs(v, w, e))
    && (e == Big ==> w != 1 && EncAs(v, w, Big) != EncAs(v, w, Little)) && !skip(buf[at..at + w], EncAs(v, w, e), e)
  }

  ghost predicate ValueYields(cand: Candidates, w: nat, at: nat, v: int, e: Endian, r: Input) {
    cand(at, v, e) == Some(r) && (w == 1 ==> e == Little)
  }

  lemma InValueRuns(cand: Candidates, at: nat, w: nat, v: int, r: Input)
    ensures r in ValueRuns(cand, at, w, v) <==> exists e :: ValueYields(cand, w, at, v, e, r)
  {
    assert r in RunsOf(cand(at, v, Little)) <==> ValueYields(cand, w, at, v, Little, r);
    assert w != 1 ==> (r in RunsOf(cand(at, v, Big)) <==> ValueYields(cand, w, at, v, Big, r));
    forall e | ValueYields(cand, w, at, v, e, r)
      ensures r in ValueRuns(cand, at, w, v)
    {
      assert e == Little || e == Big;
    }
  }

  lemma {:induction false} InValuesAt(cand: Candidates, at: nat, w: nat, vals: seq<int>, r: Input)
    ensures r in Flat(ValuesAt(cand, at, w, vals), |vals|)
            <==> exists v, e :: v in vals && ValueYields(cand, w, at, v, e, r)
  {
    var f := ValuesAt(cand, at, w, vals);
    InFlat(f, |vals|, r);
    if r in Flat(f, |vals|) {
      var k: nat :| k < |vals| && r in f(k);
      InValueRuns(cand, at, w, vals[k], r);
    }
    forall v, e | v in vals && ValueYields(cand, w, at, v, e, r)
      ensures r in Flat(f, |vals|)
    {
      var k :| 0 <= k < |vals| && vals[k] == v;
      InValueRuns(cand, at, w, v, r);
      assert r in f(k);
    }
  }

  lemma {:induction false} InValueOffsets(cand: Candidates, w: nat, vals: seq<int>, n: nat, r: Input)
    ensures r in Flat(ValueOffsets(cand, w, vals), n) <==> SomeYield(cand, w, vals, n, r)
  {
    var f := ValueOffsets(cand, w, vals);
    InFlat(f, n, r);
    if r in Flat(f, n) {
      var at: nat :| at < n && r in f(at);
      InValuesAt(cand, at, w, vals, r);
    }
    forall at: nat, v, e | at < n && v in vals && ValueYields(cand, w, at, v, e, r)
      ensures r in Flat(f, n)
    {
      InValuesAt(cand, at, w, vals, r);
      assert r in f(at);
    }
  }

  lemma ValueIsRun(cand: Candidates, buf: Input, eff: seq<bool>, w: nat, vals: seq<int>, skip: Filter, r: Input,
                   at: nat, v: int, e: Endian)
    requires ListsValues(cand, buf, eff, w, skip)
    ensures IsInterestRun(buf, eff, w, vals, skip, r, at, v, e)
       <==> at + w <= |buf| && v in vals && ValueYields(cand, w, at, v, e, r)
  {
    assert About(at, v, e);
  }

  ghost predicate IsSomeInterestRun(buf: Input, eff: seq<bool>, w: nat, vals: seq<int>, skip: Filter, r: Input) {
    exists at, v, e :: IsInterestRun(buf, eff, w, vals, skip, r, at, v, e)
  }

  /** Some value at one of the first `n` offsets yields `r`. */
  ghost predicate SomeYield(cand: Candidates, w: nat, vals: seq<int>, n: nat, r: Input) {
    exists at: nat, v, e :: at < n && v in vals && ValueYields(cand, w, at, v, e, r)
  }

  lemma YieldsAreRuns(cand: Candidates, buf: Input, eff: seq<bool>, w: nat, vals: seq<int>, skip: Filter, r: Input)
    requires w <= |buf| && ListsValues(cand, buf, eff, w, skip)
    ensures SomeYield(cand, w, vals, |buf| - w + 1, r)
       <==> IsSomeInterestRun(buf, eff, w, vals, skip, r)
  {
    forall at: nat, v: int, e: Endian
      ensures IsInterestRun(buf, eff, w, vals, skip, r, at, v, e)
         <==> at < |buf| - w + 1 && v in vals && ValueYields(cand, w, at, v, e, r)
    {
      ValueIsRun(cand, buf, eff, w, vals, skip, r, at, v, e);
    }
  }

  lemma {:induction false} ListedRunsAreExact(cand: Candidates, buf: Input, eff: seq<bool>, w: nat, vals: seq<int>,
                                              skip: Filter, r: Input)
    requires w <= |buf| && ListsValues(cand, buf, eff, w, skip)
    ensures r in Flat(ValueOffsets(cand, w, vals), |buf| - w + 1)
       <==> IsSomeInterestRun(buf, eff, w, vals, skip, r)
  {
    InValueOffsets(cand, w, vals, |buf| - w + 1, r);
    YieldsAreRuns(cand, buf, eff, w, vals, skip, r);
  }

  /** The interesting-value stage runs exactly those buffers, for any filter. */
  lemma InterestRunsAreExact(buf: Input, eff: seq<bool>, w: nat, vals: seq<int>, skip: Filter, r: Input)
    requires w <= |buf|
    ensures r in InterestRuns(buf, eff, w, vals, skip)
       <==> IsSomeInterestRun(buf, eff, w, vals, skip, r)
  {
    ValuesAreListed(buf, eff, w, skip);
    ListedRunsAreExact(Values(buf, eff, w, skip), buf, eff, w, vals, skip, r);
  }

  /** One of the values over a window that touches an effective block, big-endian only when that makes a difference,
      whose change looks neither like a flip nor like an arithmetic step nor like a narrower interesting value. */
  ghost predicate IsUntriedValue(buf: Input, eff: seq<bool>, w: nat, vals: seq<int>, r: Input, at: nat, v: int,
                                 e: Endian) {
    && v in vals && at + w <= |buf| && (exists k :: at <= k < at + w && k / 8 < |eff| && eff[k / 8])
    && r == Overwrite(buf, at, EncAs(v, w, e))
    && (e == Big ==> w != 1 && EncAs(v, w, Big) != EncAs(v, w, Little))
    && !LooksTried(buf[at..at + w], EncAs(v, w, e), e)
  }

  lemma UntriedIsRun(buf: Input, eff: seq<bool>, w: nat, vals: seq<int>, skip: Filter, r: Input, at: nat, v: int,
                     e: Endian)
    requires Filters(skip)
    ensures IsInterestRun(buf, eff, w, vals, skip, r, at, v, e) <==> IsUntriedValue(buf, eff, w, vals, r, at, v, e)
  {
    if at + w <= |buf| {
      assert AboutChange(buf[at..at + w], EncAs(v, w, e), e);
    }
  }

  /** With the real filters, the interesting-value stage runs exactly the untried values. */
  lemma UntriedValuesAreRun(buf: Input, eff: seq<bool>, w: nat, vals: seq<int>, r: Input)
    requires w <= |buf|
    ensures r in InterestRuns(buf, eff, w, vals, TriedFilter())
       <==> exists at, v, e :: IsUntriedValue(buf, eff, w, vals, r, at, v, e)
  {
    var skip := TriedFilter();
    InterestRunsAreExact(buf, eff, w, vals, skip, r);
    if r in InterestRuns(buf, eff, w, vals, skip) {
      var at, v, e :| IsInterestRun(buf, eff, w, vals, skip, r, at, v, e);
      UntriedIsRun(buf, eff, w, vals, skip, r, at, v, e);
    }
    forall at, v, e | IsUntriedValue(buf, eff, w, vals, r, at, v, e)
      ensures IsInterestRun(buf, eff, w, vals, skip, r, at, v, e)
    {
      UntriedIsRun(buf, eff, w, vals, skip, r, at, v, e);
    }
  }

  // ----- runs of the dictionary stages -----

  /** The token fits at `i` and touches an effective block. */
  ghost predicate CanTake(buf: Input, eff: seq<bool>, i: nat, token: Input) {
    && i < |buf| && i + |token| <= |buf|
    && exists k :: i <= k < i + |token| && k / 8 < |eff| && eff[k / 8]
  }

  /** Tokens are sorted by length. */
  ghost predicate ByLength(tokens: seq<Input>) {
    forall j, k :: 0 <= j < k < |tokens| ==> |tokens[j]| <= |tokens[k]|
  }

  /** `r` is the input with token `j` at offset `i`, and nothing else changed. */
  ghost predicate IsTokenRun(buf: Input, eff: seq<bool>, tokens: seq<Input>, i: nat, j: nat, r: Input) {
    j < |tokens| && CanTake(buf, eff, i, tokens[j]) && r == Overwrite(buf, i, tokens[j])
  }

  /** Token `j` was run at offset `i`, unless it does not fit, has no effect there, or is what the input has there. */
  ghost predicate Tried(buf: Input, eff: seq<bool>, tokens: seq<Input>, i: nat, j: nat, done: seq<Input>) {
    j < |tokens| && CanTake(buf, eff, i, tokens[j])
    ==> Overwrite(buf, i, tokens[j]) in done || Overwrite(buf, i, tokens[j]) == buf
  }

  // The loop over the tokens, for tokens in any order.

  /** The checks that a token passes before it is written over `out`. */
  ghost predicate Takes(eff: seq<bool>, i: nat, out: Input, token: Input) {
    Effective(out, eff, i, |token|) && out[i..i + |token|] != token
  }

  ghost function TokenOut(eff: seq<bool>, i: nat, out: Input, token: Input): Input {
    if Takes(eff, i, out, token) then Overwrite(out, i, token) else out
  }

  ghost function TokenRun(eff: seq<bool>, i: nat, out: Input, token: Input): seq<Input> {
    if Takes(eff, i, out, token) then [Overwrite(out, i, token)] else []
  }

  /** What `out_buf` holds after the first `n` tokens at offset `i`. */
  ghost function OutAfter(eff: seq<bool>, i: nat, out: Input, tokens: seq<Input>, n: nat): Input
    requires n <= |tokens|
  {
    if n == 0 then out else TokenOut(eff, i, OutAfter(eff, i, out, tokens, n - 1), tokens[n - 1])
  }

  /** What the loop over the first `n` tokens runs at offset `i`. */
  ghost function LoopRuns(eff: seq<bool>, i: nat, out: Input, tokens: seq<Input>, n: nat): seq<Input>
    requires n <= |tokens|
  {
    if n == 0 then []
    else LoopRuns(eff, i, out, tokens, n - 1) + TokenRun(eff, i, OutAfter(eff, i, out, tokens, n - 1), tokens[n - 1])
  }

  /** What the stage runs for the first `n` offsets. */
  ghost function OverwriteRuns(buf: Input, eff: seq<bool>, tokens: seq<Input>, n: nat): seq<Input> {
    if n == 0 then [] else OverwriteRuns(buf, eff, tokens, n - 1) + LoopRuns(eff, n - 1, buf, tokens, |tokens|)
  }

  /** The state of the stage before token `j` at offset `i`. */
  ghost predicate TokensSoFar(buf: Input, eff: seq<bool>, tokens: seq<Input>, mayDrop: bool, done: seq<Input>, i: nat,
                              j: nat) {
    && (forall r :: r in done ==> exists i', j' :: IsTokenRun(buf, eff, tokens, i', j', r))
    && (!mayDrop ==> forall i': nat, j': nat :: i' < i || (i' == i && j' < j) ==> Tried(buf, eff, tokens, i', j', done))
    && (!mayDrop && j <= |tokens| ==> done == OverwriteRuns(buf, eff, tokens, i) + LoopRuns(eff, i, buf, tokens, j))
  }

  /** The same; `AboutToken` marks the members that look into it. */
  ghost predicate TokensTried(buf: Input, eff: seq<bool>, tokens: seq<Input>, mayDrop: bool, done: seq<Input>, i: nat,
                              j: nat) {
    forall k: nat {:trigger AboutToken(k)} :: k == j ==> TokensSoFar(buf, eff, tokens, mayDrop, done, i, k)
  }

  ghost predicate AboutToken(j: nat) {
    true
  }

  lemma NoTokensTried(buf: Input, eff: seq<bool>, tokens: seq<Input>, mayDrop: bool)
    ensures TokensTried(buf, eff, tokens, mayDrop, [], 0, 0)
  {
    assert TokensSoFar(buf, eff, tokens, mayDrop, [], 0, 0);
  }

  lemma {:induction false} OneMoreToken(buf: Input, eff: seq<bool>, tokens: seq<Input>, mayDrop: bool, done: seq<Input>,
                                        done': seq<Input>,
                     i: nat, j: nat)
    requires j < |tokens| && TokensTried(buf, eff, tokens, mayDrop, done, i, j)
    requires done' == done || (CanTake(buf, eff, i, tokens[j]) && done' == done + [Overwrite(buf, i, tokens[j])])
    requires !mayDrop ==> Tried(buf, eff, tokens, i, j, done')
    requires !mayDrop ==> done' == done + TokenRun(eff, i, OutAfter(eff, i, buf, tokens, j), tokens[j])
    ensures TokensTried(buf, eff, tokens, mayDrop, done', i, j + 1)
  {
    assert AboutToken(j);
    OneMoreRun(buf, eff, tokens, done, done', i, j);
    if !mayDrop {
      OneMoreTried(buf, eff, tokens, done, done', i, j);
      var sofar := LoopRuns(eff, i, buf, tokens, j);
      Chain(OverwriteRuns(buf, eff, tokens, i), sofar, TokenRun(eff, i, OutAfter(eff, i, buf, tokens, j), tokens[j]));
    }
    assert TokensSoFar(buf, eff, tokens, mayDrop, done', i, j + 1);
  }

  lemma OneMoreRun(buf: Input, eff: seq<bool>, tokens: seq<Input>, done: seq<Input>, done': seq<Input>, i: nat, j: nat)
    requires j < |tokens| && forall r :: r in done ==> exists i', j' :: IsTokenRun(buf, eff, tokens, i', j', r)
    requires done' == done || (CanTake(buf, eff, i, tokens[j]) && done' == done + [Overwrite(buf, i, tokens[j])])
    ensures forall r :: r in done' ==> exists i', j' :: IsTokenRun(buf, eff, tokens, i', j', r)
  {
    forall r | r in done'
      ensures exists i', j' :: IsTokenRun(buf, eff, tokens, i', j', r)
    {
      if r !in done {
        assert IsTokenRun(buf, eff, tokens, i, j, r);
      }
    }
  }

  lemma OneMoreTried(buf: Input, eff: seq<bool>, tokens: seq<Input>, done: seq<Input>, done': seq<Input>, i: nat,
                     j: nat)
    requires forall i': nat, j': nat :: i' < i || (i' == i && j' < j) ==> Tried(buf, eff, tokens, i', j', done)
    requires done <= done' && Tried(buf, eff, tokens, i, j, done')
    ensures forall i': nat, j': nat :: i' < i || (i' == i && j' < j + 1) ==> Tried(buf, eff, tokens, i', j', done')
  {
    forall i': nat, j': nat | i' < i || (i' == i && j' < j + 1)
      ensures Tried(buf, eff, tokens, i', j', done')
    {
      if i' < i || j' < j {
        StillTried(buf, eff, tokens, i', j', done, done');
      }
    }
  }

  lemma StillTried(buf: Input, eff: seq<bool>, tokens: seq<Input>, i: nat, j: nat, done: seq<Input>, done': seq<Input>)
    requires Tried(buf, eff, tokens, i, j, done) && done <= done'
    ensures Tried(buf, eff, tokens, i, j, done')
  {
  }

  lemma NextTokenOffset(buf: Input, eff: seq<bool>, tokens: seq<Input>, mayDrop: bool, done: seq<Input>, i: nat)
    requires TokensTried(buf, eff, tokens, mayDrop, done, i, |tokens|)
    ensures TokensTried(buf, eff, tokens, mayDrop, done, i + 1, 0)
  {
    assert AboutToken(|tokens|);
    forall i': nat, j': nat | !mayDrop && i' < i + 1
      ensures Tried(buf, eff, tokens, i', j', done)
    {
      assert i' < i || j' < |tokens| ==> Tried(buf, eff, tokens, i', j', done);
    }
    assert TokensSoFar(buf, eff, tokens, mayDrop, done, i + 1, 0);
  }

  /** The loop relies on the order by length: with a longer token first, it runs a buffer that shows the rest of that
      token behind the shorter one, which is not the input with only one token in it. */
  lemma UnsortedTokensMix()
    ensures var buf: Input, tokens: seq<Input>, eff := [0, 0], [[1, 1], [2]], [true];
            && CoversInput(eff, |buf|) && !ByLength(tokens)
            && [2, 1] in LoopRuns(eff, 0, buf, tokens, 2)
            && forall i: nat, j: nat :: !IsTokenRun(buf, eff, tokens, i, j, [2, 1])
  {
    var buf: Input, tokens: seq<Input>, eff := [0, 0], [[1, 1], [2]], [true];
    var first: Input, mixed: Input := [1, 1], [2, 1];
    assert eff[0 / 8];
    assert Effective(buf, eff, 0, 2) && Effective(first, eff, 0, 1);
    assert buf[0..2] == buf && first[0..1] == [1];
    assert Overwrite(buf, 0, tokens[0]) == first && Overwrite(first, 0, tokens[1]) == mixed;
    assert OutAfter(eff, 0, buf, tokens, 0) == buf;
    assert OutAfter(eff, 0, buf, tokens, 1) == first;
    assert TokenRun(eff, 0, first, tokens[1]) == [mixed];
    forall i: nat, j: nat | IsTokenRun(buf, eff, tokens, i, j, mixed)
      ensures false
    {
      OneTokenOnly(buf, tokens[j], i);
    }
  }

  lemma OneTokenOnly(buf: Input, token: Input, i: nat)
    requires buf == [0, 0] && (token == [1, 1] || token == [2]) && i + |token| <= 2
    ensures Overwrite(buf, i, token) != [2, 1]
  {
    assert token == [1, 1] ==> Overwrite(buf, i, token)[0] == 1;
    assert token == [2] && i == 0 ==> Overwrite(buf, i, token)[1] == 0;
    assert token == [2] && i == 1 ==> Overwrite(buf, i, token)[0] == 0;
  }

  const MAX_DICT_FILE := 128
  const MAX_DET_EXTRAS := 200

  ghost function InsertRuns(buf: Input, i: nat, token: Input): seq<Input>
    requires i <= |buf|
  {
    if |buf| + |token| > MAX_FILE then [] else [Insert(buf, i, token)]
  }

  ghost function InsertsAt(buf: Input, i: nat, tokens: seq<Input>, n: nat): seq<Input>
    requires i <= |buf| && n <= |tokens|
  {
    if n == 0 then [] else InsertsAt(buf, i, tokens, n - 1) + InsertRuns(buf, i, tokens[n - 1])
  }

  /** The runs of the insertion stage for the offsets below `i`. */
  ghost function InsertsBefore(buf: Input, tokens: seq<Input>, i: nat): seq<Input>
    requires i <= |buf| + 1
  {
    if i == 0 then [] else InsertsBefore(buf, tokens, i - 1) + InsertsAt(buf, i - 1, tokens, |tokens|)
  }

  lemma {:induction false} InsertsAtGrow(buf: Input, i: nat, tokens: seq<Input>, n: nat, done: seq<Input>)
    requires i <= |buf| && n <= |tokens|
    ensures done + InsertsAt(buf, i, tokens, n) <= done + InsertsAt(buf, i, tokens, |tokens|)
    decreases |tokens| - n
  {
    if n < |tokens| {
      InsertsAtGrow(buf, i, tokens, n + 1, done);
    }
  }

  lemma {:induction false} InsertsGrow(buf: Input, tokens: seq<Input>, i: nat)
    requires i <= |buf| + 1
    ensures InsertsBefore(buf, tokens, i) <= InsertsBefore(buf, tokens, |buf| + 1)
    decreases |buf| + 1 - i
  {
    if i < |buf| + 1 {
      InsertsGrow(buf, tokens, i + 1);
    }
  }

  lemma {:induction false} InInsertsAt(buf: Input, i: nat, tokens: seq<Input>, n: nat, r: Input)
    requires i <= |buf| && n <= |tokens|
    ensures r in InsertsAt(buf, i, tokens, n) <==> exists j :: 0 <= j < n && r in InsertRuns(buf, i, tokens[j])
    decreases n
  {
    if n > 0 {
      InInsertsAt(buf, i, tokens, n - 1, r);
    }
  }

  ghost predicate IsInsertRun(buf: Input, tokens: seq<Input>, i: nat, token: Input, r: Input) {
    i <= |buf| && token in tokens && |buf| + |token| <= MAX_FILE && r == Insert(buf, i, token)
  }

  ghost predicate SomeInsertAt(buf: Input, tokens: seq<Input>, i: nat, r: Input) {
    exists token :: IsInsertRun(buf, tokens, i, token, r)
  }

  lemma {:induction false} InsertsAtAreExact(buf: Input, i: nat, tokens: seq<Input>, r: Input)
    requires i <= |buf|
    ensures r in InsertsAt(buf, i, tokens, |tokens|) <==> SomeInsertAt(buf, tokens, i, r)
  {
    InInsertsAt(buf, i, tokens, |tokens|, r);
    if r in InsertsAt(buf, i, tokens, |tokens|) {
      var j :| 0 <= j < |tokens| && r in InsertRuns(buf, i, tokens[j]);
      assert IsInsertRun(buf, tokens, i, tokens[j], r);
    }
    forall token | IsInsertRun(buf, tokens, i, token, r)
      ensures r in InsertsAt(buf, i, tokens, |tokens|)
    {
      var j :| 0 <= j < |tokens| && tokens[j] == token;
      assert r in InsertRuns(buf, i, tokens[j]);
    }
  }

  ghost predicate IsInsertedAt(buf: Input, tokens: seq<Input>, i: nat, r: Input) {
    i <= |buf| && r in InsertsAt(buf, i, tokens, |tokens|)
  }

  ghost function InsertLists(buf: Input, tokens: seq<Input>): nat -> seq<Input> {
    (i: nat) => if i <= |buf| then InsertsAt(buf, i, tokens, |tokens|) else []
  }

  lemma {:induction false} InsertsAreFlat(buf: Input, tokens: seq<Input>, n: nat, f: nat -> seq<Input>)
    requires n <= |buf| + 1 && forall i: nat :: i <= |buf| ==> f(i) == InsertsAt(buf, i, tokens, |tokens|)
    ensures InsertsBefore(buf, tokens, n) == Flat(f, n)
    decreases n
  {
    if n > 0 {
      InsertsAreFlat(buf, tokens, n - 1, f);
    }
  }

  lemma {:induction false} InInsertsBefore(buf: Input, tokens: seq<Input>, n: nat, r: Input)
    requires n <= |buf| + 1
    ensures r in InsertsBefore(buf, tokens, n) <==> exists i: nat :: i < n && IsInsertedAt(buf, tokens, i, r)
  {
    var f := InsertLists(buf, tokens);
    InsertsAreFlat(buf, tokens, n, f);
    InFlat(f, n, r);
    assert forall i: nat :: i < n ==> (r in f(i) <==> IsInsertedAt(buf, tokens, i, r));
  }

  /** The insertion stage runs exactly the input with one token inserted anywhere, within the file limit. */
  lemma InsertRunsAreExact(buf: Input, tokens: seq<Input>, r: Input)
    ensures r in InsertsBefore(buf, tokens, |buf| + 1) <==> exists i, token :: IsInsertRun(buf, tokens, i, token, r)
  {
    InInsertsBefore(buf, tokens, |buf| + 1, r);
    assert forall i: nat, token :: IsInsertRun(buf, tokens, i, token, r) ==> SomeInsertAt(buf, tokens, i, r);
    forall i: nat | i <= |buf|
      ensures IsInsertedAt(buf, tokens, i, r) <==> SomeInsertAt(buf, tokens, i, r)
    {
      InsertsAtAreExact(buf, i, tokens, r);
    }
  }

  /** The walking flips of bytes run exactly the windows that touch an effective block, inverted. */
  lemma {:induction false} InvertedRunsAreExact(buf: Input, eff: seq<bool>, w: nat, n: nat, r: Input)
    requires n + w <= |buf| + 1
    ensures r in InvertedRuns(buf, eff, w, n)
            <==> exists i: nat ::
                   i < n && r == Inverted(buf, i, w) && exists k :: i <= k < i + w && k / 8 < |eff| && eff[k / 8]
    decreases n
  {
    if n > 0 {
      InvertedRunsAreExact(buf, eff, w, n - 1, r);
    }
  }

  lemma InsertIsPieces(buf: Input, a: Input, i: nat, token: Input)
    requires i <= |buf| && |buf| + |token| <= |a|
    requires a[..i] == buf[..i] && a[i..i + |token|] == token && a[i + |token|..|buf| + |token|] == buf[i..]
    ensures a[..|buf| + |token|] == Insert(buf, i, token)
  {
    assert a[..|buf| + |token|] == a[..i] + a[i..i + |token|] + a[i + |token|..|buf| + |token|];
  }
}
