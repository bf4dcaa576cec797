/** afl-tmin: the accept/reject decision and the in-place minimizer driven by it. */
module Tmin {
  import opened Bytes

  const ZERO: Byte := 48 // the character '0'
  const MSAN_ERROR := 86
  const TRIM_START_STEPS := 16
  const TMIN_SET_STEPS := 128
  const TMIN_SET_MIN_SIZE := 4

  // ----- the decision at the end of run_target -----

  datatype Status = Signaled | Exited(code: nat)

  /** What one execution of the target shows: did it time out, how it ended, the hash of its trace, and whether the
      trace has anything set. */
  datatype Outcome = Outcome(timedOut: bool, status: Status, cksum: int, anythingSet: bool)

  /** Command-line settings of the minimizer. */
  datatype Settings = Settings(exitCrash: bool, exactMode: bool)

  /** The globals that the first run fixes. */
  datatype Mode = Mode(crashMode: bool, origCksum: int)

  predicate Crashed(cfg: Settings, o: Outcome) {
    || o.status.Signaled?
    || (o.status.Exited? && o.status.code == MSAN_ERROR)
    || (o.status.Exited? && o.status.code != 0 && cfg.exitCrash)
  }

  /** `run_target(..., first_run = 1)` on an outcome that did not time out. */
  function FirstRun(cfg: Settings, o: Outcome): Mode {
    if Crashed(cfg, o) && !cfg.exactMode then Mode(true, 0)
    else Mode(Crashed(cfg, o), o.cksum)
  }

  /** `run_target(..., first_run = 0)`: keep the candidate? */
  predicate Keep(cfg: Settings, m: Mode, o: Outcome) {
    if o.timedOut then false
    else if Crashed(cfg, o) then m.crashMode && (!cfg.exactMode || m.origCksum == o.cksum)
    else !m.crashMode && m.origCksum == o.cksum
  }

  /** The run ended with a signal, with the exit code 86, or, if exit codes are to count as crashes, with another code
      than 0. */
  ghost predicate EndsInCrash(cfg: Settings, o: Outcome) {
    match o.status
    case Signaled => true
    case Exited(code) => code == 86 || (cfg.exitCrash && code != 0)
  }

  /** A candidate behaves like the original input: it does not time out, it crashes iff the original did, and (unless
      crashes are compared loosely) it leaves the same trace hash. */
  ghost predicate BehavesLike(cfg: Settings, first: Outcome, o: Outcome) {
    && !o.timedOut
    && (EndsInCrash(cfg, o) <==> EndsInCrash(cfg, first))
    && (o.cksum == first.cksum || (EndsInCrash(cfg, first) && !cfg.exactMode))
  }

  /** A candidate is kept exactly when it behaves like the original input. */
  lemma KeepMeansSameBehaviour(cfg: Settings, first: Outcome, o: Outcome)
    requires !first.timedOut
    ensures Keep(cfg, FirstRun(cfg, first), first)
    ensures Keep(cfg, FirstRun(cfg, first), o) <==> BehavesLike(cfg, first, o)
  {
  }

  /** An input that exits with a code other than 0 and 86 is not a crash unless exit codes count, so what is kept has
      its trace hash. */
  lemma OrdinaryExitKeepsTrace(cfg: Settings, first: Outcome, o: Outcome)
    requires !first.timedOut && first.status.Exited? && first.status.code != 86 && !cfg.exitCrash
    requires Keep(cfg, FirstRun(cfg, first), o)
    ensures o.cksum == first.cksum && o.status.Exited? && o.status.code != 86
  {
    KeepMeansSameBehaviour(cfg, first, o);
  }

  // ----- what a minimized input is -----

  /** `origin` shows that `cur` is a subsequence of `orig` in which some bytes were replaced by '0'. */
  ghost predicate Tracks(orig: Input, origin: seq<nat>, cur: Input) {
    && |origin| == |cur|
    && (forall j, k :: 0 <= j < k < |origin| ==> origin[j] < origin[k])
    && (forall k :: 0 <= k < |cur| ==> origin[k] < |orig| && (cur[k] == orig[origin[k]] || cur[k] == ZERO))
  }

  ghost predicate BlockNeeded(accepts: Input -> bool, s: Input, n: nat, k: nat) {
    BlockStart(k, n) < |s| ==> !accepts(Without(s, BlockStart(k, n), n))
  }

  /** No block of length `n` can be dropped. */
  ghost predicate BlocksNeeded(accepts: Input -> bool, s: Input, n: nat) {
    forall k: nat :: BlockNeeded(accepts, s, n, k)
  }

  /** No single byte can be dropped. */
  ghost predicate OneMinimal(accepts: Input -> bool, s: Input) {
    forall p :: 0 <= p < |s| ==> !accepts(Without(s, p, 1))
  }

  /** `b` is `a` with some bytes replaced by '0'. */
  ghost predicate Zeroed(a: Input, b: Input) {
    |a| == |b| && forall k :: 0 <= k < |a| ==> b[k] == a[k] || b[k] == ZERO
  }

  ghost function Zeros(n: nat): Input {
    seq(n, _ => ZERO)
  }

  /** `after` is `before` with blocks of length `n` visited from left to right, each one replaced by '0' exactly when
      the target accepts that given the blocks already decided. */
  ghost predicate GreedilyZeroed(accepts: Input -> bool, before: Input, after: Input, n: nat) {
    && |before| == |after|
    && forall k: nat :: BlockDecided(accepts, before, after, n, k)
  }

  ghost predicate BlockDecided(accepts: Input -> bool, before: Input, after: Input, n: nat, k: nat)
    requires |before| == |after|
  {
    BlockStart(k, n) < |before| ==>
      DecidedAt(accepts, before, after, BlockStart(k, n), Min(BlockStart(k, n) + n, |before|))
  }

  ghost predicate DecidedAt(accepts: Input -> bool, before: Input, after: Input, p: nat, q: nat)
    requires |before| == |after| && p <= q <= |before|
  {
    after[p..q] == if accepts(after[..p] + Zeros(q - p) + before[q..]) then Zeros(q - p) else before[p..q]
  }

  /** `s` with every symbol in `syms` replaced by '0'. */
  ghost function ZeroSymbols(s: Input, syms: set<Byte>): (r: Input)
    ensures Zeroed(s, r)
  {
    seq(|s|, k requires 0 <= k < |s| => if s[k] in syms then ZERO else s[k])
  }

  ghost function Below(syms: set<Byte>, b: int): set<Byte> {
    set c | c in syms && c < b
  }

  /** The symbols of `s` below `limit` are visited in ascending order; `syms` holds those whose replacement the target
      accepts on top of the replacements already made. */
  ghost predicate GreedySymbols(accepts: Input -> bool, s: Input, syms: set<Byte>, limit: int) {
    forall b: Byte :: b < limit ==>
      (b in syms <==> b != ZERO && b in s && accepts(ZeroSymbols(s, Below(syms, b) + {b})))
  }

  /** The number of bytes that are not '0'. */
  ghost function NonZero(s: Input): (n: nat)
    ensures n <= |s|
  {
    if s == [] then 0 else (if s[0] != ZERO then 1 else 0) + NonZero(s[1..])
  }

  /** What every changing pass lowers. */
  ghost function Measure(s: Input): nat {
    |s| + NonZero(s)
  }

  /** `s` with every occurrence of `sym` replaced by '0'. */
  ghost function ZeroSymbol(s: Input, sym: Byte): (r: Input)
    ensures Zeroed(s, r)
    ensures forall k :: 0 <= k < |s| && s[k] != sym ==> r[k] == s[k]
    ensures sym != ZERO && sym in s ==> r != s
  {
    var r := seq(|s|, k requires 0 <= k < |s| => if s[k] == sym then ZERO else s[k]);
    assert forall k :: 0 <= k < |s| && s[k] == sym ==> r[k] == ZERO;
    r
  }

  lemma {:induction false} NonZeroConcat(a: Input, b: Input)
    ensures NonZero(a + b) == NonZero(a) + NonZero(b)
  {
    if a == [] {
      assert a + b == b;
    } else {
      assert (a + b)[1..] == a[1..] + b;
      NonZeroConcat(a[1..], b);
    }
  }

  lemma {:induction false} ZeroingLowersNonZero(a: Input, b: Input)
    requires Zeroed(a, b)
    ensures NonZero(b) <= NonZero(a)
    ensures a != b ==> NonZero(b) < NonZero(a)
  {
    if a != [] {
      ZeroingLowersNonZero(a[1..], b[1..]);
      if a != b && a[0] == b[0] {
        assert a == [a[0]] + a[1..] && b == [b[0]] + b[1..];
      }
    }
  }

  lemma DroppingLowersMeasure(s: Input, p: nat, n: nat)
    requires p < |s| && n > 0
    ensures Measure(Without(s, p, n)) < Measure(s)
  {
    var q := Min(p + n, |s|);
    assert Without(s, p, n) == s[..p] + s[q..];
    assert s == s[..p] + (s[p..q] + s[q..]);
    NonZeroConcat(s[..p], s[q..]);
    NonZeroConcat(s[..p], s[p..q] + s[q..]);
    NonZeroConcat(s[p..q], s[q..]);
  }

  lemma DroppingKeepsTracks(orig: Input, origin: seq<nat>, s: Input, p: nat, n: nat)
    requires Tracks(orig, origin, s) && p < |s|
    ensures Tracks(orig, Without(origin, p, n), Without(s, p, n))
  {
    var o, t := Without(origin, p, n), Without(s, p, n);
    forall k | 0 <= k < |t|
      ensures o[k] == origin[if k < p then k else k + n] && t[k] == s[if k < p then k else k + n]
    {
    }
  }

  lemma ZeroingKeepsTracks(orig: Input, origin: seq<nat>, a: Input, b: Input)
    requires Tracks(orig, origin, a) && Zeroed(a, b)
    ensures Tracks(orig, origin, b)
  {
  }

  /** Two equal neighbouring blocks: dropping either one leaves the same bytes. */
  lemma EqualNeighboursDropAlike(s: Input, p: nat, n: nat)
    requires n <= p && p + n <= |s|
    requires s[p - n..p] == s[p..p + n]
    ensures Without(s, p - n, n) == Without(s, p, n)
  {
    var a, b := Without(s, p - n, n), Without(s, p, n);
    forall k | 0 <= k < |a|
      ensures a[k] == b[k]
    {
      if p - n <= k < p {
        assert a[k] == s[k + n] == s[p..p + n][k - (p - n)];
        assert b[k] == s[k] == s[p - n..p][k - (p - n)];
      }
    }
  }

  lemma {:induction false} UnitBlockStart(k: nat)
    ensures BlockStart(k, 1) == k
  {
    if k > 0 {
      UnitBlockStart(k - 1);
    }
  }

  lemma UnitBlocksNeeded(accepts: Input -> bool, s: Input)
    requires BlocksNeeded(accepts, s, 1)
    ensures OneMinimal(accepts, s)
  {
    forall p | 0 <= p < |s|
      ensures !accepts(Without(s, p, 1))
    {
      UnitBlockStart(p);
      assert BlockNeeded(accepts, s, 1, p);
    }
  }

  lemma MoreSymbols(s: Input, syms: set<Byte>, sym: Byte)
    requires sym in s && sym !in syms && sym != ZERO
    ensures sym in ZeroSymbols(s, syms)
    ensures ZeroSymbol(ZeroSymbols(s, syms), sym) == ZeroSymbols(s, syms + {sym})
  {
    var k :| 0 <= k < |s| && s[k] == sym;
    assert ZeroSymbols(s, syms)[k] == sym;
  }

  lemma NoSymbolsNoChange(s: Input, syms: set<Byte>)
    requires forall c :: c in syms ==> c != ZERO && c in s
    ensures ZeroSymbols(s, syms) == s <==> syms == {}
  {
    if c :| c in syms {
      var k :| 0 <= k < |s| && s[k] == c;
      assert ZeroSymbols(s, syms)[k] == ZERO;
    } else {
      assert ZeroSymbols(s, syms) == s;
    }
  }

  lemma GreedySymbolStep(accepts: Input -> bool, s: Input, before: set<Byte>, after: set<Byte>, sym: Byte)
    requires GreedySymbols(accepts, s, before, sym)
    requires forall c :: c in before ==> c < sym
    requires sym != ZERO && sym in s
    requires after == if accepts(ZeroSymbols(s, before + {sym})) then before + {sym} else before
    ensures GreedySymbols(accepts, s, after, sym + 1)
  {
    forall b: Byte | b <= sym
      ensures Below(after, b) == Below(before, b)
    {
    }
    assert Below(before, sym) == before;
  }

  lemma GreedySymbolSkip(accepts: Input -> bool, s: Input, syms: set<Byte>, sym: Byte)
    requires GreedySymbols(accepts, s, syms, sym) && (sym == ZERO || sym !in s)
    requires forall c :: c in syms ==> c < sym
    ensures GreedySymbols(accepts, s, syms, sym + 1)
  {
  }

  /** The candidate that one zeroing step runs. */
  ghost function ZeroBlock(s: Input, p: nat, n: nat): (r: Input)
    requires p < |s|
    ensures Zeroed(s, r)
  {
    var q := Min(p + n, |s|);
    s[..p] + Zeros(q - p) + s[q..]
  }

  lemma FilledIsZeroBlock(s: Input, buf: Input, p: nat, n: nat)
    requires p < |s| <= |buf| && buf[..|s|] == s
    ensures var k := Min(n, |s| - p); (buf[..p] + seq(k, _ => ZERO) + buf[p + k..])[..|s|] == ZeroBlock(s, p, n)
  {
    var k := Min(n, |s| - p);
    assert buf == s + buf[|s|..];
  }

  /** A greedy zeroing pass that has decided its first `k` blocks and not touched the others. */
  ghost predicate GreedySoFar(accepts: Input -> bool, start: Input, cur: Input, n: nat, k: nat) {
    && Zeroed(start, cur)
    && FirstBlocksDecided(accepts, start, cur, n, k)
    && (BlockStart(k, n) < |start| ==> cur[BlockStart(k, n)..] == start[BlockStart(k, n)..])
  }

  ghost predicate FirstBlocksDecided(accepts: Input -> bool, start: Input, cur: Input, n: nat, k: nat)
    requires |start| == |cur|
  {
    forall j: nat :: j < k ==> BlockDecided(accepts, start, cur, n, j)
  }

  lemma DecidedNow(accepts: Input -> bool, start: Input, cur: Input, p: nat, n: nat)
    requires |start| == |cur| && p < |start| && cur[p..] == start[p..]
    ensures var next := if accepts(ZeroBlock(cur, p, n)) then ZeroBlock(cur, p, n) else cur;
            && DecidedAt(accepts, start, next, p, Min(p + n, |start|))
            && next[..p] == cur[..p]
            && (p + n <= |start| ==> next[p + n..] == start[p + n..])
  {
    var q := Min(p + n, |start|);
    assert start[q..] == start[p..][q - p..] == cur[p..][q - p..] == cur[q..];
    assert start[p..q] == start[p..][..q - p] == cur[p..][..q - p] == cur[p..q];
    assert ZeroBlock(cur, p, n)[p..q] == Zeros(q - p);
    assert ZeroBlock(cur, p, n)[..p] == cur[..p];
    assert ZeroBlock(cur, p, n)[q..] == cur[q..];
  }

  lemma StaysDecided(accepts: Input -> bool, start: Input, cur: Input, next: Input, p: nat, q: nat, end: nat)
    requires |start| == |cur| == |next| && p <= q <= end <= |start| && next[..end] == cur[..end]
    requires DecidedAt(accepts, start, cur, p, q)
    ensures DecidedAt(accepts, start, next, p, q)
  {
    forall i | 0 <= i < end
      ensures next[i] == cur[i]
    {
      assert next[..end][i] == cur[..end][i];
    }
    assert next[..p] == cur[..p] && next[p..q] == cur[p..q];
  }

  lemma {:induction false} EarlierBlocksStayDecided(accepts: Input -> bool, start: Input, cur: Input, next: Input,
                                                    n: nat, k: nat)
    requires |start| == |cur| == |next| && BlockStart(k, n) <= |start|
    requires FirstBlocksDecided(accepts, start, cur, n, k)
    requires next[..BlockStart(k, n)] == cur[..BlockStart(k, n)]
    ensures FirstBlocksDecided(accepts, start, next, n, k)
  {
    forall j: nat | j < k
      ensures BlockDecided(accepts, start, next, n, j)
    {
      BlocksAreOrdered(j + 1, k, n);
      var p := BlockStart(j, n);
      assert BlockDecided(accepts, start, cur, n, j);
      if p < |start| {
        StaysDecided(accepts, start, cur, next, p, p + n, BlockStart(k, n));
      }
    }
  }

  lemma ZeroedTwice(a: Input, b: Input, c: Input)
    requires Zeroed(a, b) && Zeroed(b, c)
    ensures Zeroed(a, c)
  {
  }

  /** One step of a greedy zeroing pass decides one more block. */
  lemma {:induction false} GreedyStep(accepts: Input -> bool, start: Input, cur: Input, next: Input, n: nat, k: nat)
    requires GreedySoFar(accepts, start, cur, n, k) && BlockStart(k, n) < |start|
    requires next == if accepts(ZeroBlock(cur, BlockStart(k, n), n)) then ZeroBlock(cur, BlockStart(k, n), n) else cur
    ensures GreedySoFar(accepts, start, next, n, k + 1)
  {
    DecidedNow(accepts, start, cur, BlockStart(k, n), n);
    ZeroedTwice(start, cur, next);
    EarlierBlocksStayDecided(accepts, start, cur, next, n, k);
    assert BlockDecided(accepts, start, next, n, k);
  }

  lemma UntouchedByte(accepts: Input -> bool, start: Input, cur: Input, k: nat)
    requires GreedySoFar(accepts, start, cur, 1, k) && k < |start|
    ensures cur[k] == start[k]
  {
    UnitBlockStart(k);
    assert cur[k] == cur[k..][0] && start[k] == start[k..][0];
  }

  lemma GreedyStart(accepts: Input -> bool, start: Input, n: nat)
    ensures GreedySoFar(accepts, start, start, n, 0)
  {
  }

  lemma CharactersEnd(accepts: Input -> bool, start: Input, cur: Input)
    requires GreedySoFar(accepts, start, cur, 1, |cur|)
    ensures GreedilyZeroed(accepts, start, cur, 1) && Zeroed(start, cur)
  {
    UnitBlockStart(|cur|);
    GreedyDone(accepts, start, cur, 1, |cur|);
  }

  lemma {:induction false} GreedyDone(accepts: Input -> bool, start: Input, cur: Input, n: nat, k: nat)
    requires GreedySoFar(accepts, start, cur, n, k) && BlockStart(k, n) >= |start|
    ensures GreedilyZeroed(accepts, start, cur, n)
  {
    forall j: nat
      ensures BlockDecided(accepts, start, cur, n, j)
    {
      if j >= k {
        BlocksAreOrdered(k, j, n);
      }
    }
  }

  /** A byte of the outcome of a one-byte zeroing pass is '0' exactly when the target accepts that. */
  lemma GreedyBytes(accepts: Input -> bool, before: Input, after: Input, k: nat)
    requires GreedilyZeroed(accepts, before, after, 1) && k < |before|
    ensures after[k] == if accepts(after[..k] + [ZERO] + before[k + 1..]) then ZERO else before[k]
  {
    UnitBlockStart(k);
    assert BlockDecided(accepts, before, after, 1, k);
    assert Zeros(1) == [ZERO];
    assert after[k..k + 1] == [after[k]] && before[k..k + 1] == [before[k]];
  }

  /** What running the minimizer on `input` accepts. */
  function Behaves(cfg: Settings, target: Input -> Outcome, input: Input): Input -> bool {
    s => Keep(cfg, FirstRun(cfg, target(input)), target(s))
  }

  /** The block that the minimizer skips because it equals the one before, whose candidate was rejected, has the same
      candidate. */
  lemma SkippedBlockIsNeeded(accepts: Input -> bool, s: Input, n: nat, p: nat)
    requires n <= p && p + n <= |s| && s[p - n..p] == s[p..p + n]
    requires !accepts(Without(s, p - n, n))
    ensures !accepts(Without(s, p, n))
  {
    EqualNeighboursDropAlike(s, p, n);
  }

  lemma NextP2Shows(n: nat, v: nat)
    requires IsPow2(n) && v <= n && (v > 0 ==> n < 2 * v) && forall k: nat :: Pow2(k) >= v ==> n <= Pow2(k)
    ensures IsNextP2(n, v)
  {
    assert Pow2(0) >= 1;
  }

  // ----- the stages of a pass -----

  /** What a deletion round with blocks of `n` bytes makes of `s` from position `pos` on. */
  ghost function AfterDrops(accepts: Input -> bool, s: Input, pos: nat, n: nat): (r: Input)
    ensures |r| <= |s|
    decreases if pos < |s| then |s| - pos else 0
  {
    if n == 0 || pos >= |s| then s
    else if accepts(Without(s, pos, n)) then AfterDrops(accepts, Without(s, pos, n), pos, n)
    else AfterDrops(accepts, s, pos + n, n)
  }

  /** A round that changes nothing has shown every block from number `k` on to be needed. */
  lemma {:induction false} DropsKeep(accepts: Input -> bool, s: Input, k: nat, n: nat)
    requires n > 0 && AfterDrops(accepts, s, BlockStart(k, n), n) == s
    ensures forall j: nat :: j >= k ==> BlockNeeded(accepts, s, n, j)
    decreases if BlockStart(k, n) < |s| then |s| - BlockStart(k, n) else 0
  {
    if BlockStart(k, n) < |s| {
      DropsKeep(accepts, s, k + 1, n);
    } else {
      forall j: nat | j >= k
        ensures BlockNeeded(accepts, s, n, j)
      {
        BlocksAreOrdered(k, j, n);
      }
    }
  }

  lemma {:induction false} IdleRound(accepts: Input -> bool, s: Input, n: nat)
    requires n > 0 && AfterDrops(accepts, s, 0, n) == s
    ensures BlocksNeeded(accepts, s, n)
  {
    DropsKeep(accepts, s, 0, n);
  }

  /** What the deletion stage makes of `s`, starting with blocks of `n` bytes and halving them down to one. */
  ghost function AfterDeletion(accepts: Input -> bool, s: Input, n: nat): (r: Input)
    decreases n
  {
    var t := AfterDrops(accepts, s, 0, n);
    if n > 1 && |t| >= 1 then AfterDeletion(accepts, t, n / 2) else t
  }

  /** `next_p2(v)`. */
  ghost predicate IsNextP2(n: nat, v: nat) {
    IsPow2(n) && v <= n && n < Max(2 * v, 2)
  }

  /** The deletion stage starts with blocks of 1/16 of the length, rounded up to a power of two. */
  ghost predicate IsDeleted(accepts: Input -> bool, s: Input, r: Input) {
    exists n :: IsNextP2(n, |s| / 16) && r == AfterDeletion(accepts, s, n)
  }

  /** The normalization uses blocks of 1/128 of the length, rounded up to a power of two, but of at least 4 bytes. */
  ghost predicate IsSetLen(n: nat, len: nat) {
    exists p2: nat :: IsNextP2(p2, len / 128) && n == Max(p2, 4)
  }

  /** A pass and what each of its stages leaves. */
  datatype Pass = Pass(start: Input, deleted: Input, syms: set<Byte>, replaced: Input, end: Input)

  /** The stages follow each other: blocks are dropped, symbols replaced in ascending order, and then single bytes. */
  ghost predicate IsPass(accepts: Input -> bool, p: Pass) {
    && IsDeleted(accepts, p.start, p.deleted) && accepts(p.deleted)
    && GreedySymbols(accepts, p.deleted, p.syms, 256) && p.replaced == ZeroSymbols(p.deleted, p.syms)
    && accepts(p.replaced) && GreedilyZeroed(accepts, p.replaced, p.end, 1)
  }

  /** Each pass starts where the one before ended, and all before the last changed something. */
  ghost predicate ArePasses(accepts: Input -> bool, start: Input, passes: seq<Pass>) {
    && (forall k :: 0 <= k < |passes| ==> IsPass(accepts, passes[k]))
    && (passes != [] ==> passes[0].start == start)
    && (forall j, k :: 0 <= j && k == j + 1 < |passes| ==> passes[k].start == passes[j].end != passes[j].start)
  }

  /** The minimization ends after a pass that changes nothing, or after a deletion stage, not in the first pass, that
      changes nothing. */
  ghost predicate Finished(accepts: Input -> bool, passes: seq<Pass>, count: nat, result: Input) {
    passes != [] &&
    var last := passes[|passes| - 1];
    result == last.end &&
    if last.end == last.start then count == |passes| else count == |passes| + 1 && IsDeleted(accepts, result, result)
  }

  lemma OneMorePass(accepts: Input -> bool, start: Input, passes: seq<Pass>, p: Pass)
    requires ArePasses(accepts, start, passes) && IsPass(accepts, p)
    requires if passes == [] then p.start == start
             else var last := passes[|passes| - 1]; p.start == last.end != last.start
    ensures ArePasses(accepts, start, passes + [p])
  {
  }

  /** What a whole minimization makes of `input`: one normalization and then the passes. */
  ghost predicate IsMinimized(accepts: Input -> bool, input: Input, normal: Input, passes: seq<Pass>, count: nat,
                              result: Input) {
    && (exists n :: IsSetLen(n, |input|) && GreedilyZeroed(accepts, input, normal, n))
    && ArePasses(accepts, normal, passes) && Finished(accepts, passes, count, result)
  }

  // ----- the minimizer -----

  /** The globals of afl-tmin that `minimize` works on. `accepts` is the target behind `run_target`. */
  class Minimizer {
    const accepts: Input -> bool
    const inData: array<Byte>
    const tmpBuf: array<Byte>
    var inLen: nat
    var changedAny: bool
    ghost const original: Input
    ghost var origin: seq<nat>

    ghost predicate Sized()
      reads this
    {
      inLen <= inData.Length && tmpBuf.Length == inData.Length && tmpBuf != inData
    }

    ghost function Contents(): Input
      requires Sized()
      reads this, inData
    {
      inData[..inLen]
    }

    ghost predicate Valid()
      reads this, inData
    {
      Sized() && accepts(Contents()) && Tracks(original, origin, Contents())
    }

    constructor (input: Input, accepts: Input -> bool)
      requires accepts(input)
      ensures Valid() && Contents() == input && original == input && this.accepts == accepts
      ensures fresh(inData) && fresh(tmpBuf)
    {
      this.accepts := accepts;
      original := input;
      origin := seq(|input|, k => k);
      var data := new Byte[|input|](k requires 0 <= k < |input| => input[k]);
      inData := data;
      tmpBuf := new Byte[|input|](_ => ZERO);
      inLen := |input|;
      changedAny := false;
      new;
      assert inData[..inLen] == input;
    }

    /** Puts the accepted zeroed copy held in `tmpBuf` in place. */
    method TakeZeroed(n: nat)
      requires Valid() && n == inLen
      requires Zeroed(Contents(), tmpBuf[..n]) && accepts(tmpBuf[..n])
      modifies this`changedAny, inData
      ensures Valid() && changedAny
      ensures Contents() == tmpBuf[..n]
    {
      ghost var before := Contents();
      CopyBytes(inData, 0, tmpBuf, 0, n);
      changedAny := true;
      assert Contents() == tmpBuf[..n];
      ZeroingKeepsTracks(original, origin, before, Contents());
    }

    /** `memcpy(tmp_buf, in_data, in_len)`. */
    method CopyToTmp()
      requires Sized()
      modifies tmpBuf
      ensures tmpBuf[..inLen] == Contents()
    {
      CopyBytes(tmpBuf, 0, inData, 0, inLen);
    }

    /** Builds the candidate with one block replaced by '0' in `tmpBuf`. */
    method BuildZeroed(p: nat, n: nat)
      requires Sized() && p < inLen
      modifies tmpBuf
      ensures tmpBuf[..inLen] == ZeroBlock(Contents(), p, n)
    {
      var useLen := Min(n, inLen - p);
      CopyToTmp();
      ghost var copied := tmpBuf[..];
      FillBytes(tmpBuf, p, ZERO, useLen);
      FilledIsZeroBlock(Contents(), copied, p, n);
    }

    /** Replaces one block by '0' if it holds anything else and the target accepts it. */
    method TryBlock(p: nat, n: nat)
      requires Valid() && p < inLen
      modifies this`changedAny, inData, tmpBuf
      ensures Valid()
      ensures Contents() == if accepts(ZeroBlock(old(Contents()), p, n)) then ZeroBlock(old(Contents()), p, n)
              else old(Contents())
    {
      if exists k :: p <= k < Min(p + n, inLen) && inData[k] != ZERO {
        BuildZeroed(p, n);
        if accepts(tmpBuf[..inLen]) {
          TakeZeroed(inLen);
        }
      } else {
        ghost var cur := Contents();
        assert ZeroBlock(cur, p, n) == cur;
      }
    }

    /** Stage #0: replace whole blocks by '0'. */
    method NormalizeBlocks() returns (setLen: nat)
      requires Valid()
      modifies this`changedAny, inData, tmpBuf
      ensures Valid()
      ensures IsSetLen(setLen, inLen)
      ensures Zeroed(old(Contents()), Contents())
      ensures GreedilyZeroed(accepts, old(Contents()), Contents(), setLen)
    {
      setLen := NextP2(inLen / TMIN_SET_STEPS);
      NextP2Shows(setLen, inLen / TMIN_SET_STEPS);
      var setPos := 0;
      if setLen < TMIN_SET_MIN_SIZE {
        setLen := TMIN_SET_MIN_SIZE;
      }
      assert IsSetLen(setLen, inLen);
      ghost var start, block := Contents(), 0;
      while setPos < inLen
        invariant Valid()
        invariant setPos == BlockStart(block, setLen)
        invariant GreedySoFar(accepts, start, Contents(), setLen, block)
      {
        ghost var cur := Contents();
        TryBlock(setPos, setLen);
        GreedyStep(accepts, start, cur, Contents(), setLen, block);
        setPos, block := setPos + setLen, block + 1;
      }
      GreedyDone(accepts, start, Contents(), setLen, block);
    }

    /** Builds the candidate without one block in `tmpBuf`. */
    method BuildWithout(at: nat, n: nat) returns (newLen: nat)
      requires Sized() && at < inLen
      modifies tmpBuf
      ensures newLen <= inLen && tmpBuf[..newLen] == Without(Contents(), at, n)
    {
      var tailLen := Max(inLen - at - n, 0);
      newLen := at + tailLen;
      CopyBytes(tmpBuf, 0, inData, 0, at);
      if tailLen > 0 {
        CopyBytes(tmpBuf, at, inData, at + n, tailLen);
      }
      assert tmpBuf[..newLen] == Without(Contents(), at, n);
    }

    /** Runs the input without one block and takes it over if it is accepted. */
    method TryDrop(at: nat, n: nat) returns (res: bool)
      requires Valid() && at < inLen
      modifies this`inLen, this`changedAny, this`origin, inData, tmpBuf
      ensures Valid()
      ensures res == accepts(Without(old(Contents()), at, n))
      ensures changedAny == (old(changedAny) || res)
      ensures Contents() == if res then Without(old(Contents()), at, n) else old(Contents())
    {
      var newLen := BuildWithout(at, n);
      res := accepts(tmpBuf[..newLen]);
      if res {
        DroppingKeepsTracks(original, origin, Contents(), at, n);
        CopyBytes(inData, 0, tmpBuf, 0, newLen);
        inLen := newLen;
        origin := Without(origin, at, n);
        changedAny := true;
        assert Contents() == tmpBuf[..newLen];
      }
    }

    /** Nothing changed since the contents were `before`, or bytes were dropped. */
    ghost predicate DroppedSince(before: Input, wasChanged: bool)
      requires Sized()
      reads this, inData
    {
      if Contents() == before then changedAny == wasChanged
      else inLen < |before| && changedAny && Measure(Contents()) < Measure(before)
    }

    /** What holds when a deletion round, started on `start`, reaches position `delPos`; it will leave `end`. */
    ghost predicate RoundDone(start: Input, wasChanged: bool, delPos: nat, delLen: nat, end: Input)
      reads this, inData
    {
      && Valid() && DroppedSince(start, wasChanged)
      && AfterDrops(accepts, Contents(), delPos, delLen) == end
    }

    /** The candidate without the block before `delPos` was rejected. */
    ghost predicate LastRejected(delPos: nat, delLen: nat)
      requires Sized()
      reads this, inData
    {
      delLen <= delPos && delPos - delLen < inLen && !accepts(Without(Contents(), delPos - delLen, delLen))
    }

    /** Tries, or skips, the block at `delPos`; tells whether it was dropped. */
    method RoundStep(ghost start: Input, ghost wasChanged: bool, delPos: nat, delLen: nat, prevDel: bool,
                     ghost end: Input)
      returns (dropped: bool)
      requires RoundDone(start, wasChanged, delPos, delLen, end) && delLen > 0 && delPos < inLen
      requires !prevDel ==> LastRejected(delPos, delLen)
      modifies this`inLen, this`changedAny, this`origin, inData, tmpBuf
      ensures Valid() && inLen <= old(inLen)
      ensures dropped ==> inLen < old(inLen) && RoundDone(start, wasChanged, delPos, delLen, end)
      ensures !dropped ==> RoundDone(start, wasChanged, delPos + delLen, delLen, end)
      ensures !dropped ==> LastRejected(delPos + delLen, delLen)
    {
      var tailLen := Max(inLen - delPos - delLen, 0);
      var cur := inData[..inLen];
      if !prevDel && tailLen > 0 && cur[delPos - delLen..delPos] == cur[delPos..delPos + delLen] {
        SkippedBlockIsNeeded(accepts, cur, delLen, delPos);
        dropped := false;
      } else {
        dropped := TryDrop(delPos, delLen);
        DroppingLowersMeasure(cur, delPos, delLen);
      }
    }

    /** One round of block deletion with a fixed block length. */
    method DeleteRound(delLen: nat)
      requires Valid() && delLen > 0
      modifies this`inLen, this`changedAny, this`origin, inData, tmpBuf
      ensures Valid()
      ensures Contents() == AfterDrops(accepts, old(Contents()), 0, delLen)
      ensures DroppedSince(old(Contents()), old(changedAny))
      ensures Contents() == old(Contents()) ==> BlocksNeeded(accepts, Contents(), delLen)
    {
      ghost var start := Contents();
      ghost var end := AfterDrops(accepts, start, 0, delLen);
      var delPos, prevDel := 0, true;
      while delPos < inLen
        invariant RoundDone(start, old(changedAny), delPos, delLen, end)
        invariant !prevDel ==> LastRejected(delPos, delLen)
        decreases inLen - delPos
      {
        prevDel := RoundStep(start, old(changedAny), delPos, delLen, prevDel, end);
        if !prevDel {
          delPos := delPos + delLen;
        }
      }
      if Contents() == start {
        IdleRound(accepts, start, delLen);
      }
    }

    /** Stage #1: deletion rounds with block lengths halving down to one. */
    method DeleteBlocks()
      requires Valid()
      modifies this`inLen, this`changedAny, this`origin, inData, tmpBuf
      ensures Valid()
      ensures IsDeleted(accepts, old(Contents()), Contents())
      ensures DroppedSince(old(Contents()), old(changedAny))
      ensures Contents() == old(Contents()) ==> OneMinimal(accepts, Contents())
    {
      var delLen := NextP2(inLen / TRIM_START_STEPS);
      NextP2Shows(delLen, inLen / TRIM_START_STEPS);
      ghost var end := AfterDeletion(accepts, Contents(), delLen);
      DeleteRound(delLen);
      while delLen > 1 && inLen >= 1
        invariant Valid() && delLen > 0
        invariant end == if delLen > 1 && inLen >= 1 then AfterDeletion(accepts, Contents(), delLen / 2) else Contents()
        invariant DroppedSince(old(Contents()), old(changedAny))
        invariant Contents() == old(Contents()) ==> BlocksNeeded(accepts, Contents(), delLen)
      {
        delLen := delLen / 2;
        DeleteRound(delLen);
      }
      if Contents() == old(Contents()) && delLen == 1 {
        UnitBlocksNeeded(accepts, Contents());
      }
    }

    /** Counts how often every symbol occurs. */
    method CountSymbols() returns (alphaMap: array<nat>)
      requires Sized()
      ensures fresh(alphaMap) && alphaMap.Length == 256
      ensures forall b: Byte :: alphaMap[b] > 0 <==> b in Contents()
    {
      alphaMap := new nat[256](_ => 0);
      for k := 0 to inLen
        invariant forall b: Byte :: alphaMap[b] > 0 <==> b in inData[..k]
      {
        alphaMap[inData[k]] := alphaMap[inData[k]] + 1;
        assert inData[..k + 1] == inData[..k] + [inData[k]];
      }
    }

    /** Replaces every occurrence of `sym` by '0' if the target accepts it. */
    method TrySymbol(sym: Byte) returns (res: bool)
      requires Valid() && sym != ZERO && sym in Contents()
      modifies this`changedAny, inData, tmpBuf
      ensures Valid()
      ensures res == accepts(ZeroSymbol(old(Contents()), sym))
      ensures Contents() == if res then ZeroSymbol(old(Contents()), sym) else old(Contents())
      ensures changedAny == (old(changedAny) || res)
    {
      CopyToTmp();
      FillSymbol(sym);
      res := accepts(tmpBuf[..inLen]);
      if res {
        TakeZeroed(inLen);
      }
    }

    method FillSymbol(sym: Byte)
      requires Sized() && tmpBuf[..inLen] == Contents()
      modifies tmpBuf
      ensures tmpBuf[..inLen] == ZeroSymbol(Contents(), sym)
    {
      for r := 0 to inLen
        invariant forall k :: r <= k < inLen ==> tmpBuf[k] == inData[k]
        invariant forall k :: 0 <= k < r ==> tmpBuf[k] == if inData[k] == sym then ZERO else inData[k]
      {
        if tmpBuf[r] == sym {
          tmpBuf[r] := ZERO;
        }
      }
    }

    /** What holds when the alphabet stage, started on `start`, reaches symbol `sym`. */
    ghost predicate SymbolsDone(start: Input, wasChanged: bool, syms: set<Byte>, sym: int)
      reads this, inData
    {
      && Valid() && Contents() == ZeroSymbols(start, syms)
      && (forall c :: c in syms ==> c < sym && c != ZERO && c in start)
      && GreedySymbols(accepts, start, syms, sym)
      && changedAny == (wasChanged || syms != {})
    }

    method SymbolStep(ghost start: Input, ghost wasChanged: bool, ghost syms: set<Byte>, sym: Byte)
      returns (ghost next: set<Byte>)
      requires SymbolsDone(start, wasChanged, syms, sym) && sym != ZERO && sym in start
      modifies this`changedAny, inData, tmpBuf
      ensures SymbolsDone(start, wasChanged, next, sym + 1)
    {
      MoreSymbols(start, syms, sym);
      var res := TrySymbol(sym);
      next := if res then syms + {sym} else syms;
      GreedySymbolStep(accepts, start, syms, next, sym);
    }

    /** Stage #2: replace every occurrence of one symbol by '0', symbol by symbol. */
    method MinimizeAlphabet() returns (ghost syms: set<Byte>)
      requires Valid()
      modifies this`changedAny, inData, tmpBuf
      ensures Valid()
      ensures Contents() == ZeroSymbols(old(Contents()), syms)
      ensures GreedySymbols(accepts, old(Contents()), syms, 256)
      ensures changedAny == (old(changedAny) || Contents() != old(Contents()))
    {
      ghost var start := Contents();
      var alphaMap := CountSymbols();
      syms := {};
      NoSymbolsNoChange(start, syms);
      for sym := 0 to 256
        invariant SymbolsDone(start, old(changedAny), syms, sym)
        invariant forall b: Byte :: alphaMap[b] > 0 <==> b in start
      {
        if sym != ZERO && alphaMap[sym] > 0 {
          syms := SymbolStep(start, old(changedAny), syms, sym);
        } else {
          GreedySymbolSkip(accepts, start, syms, sym);
        }
      }
      NoSymbolsNoChange(start, syms);
    }

    /** Replaces byte `k` by '0' in both buffers if the target accepts it. */
    method TryByte(k: nat)
      requires Valid() && k < inLen && tmpBuf[..inLen] == Contents()
      modifies this`changedAny, inData, tmpBuf
      ensures Valid() && tmpBuf[..inLen] == Contents()
      ensures Contents() == if accepts(ZeroBlock(old(Contents()), k, 1)) then ZeroBlock(old(Contents()), k, 1)
              else old(Contents())
      ensures Contents() == old(Contents()) || Contents()[k] != old(Contents())[k]
      ensures changedAny == (old(changedAny) || Contents() != old(Contents()))
    {
      ghost var cur := Contents();
      assert ZeroBlock(cur, k, 1) == cur[k := ZERO];
      var orig := tmpBuf[k];
      if orig != ZERO {
        tmpBuf[k] := ZERO;
        assert tmpBuf[..inLen] == cur[k := ZERO];
        if accepts(tmpBuf[..inLen]) {
          inData[k] := ZERO;
          changedAny := true;
          assert Contents() == cur[k := ZERO];
          ZeroingKeepsTracks(original, origin, cur, Contents());
        } else {
          tmpBuf[k] := orig;
          assert tmpBuf[..inLen] == cur;
        }
      }
    }

    /** What holds when the character stage, started on `start`, reaches position `k`. */
    ghost predicate CharactersDone(start: Input, wasChanged: bool, k: nat)
      reads this, inData, tmpBuf
    {
      && Valid() && tmpBuf[..inLen] == Contents()
      && GreedySoFar(accepts, start, Contents(), 1, k)
      && changedAny == (wasChanged || Contents() != start)
    }

    method CharacterStep(ghost start: Input, ghost wasChanged: bool, k: nat)
      requires CharactersDone(start, wasChanged, k) && k < inLen
      modifies this`changedAny, inData, tmpBuf
      ensures CharactersDone(start, wasChanged, k + 1)
    {
      UnitBlockStart(k);
      UntouchedByte(accepts, start, Contents(), k);
      TryByte(k);
      GreedyStep(accepts, start, old(Contents()), Contents(), 1, k);
    }

    /** Stage #3: replace single bytes by '0'. */
    method MinimizeCharacters()
      requires Valid()
      modifies this`changedAny, inData, tmpBuf
      ensures Valid()
      ensures Zeroed(old(Contents()), Contents())
      ensures GreedilyZeroed(accepts, old(Contents()), Contents(), 1)
      ensures changedAny == (old(changedAny) || Contents() != old(Contents()))
    {
      ghost var start := Contents();
      CopyToTmp();
      GreedyStart(accepts, start, 1);
      for k := 0 to inLen
        invariant CharactersDone(start, old(changedAny), k)
      {
        CharacterStep(start, old(changedAny), k);
      }
      CharactersEnd(accepts, start, Contents());
    }

    /** One full pass after its deletion stage; `changedAny` tells in the end whether the pass changed anything. */
    method ReplaceBytes(ghost start: Input) returns (ghost p: Pass)
      requires Valid() && IsDeleted(accepts, start, Contents()) && DroppedSince(start, false)
      modifies this`changedAny, inData, tmpBuf
      ensures Valid() && IsPass(accepts, p) && p.start == start && p.end == Contents()
      ensures changedAny <==> Contents() != start
      ensures p.deleted == old(Contents()) && (!changedAny ==> p.deleted == start)
      ensures Measure(Contents()) <= Measure(start) && (changedAny ==> Measure(Contents()) < Measure(start))
      ensures Zeroed(old(Contents()), Contents())
    {
      ghost var deleted := Contents();
      ghost var syms := MinimizeAlphabet();
      ghost var replaced := Contents();
      MinimizeCharacters();
      ZeroingLowersNonZero(deleted, replaced);
      ZeroingLowersNonZero(replaced, Contents());
      p := Pass(start, deleted, syms, replaced, Contents());
    }

    /** What holds between two passes: those made follow each other, and the last of them changed something. */
    ghost predicate PassesMade(normal: Input, full: seq<Pass>)
      reads this, inData
    {
      && Valid() && ArePasses(accepts, normal, full)
      && if full == [] then Contents() == normal
         else var last := full[|full| - 1]; Contents() == last.end != last.start
    }

    /** One more pass; `done` tells that it, or its deletion stage if it is not the first pass, changed nothing. */
    method MakePass(first: bool, ghost normal: Input, ghost full: seq<Pass>)
      returns (done: bool, ghost full': seq<Pass>)
      requires PassesMade(normal, full) && (first <==> full == [])
      modifies this`inLen, this`changedAny, this`origin, inData, tmpBuf
      ensures Valid() && ArePasses(accepts, normal, full')
      ensures done ==> Finished(accepts, full', |full| + 1, Contents()) && OneMinimal(accepts, Contents())
      ensures !done ==> PassesMade(normal, full') && |full'| == |full| + 1
                        && Measure(Contents()) < old(Measure(Contents()))
    {
      ghost var start := Contents();
      changedAny := false;
      DeleteBlocks();
      if !first && !changedAny {
        return true, full;
      }
      ghost var p := ReplaceBytes(start);
      OneMorePass(accepts, normal, full, p);
      return !changedAny, full + [p];
    }

    /** The whole run: one normalization, and then passes until one, or the deletion stage of one, changes nothing. It
        ends after at most one pass more than the input's length plus its count of bytes other than '0', and leaves an
        accepted subsequence of the input, up to '0' replacement, from which no single byte can be dropped. */
    method Minimize() returns (passes: nat, ghost normal: Input, ghost full: seq<Pass>)
      requires Valid()
      modifies this`inLen, this`changedAny, this`origin, inData, tmpBuf
      ensures Sized() && accepts(Contents())
      ensures Tracks(original, origin, Contents())
      ensures OneMinimal(accepts, Contents())
      ensures IsMinimized(accepts, old(Contents()), normal, full, passes, Contents())
      ensures 1 <= passes <= old(Measure(Contents())) + 1
    {
      var setLen := NormalizeBlocks();
      ZeroingLowersNonZero(old(Contents()), Contents());
      passes, normal, full := 0, Contents(), [];
      while true
        invariant PassesMade(normal, full) && passes == |full|
        invariant passes + Measure(Contents()) <= old(Measure(Contents()))
        decreases Measure(Contents())
      {
        passes := passes + 1;
        var done;
        done, full := MakePass(passes == 1, normal, full);
        if done {
          return;
        }
      }
    }
  }

  /** `main` of afl-tmin: dry run, then minimization. A timeout of the dry run is fatal, and so is an empty trace of an
      input that does not crash. */
  method RunTmin(cfg: Settings, target: Input -> Outcome, input: Input) returns (result: Option<Input>)
    ensures result.None? <==>
            target(input).timedOut || (!EndsInCrash(cfg, target(input)) && !target(input).anythingSet)
    ensures result.Some? ==>
              && BehavesLike(cfg, target(input), target(result.value))
              && (forall p :: 0 <= p < |result.value| ==>
                    !BehavesLike(cfg, target(input), target(Without(result.value, p, 1))))
              && (exists origin :: Tracks(input, origin, result.value))
              && exists normal, passes, count ::
                   IsMinimized(Behaves(cfg, target, input), input, normal, passes, count, result.value)
  {
    var dryRun := target(input);
    if dryRun.timedOut {
      return None;
    }
    if !FirstRun(cfg, dryRun).crashMode && !dryRun.anythingSet {
      return None;
    }
    KeepMeansSameBehaviour(cfg, target(input), target(input));
    var m := new Minimizer(input, Behaves(cfg, target, input));
    var passes;
    ghost var normal, full;
    passes, normal, full := m.Minimize();
    result := Some(m.inData[..m.inLen]);
    KeepMeansSameBehaviour(cfg, target(input), target(result.value));
    forall p | 0 <= p < |result.value|
      ensures !BehavesLike(cfg, target(input), target(Without(result.value, p, 1)))
    {
      assert !m.accepts(Without(result.value, p, 1));
      KeepMeansSameBehaviour(cfg, target(input), target(Without(result.value, p, 1)));
    }
    assert Tracks(input, m.origin, result.value);
    assert IsMinimized(m.accepts, input, normal, full, passes, result.value);
  }
}
