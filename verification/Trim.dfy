/** `trim_case` of afl-fuzz: shorten a queue entry without changing the checksum of its trace. */
module Trim {
  import opened Bytes

  const TRIM_MIN_BYTES := 4
  const TRIM_START_STEPS := 16
  const TRIM_END_STEPS := 1024

  /** What one run shows: the hash of the trace, and whether the target could not be executed. */
  datatype Run = Run(cksum: int, error: bool)

  /** `origin` shows that `cur` is a subsequence of `orig` that keeps its first four bytes. */
  ghost predicate KeepsOrder(orig: Input, origin: seq<nat>, cur: Input) {
    && |origin| == |cur| && 4 <= |cur|
    && (forall j, k :: 0 <= j < k < |origin| ==> origin[j] < origin[k])
    && (forall k :: 0 <= k < |cur| ==> origin[k] < |orig| && cur[k] == orig[origin[k]])
    && (forall k :: 0 <= k < 4 ==> origin[k] == k)
  }

  lemma RemovalKeepsOrder(orig: Input, origin: seq<nat>, cur: Input, at: nat, n: nat)
    requires KeepsOrder(orig, origin, cur) && 4 <= at && at + n <= |cur|
    ensures KeepsOrder(orig, Without(origin, at, n), Without(cur, at, n))
  {
    var o, c := Without(origin, at, n), Without(cur, at, n);
    forall k | 0 <= k < |c|
      ensures o[k] == origin[if k < at then k else k + n] && c[k] == cur[if k < at then k else k + n]
    {
    }
  }

  /** Removing block `k` of size `n` changes the checksum. */
  ghost predicate BlockNeeded(target: Input -> Run, cksum: int, s: Input, n: nat, k: nat) {
    BlockStart(k, n) < |s| ==> target(Without(s, BlockStart(k, n), n)).cksum != cksum
  }

  /** No block of size `n`, the first one aside, can be removed. */
  ghost predicate BlocksNeeded(target: Input -> Run, cksum: int, s: Input, n: nat) {
    forall k: nat :: k >= 1 ==> BlockNeeded(target, cksum, s, n, k)
  }

  // ----- what a round does -----

  /** What a round with blocks of `n` bytes makes of `s` from position `pos` on: a block goes for good if the checksum
      stays, and otherwise the round moves on. */
  ghost function AfterRound(target: Input -> Run, cksum: int, s: Input, pos: nat, n: nat): (r: Input)
    ensures |r| <= |s|
    decreases if pos < |s| then |s| - pos else 0
  {
    if n == 0 || pos >= |s| then s
    else if target(Without(s, pos, n)).cksum == cksum then AfterRound(target, cksum, Without(s, pos, n), pos, n)
    else AfterRound(target, cksum, s, pos + n, n)
  }

  /** The candidates that it runs. */
  ghost function RoundRuns(target: Input -> Run, cksum: int, s: Input, pos: nat, n: nat): seq<Input>
    decreases if pos < |s| then |s| - pos else 0
  {
    if n == 0 || pos >= |s| then []
    else if target(Without(s, pos, n)).cksum == cksum
    then [Without(s, pos, n)] + RoundRuns(target, cksum, Without(s, pos, n), pos, n)
    else [Without(s, pos, n)] + RoundRuns(target, cksum, s, pos + n, n)
  }

  /** Every run removes a block or moves on by one. */
  lemma {:induction false} EveryRunCounts(target: Input -> Run, cksum: int, s: Input, pos: nat, n: nat)
    requires n > 0
    ensures var k := |RoundRuns(target, cksum, s, pos, n)|;
            if pos < |s| then BlockStart(k, n) < |s| - pos + n else k == 0
    decreases if pos < |s| then |s| - pos else 0
  {
    if pos < |s| {
      if target(Without(s, pos, n)).cksum == cksum {
        EveryRunCounts(target, cksum, Without(s, pos, n), pos, n);
      } else {
        EveryRunCounts(target, cksum, s, pos + n, n);
      }
    }
  }

  /** A round makes at most 1023 runs if there are at most 1024 blocks. */
  lemma {:induction false} RunsBound(target: Input -> Run, cksum: int, s: Input, n: nat)
    requires n > 0 && |s| <= 1024 * n
    ensures |RoundRuns(target, cksum, s, n, n)| <= 1023
  {
    var k := |RoundRuns(target, cksum, s, n, n)|;
    EveryRunCounts(target, cksum, s, n, n);
    if k >= 1024 {
      BlocksFill(1024, n);
      BlocksAreOrdered(1024, k, n);
    }
  }

  lemma {:induction false} BlocksFill(k: nat, n: nat)
    ensures BlockStart(k, n) == k * n
    decreases k
  {
    if k > 0 {
      BlocksFill(k - 1, n);
    }
  }

  /** A round that does not make the case shorter leaves it alone, and no block from number `k` on can be removed. */
  lemma {:induction false} RoundKeeps(target: Input -> Run, cksum: int, s: Input, k: nat, n: nat)
    requires n > 0 && |AfterRound(target, cksum, s, BlockStart(k, n), n)| == |s|
    ensures AfterRound(target, cksum, s, BlockStart(k, n), n) == s
    ensures forall j: nat :: j >= k ==> BlockNeeded(target, cksum, s, n, j)
    decreases if BlockStart(k, n) < |s| then |s| - BlockStart(k, n) else 0
  {
    if BlockStart(k, n) < |s| {
      RoundKeeps(target, cksum, s, k + 1, n);
    } else {
      forall j: nat | j >= k
        ensures BlockNeeded(target, cksum, s, n, j)
      {
        BlocksAreOrdered(k, j, n);
      }
    }
  }

  /** So a round that removes nothing has shown all blocks to be needed. */
  lemma {:induction false} IdleRound(target: Input -> Run, cksum: int, s: Input, n: nat)
    requires n > 0 && |AfterRound(target, cksum, s, n, n)| == |s|
    ensures AfterRound(target, cksum, s, n, n) == s && BlocksNeeded(target, cksum, s, n)
  {
    assert BlockStart(1, n) == n;
    RoundKeeps(target, cksum, s, 1, n);
  }

  // ----- which block sizes are tried -----

  /** `next_p2(len)`. */
  ghost predicate IsLenP2(p2: nat, len: nat) {
    IsPow2(p2) && len <= p2 < 2 * len
  }

  lemma LenP2IsUnique(p: nat, q: nat, len: nat)
    requires IsLenP2(p, len) && IsLenP2(q, len)
    ensures p == q
  {
    var i: nat, j: nat :| p == Pow2(i) && q == Pow2(j);
    if i < j {
      Pow2Monotone(i + 1, j);
    } else if j < i {
      Pow2Monotone(j + 1, i);
    }
  }

  /** The first block size for a case of `len` bytes: 1/16 of the length rounded up, but at least 4. */
  ghost predicate IsFirstSize(n: nat, len: nat) {
    exists p2: nat :: IsLenP2(p2, len) && n == Max(p2 / 16, 4)
  }

  /** Blocks are tried on a case of `len` bytes down to 1/1024 of the length rounded up, but at least 4. */
  ghost predicate IsLargeEnough(n: nat, len: nat) {
    exists p2: nat :: IsLenP2(p2, len) && n >= Max(p2 / 1024, 4)
  }

  /** The rounds of a trimming that starts on `start`: `sizes` are their block sizes, and `cases` what each of them
      starts on, followed by what the last one leaves unless it is still under way. Sizes halve from the first one on,
      and each is large enough for the case as it is then. */
  ghost predicate Rounds(target: Input -> Run, cksum: int, start: Input, cases: seq<Input>, sizes: seq<nat>) {
    && |sizes| <= |cases| <= |sizes| + 1 && cases != [] && cases[0] == start
    && (forall k :: 0 <= k < |cases| - 1 ==> cases[k + 1] == AfterRound(target, cksum, cases[k], sizes[k], sizes[k]))
    && (forall k :: 0 <= k < |sizes| ==> IsLargeEnough(sizes[k], |cases[k]|))
    && (sizes != [] ==> IsFirstSize(sizes[0], |start|))
    && (forall k :: 0 < k < |sizes| ==> sizes[k] == sizes[k - 1] / 2)
  }

  /** `n` is the block size that comes next. */
  ghost predicate IsNext(n: nat, start: Input, sizes: seq<nat>) {
    if sizes == [] then IsFirstSize(n, |start|) else n == sizes[|sizes| - 1] / 2
  }

  /** All candidates that the rounds run. */
  ghost function AllRuns(target: Input -> Run, cksum: int, cases: seq<Input>, sizes: seq<nat>): seq<Input>
    requires |sizes| <= |cases|
  {
    if sizes == [] then []
    else
      var k := |sizes| - 1;
      AllRuns(target, cksum, cases[..k], sizes[..k]) + RoundRuns(target, cksum, cases[k], sizes[k], sizes[k])
  }

  lemma {:induction false} OneMoreRound(target: Input -> Run, cksum: int, cases: seq<Input>, sizes: seq<nat>, n: nat,
                                        next: Input)
    requires |cases| == |sizes| + 1
    ensures AllRuns(target, cksum, cases, sizes + [n])
         == AllRuns(target, cksum, cases, sizes) + RoundRuns(target, cksum, cases[|sizes|], n, n)
    ensures AllRuns(target, cksum, cases + [next], sizes + [n]) == AllRuns(target, cksum, cases, sizes + [n])
  {
    var k := |sizes|;
    assert (sizes + [n])[..k] == sizes && (cases + [next])[..k] == cases[..k];
    SameFirstCases(target, cksum, cases, cases[..k], sizes);
  }

  lemma {:induction false} OneMoreSize(target: Input -> Run, cksum: int, start: Input, cases: seq<Input>,
                                       sizes: seq<nat>, n: nat)
    requires Rounds(target, cksum, start, cases, sizes) && |cases| == |sizes| + 1
    requires IsNext(n, start, sizes) && IsLargeEnough(n, |cases[|sizes|]|)
    ensures Rounds(target, cksum, start, cases, sizes + [n]) && IsNext(n / 2, start, sizes + [n])
  {
    var sizes' := sizes + [n];
    assert forall k :: 0 <= k < |sizes| ==> sizes'[k] == sizes[k];
    assert sizes'[|sizes|] == n;
  }

  lemma {:induction false} OneMoreCase(target: Input -> Run, cksum: int, start: Input, cases: seq<Input>,
                                       sizes: seq<nat>, next: Input)
    requires Rounds(target, cksum, start, cases, sizes) && |cases| == |sizes| > 0
    requires var n := sizes[|sizes| - 1]; next == AfterRound(target, cksum, cases[|sizes| - 1], n, n)
    ensures Rounds(target, cksum, start, cases + [next], sizes)
  {
    var cases' := cases + [next];
    assert forall k :: 0 <= k < |cases| ==> cases'[k] == cases[k];
    assert cases'[|cases|] == next;
  }

  lemma {:induction false} SameFirstCases(target: Input -> Run, cksum: int, a: seq<Input>, b: seq<Input>,
                                          sizes: seq<nat>)
    requires |sizes| <= |a| && |sizes| <= |b| && a[..|sizes|] == b[..|sizes|]
    ensures AllRuns(target, cksum, a, sizes) == AllRuns(target, cksum, b, sizes)
    decreases sizes
  {
    if sizes != [] {
      var k := |sizes| - 1;
      assert a[k] == a[..|sizes|][k] == b[..|sizes|][k] == b[k];
      assert a[..k] == a[..|sizes|][..k] == b[..|sizes|][..k] == b[..k];
    }
  }

  lemma {:induction false} SmallOrMultiple(k: nat)
    ensures Pow2(k) <= 512 || exists q: nat :: Pow2(k) == 1024 * q
  {
    if k > 9 {
      Pow2Splits(k - 10);
    } else {
      Pow2Monotone(k, 9);
    }
  }

  lemma {:induction false} Pow2Splits(k: nat)
    ensures Pow2(k + 10) == 1024 * Pow2(k)
  {
    if k > 0 {
      Pow2Splits(k - 1);
    } else {
      assert Pow2(4) == 16;
      assert Pow2(8) == 256;
    }
  }

  /** The loop condition bounds the number of blocks of a round. */
  lemma RoundIsShort(len: nat, n: nat)
    requires IsLargeEnough(n, len)
    ensures len <= 1024 * n
  {
    var p2: nat :| IsLenP2(p2, len) && n >= Max(p2 / 1024, 4);
    var k: nat :| p2 == Pow2(k);
    SmallOrMultiple(k);
  }

  lemma {:induction false} ShortRounds(target: Input -> Run, cksum: int, start: Input, cases: seq<Input>,
                                       sizes: seq<nat>)
    requires Rounds(target, cksum, start, cases, sizes)
    ensures forall k :: 0 <= k < |sizes| ==> |RoundRuns(target, cksum, cases[k], sizes[k], sizes[k])| <= 1023
  {
    forall k | 0 <= k < |sizes|
      ensures |RoundRuns(target, cksum, cases[k], sizes[k], sizes[k])| <= 1023
    {
      RoundIsShort(|cases[k]|, sizes[k]);
      RunsBound(target, cksum, cases[k], sizes[k]);
    }
  }

  /** Dividing by a power of two and then by two is dividing by the next power. */
  lemma HalfAgain(a: nat, p: nat)
    requires p > 0
    ensures a / p / 2 == a / (2 * p)
  {
    var q, r := a / p, a % p;
    var h, b := q / 2, q % 2;
    assert a == p * q + r && q == 2 * h + b;
    assert p * q == (2 * p) * h + p * b;
    RemainderIs(a, 2 * p, h, p * b + r);
  }

  /** If nothing is removed, all rounds see the case as it was. */
  lemma {:induction false} IdleRounds(target: Input -> Run, cksum: int, start: Input, cases: seq<Input>,
                                      sizes: seq<nat>,
                                      k: nat)
    requires Rounds(target, cksum, start, cases, sizes) && |cases| == |sizes| + 1
    requires k < |cases| && |cases[k]| == |start|
    ensures forall j :: 0 <= j <= k ==> cases[j] == start
    ensures forall j :: 0 <= j < k ==> BlocksNeeded(target, cksum, start, sizes[j])
    decreases k
  {
    if k > 0 {
      CasesShrink(target, cksum, start, cases, sizes, k - 1);
      IdleRounds(target, cksum, start, cases, sizes, k - 1);
      assert IsLargeEnough(sizes[k - 1], |cases[k - 1]|);
      IdleRound(target, cksum, start, sizes[k - 1]);
    }
  }

  lemma {:induction false} CasesShrink(target: Input -> Run, cksum: int, start: Input, cases: seq<Input>,
                                       sizes: seq<nat>, k: nat)
    requires Rounds(target, cksum, start, cases, sizes) && k < |cases|
    ensures |cases[k]| <= |start| && (k < |cases| - 1 ==> |cases[k + 1]| <= |cases[k]|)
    decreases k
  {
    if k > 0 {
      CasesShrink(target, cksum, start, cases, sizes, k - 1);
    }
  }

  lemma {:induction false} SizesHalve(target: Input -> Run, cksum: int, start: Input, cases: seq<Input>,
                                      sizes: seq<nat>,
                                      first: nat, k: nat)
    requires Rounds(target, cksum, start, cases, sizes) && IsFirstSize(first, |start|) && k <= |sizes|
    ensures k < |sizes| ==> sizes[k] == first / Pow2(k)
    ensures 0 < k == |sizes| ==> sizes[k - 1] / 2 == first / Pow2(k)
    decreases k
  {
    FirstSizeIsUnique(|start|, first, if sizes == [] then first else sizes[0]);
    if k > 0 {
      SizesHalve(target, cksum, start, cases, sizes, first, k - 1);
      NextIsHalf(first, k - 1);
    }
  }

  lemma FirstSizeIsUnique(len: nat, m: nat, n: nat)
    requires IsFirstSize(m, len) && IsFirstSize(n, len)
    ensures m == n
  {
    var p: nat :| IsLenP2(p, len) && m == Max(p / 16, 4);
    var q: nat :| IsLenP2(q, len) && n == Max(q / 16, 4);
    LenP2IsUnique(p, q, len);
  }

  lemma {:induction false} SmallerLater(a: nat, m: nat, k: nat)
    ensures m <= k ==> a / Pow2(k) <= a / Pow2(m)
    decreases k
  {
    if m < k {
      SmallerLater(a, m, k - 1);
      NextIsHalf(a, k - 1);
    }
  }

  lemma NextIsHalf(a: nat, k: nat)
    ensures a / Pow2(k + 1) == a / Pow2(k) / 2
  {
    HalfAgain(a, Pow2(k));
  }

  lemma FirstIsLarge(len: nat, n: nat)
    ensures IsFirstSize(n, len) ==> IsLargeEnough(n, len)
  {
  }

  /** If nothing is removed, then no block can be, for any size that is 1/16 of the length rounded up (or 4), halved any
      number of times, and no less than 1/1024 of the length rounded up (or 4). */
  lemma {:induction false} NoSizeIsLeft(target: Input -> Run, cksum: int, start: Input, cases: seq<Input>,
                                        sizes: seq<nat>, next: nat, p2: nat, k: nat)
    requires Rounds(target, cksum, start, cases, sizes) && |cases| == |sizes| + 1 && |cases[|sizes|]| == |start|
    requires IsNext(next, start, sizes) && !IsLargeEnough(next, |start|)
    requires IsLenP2(p2, |start|) && Max(p2 / 16, 4) / Pow2(k) >= Max(p2 / 1024, 4)
    ensures BlocksNeeded(target, cksum, start, Max(p2 / 16, 4) / Pow2(k))
  {
    var first := Max(p2 / 16, 4);
    assert IsFirstSize(first, |start|);
    FirstIsLarge(|start|, next);
    SizesHalve(target, cksum, start, cases, sizes, first, |sizes|);
    SmallerLater(first, |sizes|, k);
    assert next < Max(p2 / 1024, 4);
    SizesHalve(target, cksum, start, cases, sizes, first, k);
    IdleRounds(target, cksum, start, cases, sizes, |sizes|);
  }

  class Trimmer {
    const target: Input -> Run
    const stops: nat -> bool // the user interrupts during the n-th run
    const execCksum: int
    const inBuf: array<Byte>
    var len: nat
    var trimExecs: nat
    var needsWrite: bool
    var file: Input // the queue file on disk
    ghost const original: Input
    ghost var origin: seq<nat>
    ghost var runs: seq<Input> // the candidates run so far

    ghost predicate Sized()
      reads this
    {
      len <= inBuf.Length && |runs| == trimExecs
    }

    /** Run number `k` asks to give up: the user interrupts, or the target cannot be executed. */
    ghost predicate Asks(runs: seq<Input>, k: nat)
      requires k < |runs|
    {
      stops(k) || target(runs[k]).error
    }

    /** Of the runs made since `before`, only the last one may have asked to give up, and `aborted` tells whether it
        did. */
    ghost predicate EndsWith(before: seq<Input>, runs: seq<Input>, aborted: bool) {
      && before <= runs
      && (forall k :: |before| <= k < |runs| - 1 ==> !Asks(runs, k))
      && (aborted <==> |before| < |runs| && Asks(runs, |runs| - 1))
    }

    lemma RunsGoOn(a: seq<Input>, b: seq<Input>, c: seq<Input>, aborted: bool)
      requires EndsWith(a, b, false) && EndsWith(b, c, aborted)
      ensures EndsWith(a, c, aborted)
    {
      forall k | |a| <= k < |c| - 1
        ensures !Asks(c, k)
      {
        if k < |b| {
          assert !Asks(b, k);
        }
      }
      if |b| == |c| {
        assert b == c;
      }
    }

    ghost function Contents(): Input
      requires Sized()
      reads this, inBuf
    {
      inBuf[..len]
    }

    ghost predicate Valid()
      reads this, inBuf
    {
      && Sized() && file == original && KeepsOrder(original, origin, Contents())
      && (if needsWrite then target(Contents()).cksum == execCksum && len < |original| else Contents() == original)
    }

    constructor (input: Input, target: Input -> Run, stops: nat -> bool, execCksum: int)
      ensures Sized() && Contents() == original == file == input && fresh(inBuf) && !needsWrite && trimExecs == 0
      ensures this.target == target && this.stops == stops && this.execCksum == execCksum
      ensures |input| >= 4 ==> Valid()
    {
      this.target, this.stops, this.execCksum := target, stops, execCksum;
      original, file, origin, runs := input, input, seq(|input|, k => k), [];
      inBuf := new Byte[|input|](k requires 0 <= k < |input| => input[k]);
      len, trimExecs, needsWrite := |input|, 0, false;
      new;
      assert inBuf[..len] == input;
    }

    /** The tail moves over the removed block. */
    method CloseGap(at: nat, n: nat)
      requires Sized() && at + n <= len
      modifies inBuf
      ensures inBuf[..len - n] == Without(old(Contents()), at, n)
    {
      MoveDown(inBuf, at, at + n, len - at - n);
    }

    /** Removes a block for good. */
    method Remove(at: nat, n: nat)
      requires Valid() && 4 <= at < len && 0 < n <= len - at
      requires target(Without(Contents(), at, n)).cksum == execCksum
      modifies this`len, this`needsWrite, this`origin, inBuf
      ensures Valid() && needsWrite && Contents() == Without(old(Contents()), at, n)
    {
      ghost var shorter := Without(Contents(), at, n);
      RemovalKeepsOrder(original, origin, Contents(), at, n);
      CloseGap(at, n);
      len := len - n;
      origin := Without(origin, at, n);
      needsWrite := true;
      assert Contents() == shorter;
    }

    /** Runs the case without one block: `write_with_gap` and `run_target`. */
    method RunWithout(at: nat, n: nat) returns (run: Run, aborted: bool)
      requires Sized() && at + n <= len
      modifies this`trimExecs, this`runs
      ensures Sized() && run == target(Without(Contents(), at, n))
      ensures runs == old(runs) + [Without(Contents(), at, n)] && EndsWith(old(runs), runs, aborted)
    {
      run := target(Without(inBuf[..len], at, n));
      aborted := stops(trimExecs) || run.error;
      trimExecs := trimExecs + 1;
      runs := runs + [Without(inBuf[..len], at, n)];
    }

    /** Runs the case without one block; removes the block for good if the checksum stays. */
    method TryRemove(at: nat, n: nat) returns (removed: bool, aborted: bool)
      requires Valid() && 4 <= at < len && 0 < n <= len - at
      modifies this`len, this`trimExecs, this`runs, this`needsWrite, this`origin, inBuf
      ensures Valid() && runs == old(runs) + [Without(old(Contents()), at, n)] && EndsWith(old(runs), runs, aborted)
      ensures removed == (!aborted && target(Without(old(Contents()), at, n)).cksum == execCksum)
      ensures Contents() == if removed then Without(old(Contents()), at, n) else old(Contents())
      ensures needsWrite == (old(needsWrite) || removed)
    {
      var run;
      run, aborted := RunWithout(at, n);
      removed := !aborted && run.cksum == execCksum;
      if removed {
        Remove(at, n);
      }
    }

    /** What is left of a round: the case and the runs still to come, given the whole of both. */
    ghost predicate Underway(removePos: nat, removeLen: nat, all: seq<Input>, end: Input)
      reads this, inBuf
    {
      && Valid()
      && AfterRound(target, execCksum, Contents(), removePos, removeLen) == end
      && runs + RoundRuns(target, execCksum, Contents(), removePos, removeLen) == all
    }

    /** Tries to remove the block at `removePos`, cut short by the end. */
    method RoundStep(removePos: nat, removeLen: nat, ghost all: seq<Input>, ghost end: Input)
      returns (removed: bool, aborted: bool)
      requires Underway(removePos, removeLen, all, end) && TRIM_MIN_BYTES <= removeLen <= removePos < len
      modifies this`len, this`trimExecs, this`runs, this`needsWrite, this`origin, inBuf
      ensures Valid() && EndsWith(old(runs), runs, aborted) && runs <= all
      ensures !aborted ==> Underway(if removed then removePos else removePos + removeLen, removeLen, all, end)
      ensures if removed then !aborted && len < old(len) && needsWrite
              else Contents() == old(Contents()) && len == old(len) && needsWrite == old(needsWrite)
    {
      var trimAvail := Min(removeLen, len - removePos);
      ghost var cur, prior := Contents(), runs;
      assert Without(cur, removePos, trimAvail) == Without(cur, removePos, removeLen);
      removed, aborted := TryRemove(removePos, trimAvail);
      ghost var rest := RoundRuns(target, execCksum, cur, removePos, removeLen);
      assert rest == [rest[0]] + rest[1..];
      Regroup(prior, rest[0], rest[1..]);
    }

    static lemma Regroup(a: seq<Input>, b: Input, c: seq<Input>)
      ensures a + ([b] + c) == (a + [b]) + c
    {
    }

    /** One round with a fixed block size: unless it is given up it makes of the case what `AfterRound` says, with the
        runs that `RoundRuns` lists. It is given up exactly if its last run, and none before it, asked for that; then
        its runs are the first ones of the list, and from some position on the round would have come to the same end. */
    method TrimRound(removeLen: nat) returns (aborted: bool)
      requires Valid() && removeLen >= TRIM_MIN_BYTES
      modifies this`len, this`trimExecs, this`runs, this`needsWrite, this`origin, inBuf
      ensures Valid() && EndsWith(old(runs), runs, aborted)
      ensures var end := AfterRound(target, execCksum, old(Contents()), removeLen, removeLen);
              if !aborted then Contents() == end
              else exists pos :: AfterRound(target, execCksum, Contents(), pos, removeLen) == end
      ensures var list := RoundRuns(target, execCksum, old(Contents()), removeLen, removeLen);
              if !aborted then runs == old(runs) + list else runs <= old(runs) + list
      ensures len <= old(len)
      ensures if len == old(len) then Contents() == old(Contents()) && needsWrite == old(needsWrite) else needsWrite
      ensures !aborted && len == old(len) ==> BlocksNeeded(target, execCksum, Contents(), removeLen)
    {
      var removePos := removeLen;
      ghost var start, before := Contents(), runs;
      ghost var end := AfterRound(target, execCksum, start, removePos, removeLen);
      ghost var all := runs + RoundRuns(target, execCksum, start, removePos, removeLen);
      while removePos < len
        invariant removeLen <= removePos && Underway(removePos, removeLen, all, end) && EndsWith(before, runs, false)
        invariant len <= |start|
        invariant if len == |start| then Contents() == start && needsWrite == old(needsWrite) else needsWrite
        decreases len - removePos
      {
        var removed;
        ghost var prior, cur := runs, Contents();
        removed, aborted := RoundStep(removePos, removeLen, all, end);
        RunsGoOn(before, prior, runs, aborted);
        if aborted {
          assert AfterRound(target, execCksum, Contents(), removePos, removeLen) == end;
          return;
        }
        if !removed {
          removePos := removePos + removeLen;
        }
      }
      aborted := false;
      if len == old(len) {
        IdleRound(target, execCksum, start, removeLen);
      }
    }

    /** Between two rounds: `lenP2` is the length rounded up, and `next` the block size to come. */
    ghost predicate Trimming(before: seq<Input>, cases: seq<Input>, sizes: seq<nat>, lenP2: nat, next: nat)
      reads this, inBuf
    {
      && Valid() && IsLenP2(lenP2, len) && EndsWith(before, runs, false)
      && Rounds(target, execCksum, original, cases, sizes) && |cases| == |sizes| + 1 && cases[|sizes|] == Contents()
      && IsNext(next, original, sizes) && runs == before + AllRuns(target, execCksum, cases, sizes)
    }

    /** A trimming that was given up in its last round. */
    ghost predicate GivenUp(before: seq<Input>, cases: seq<Input>, sizes: seq<nat>)
      reads this, inBuf
    {
      && Valid() && EndsWith(before, runs, true)
      && Rounds(target, execCksum, original, cases, sizes) && |cases| == |sizes| > 0
      && runs <= before + AllRuns(target, execCksum, cases, sizes)
      && var k := |sizes| - 1;
         exists pos :: AfterRound(target, execCksum, Contents(), pos, sizes[k])
                    == AfterRound(target, execCksum, cases[k], sizes[k], sizes[k])
    }

    /** A trimming that came to its end: the next block size would be too small. */
    ghost predicate Completed(before: seq<Input>, cases: seq<Input>, sizes: seq<nat>)
      requires Sized()
      reads this, inBuf
    {
      && Rounds(target, execCksum, original, cases, sizes) && |cases| == |sizes| + 1 && cases[|sizes|] == Contents()
      && runs == before + AllRuns(target, execCksum, cases, sizes)
      && exists next :: IsNext(next, original, sizes) && !IsLargeEnough(next, len)
    }

    /** No block after the first can be removed, for any size that is 1/16 of the length rounded up, or 4, halved any
        number of times, as long as it is no less than 1/1024 of the length rounded up, or 4. */
    ghost predicate NothingToRemove(s: Input) {
      forall p2: nat, k: nat {:trigger IsLenP2(p2, |s|), Pow2(k)} ::
        IsLenP2(p2, |s|) && Max(p2 / 16, 4) / Pow2(k) >= Max(p2 / 1024, 4)
        ==> BlocksNeeded(target, execCksum, s, Max(p2 / 16, 4) / Pow2(k))
    }

    lemma TrimmingEnds(before: seq<Input>, cases: seq<Input>, sizes: seq<nat>, lenP2: nat, next: nat)
      requires Trimming(before, cases, sizes, lenP2, next) && next < Max(lenP2 / 1024, 4)
      ensures Completed(before, cases, sizes)
      ensures len == |original| ==> Contents() == original && NothingToRemove(original)
    {
      if IsLargeEnough(next, len) {
        var p2: nat :| IsLenP2(p2, len) && next >= Max(p2 / 1024, 4);
        LenP2IsUnique(p2, lenP2, len);
      }
      if len == |original| {
        IdleRounds(target, execCksum, original, cases, sizes, |sizes|);
        forall p2: nat, k: nat | IsLenP2(p2, len) && Max(p2 / 16, 4) / Pow2(k) >= Max(p2 / 1024, 4)
          ensures BlocksNeeded(target, execCksum, original, Max(p2 / 16, 4) / Pow2(k))
        {
          NoSizeIsLeft(target, execCksum, original, cases, sizes, next, p2, k);
        }
      }
    }

    /** One round, with its record. */
    method NextRound(removeLen: nat, lenP2: nat, ghost before: seq<Input>, ghost cases: seq<Input>,
                     ghost sizes: seq<nat>)
      returns (aborted: bool, lenP2': nat)
      requires Trimming(before, cases, sizes, lenP2, removeLen)
               && removeLen >= Max(lenP2 / TRIM_END_STEPS, TRIM_MIN_BYTES)
      modifies this`len, this`trimExecs, this`runs, this`needsWrite, this`origin, inBuf
      ensures Sized()
      ensures if aborted then GivenUp(before, cases, sizes + [removeLen])
              else Trimming(before, cases + [Contents()], sizes + [removeLen], lenP2', removeLen / 2)
    {
      ghost var prior := runs;
      var beforeLen := len;
      aborted := TrimRound(removeLen);
      RunsGoOn(before, prior, runs, aborted);
      RecordRound(before, prior, cases, sizes, removeLen, lenP2, Contents());
      lenP2' := lenP2;
      if len < beforeLen {
        lenP2' := NextP2(len);
      }
    }

    /** The record after one more round. */
    lemma {:induction false} RecordRound(before: seq<Input>, prior: seq<Input>, cases: seq<Input>, sizes: seq<nat>,
                                         n: nat, lenP2: nat, next: Input)
      requires Rounds(target, execCksum, original, cases, sizes) && |cases| == |sizes| + 1 && IsNext(n, original, sizes)
      requires prior == before + AllRuns(target, execCksum, cases, sizes)
      requires IsLenP2(lenP2, |cases[|sizes|]|) && n >= Max(lenP2 / 1024, 4)
      ensures var cur, sizes' := cases[|sizes|], sizes + [n];
              && Rounds(target, execCksum, original, cases, sizes') && IsNext(n / 2, original, sizes')
              && (next == AfterRound(target, execCksum, cur, n, n)
                  ==> Rounds(target, execCksum, original, cases + [next], sizes'))
              && prior + RoundRuns(target, execCksum, cur, n, n) == before + AllRuns(target, execCksum, cases, sizes')
              && AllRuns(target, execCksum, cases, sizes') == AllRuns(target, execCksum, cases + [next], sizes')
    {
      var cur, sizes' := cases[|sizes|], sizes + [n];
      OneMoreSize(target, execCksum, original, cases, sizes, n);
      if next == AfterRound(target, execCksum, cur, n, n) {
        OneMoreCase(target, execCksum, original, cases, sizes', next);
      }
      OneMoreRound(target, execCksum, cases, sizes, n, next);
      Chain(before, AllRuns(target, execCksum, cases, sizes), RoundRuns(target, execCksum, cur, n, n));
    }

    static lemma Chain(a: seq<Input>, b: seq<Input>, c: seq<Input>)
      ensures a + b + c == a + (b + c)
    {
    }

    /** `trim_case`. A case of at least five bytes ends as a subsequence of itself that keeps its first four bytes and,
        if it changed or was right before, has the expected checksum. The rounds made are exactly those of the schedule,
        each does what `AfterRound` says and makes at most 1023 runs, and the last one leaves the case. It is cut short
        exactly if its last run, and none before it, asked for that; otherwise the file on disk follows. If nothing is
        removed, no block of any size of the schedule can be. */
    method TrimCase() returns (aborted: bool, ghost cases: seq<Input>, ghost sizes: seq<nat>)
      requires Sized() && file == original == Contents() && !needsWrite && (len >= 5 ==> Valid())
      modifies this`len, this`trimExecs, this`runs, this`needsWrite, this`origin, this`file, inBuf
      ensures Sized() && EndsWith(old(runs), runs, aborted)
      ensures old(len) < 5 ==> !aborted && Contents() == original == file && runs == old(runs)
      ensures old(len) >= 5 ==> KeepsOrder(original, origin, Contents())
      ensures Contents() != original || target(original).cksum == execCksum ==> target(Contents()).cksum == execCksum
      ensures file == if aborted then original else Contents()
      ensures old(len) >= 5 ==>
                if aborted then GivenUp(old(runs), cases, sizes)
                else Completed(old(runs), cases, sizes)
      ensures |sizes| <= |cases| && (old(len) < 5 ==> sizes == [])
      ensures forall k :: 0 <= k < |sizes| ==> |RoundRuns(target, execCksum, cases[k], sizes[k], sizes[k])| <= 1023
      ensures !aborted && old(len) >= 5 && Contents() == original ==> NothingToRemove(original)
    {
      aborted, cases, sizes := false, [Contents()], [];
      if len < 5 {
        return;
      }
      var lenP2: nat := NextP2(len);
      var removeLen: nat := Max(lenP2 / TRIM_START_STEPS, TRIM_MIN_BYTES);
      ghost var before := runs;
      while removeLen >= Max(lenP2 / TRIM_END_STEPS, TRIM_MIN_BYTES)
        invariant Trimming(before, cases, sizes, lenP2, removeLen)
        decreases removeLen
      {
        aborted, lenP2 := NextRound(removeLen, lenP2, before, cases, sizes);
        sizes := sizes + [removeLen];
        if aborted {
          ShortRounds(target, execCksum, original, cases, sizes);
          return;
        }
        cases := cases + [Contents()];
        removeLen := removeLen / 2;
      }
      ShortRounds(target, execCksum, original, cases, sizes);
      TrimmingEnds(before, cases, sizes, lenP2, removeLen);
      if needsWrite {
        file := inBuf[..len];
      }
    }
  }
}
