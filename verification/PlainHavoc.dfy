/** The havoc and splicing stages of afl-fuzz: how long they run and how large their test cases get. */
module PlainHavoc {
  import opened Bytes
  import opened Mutators

  const HAVOC_CYCLES := 256
  const HAVOC_CYCLES_INIT := 1024
  const HAVOC_MAX_MULT := 16
  const HAVOC_MIN := 16
  const HAVOC_STACK_POW2 := 7
  const SPLICE_CYCLES := 15
  const SPLICE_HAVOC := 32

  // ----- the performance score -----

  /** The share that an entry gets for its speed, in percent: the faster it is than the average, the larger. */
  ghost function SpeedPercent(execUs: nat, avg: nat): nat {
    if execUs > 10 * avg then 10
    else if execUs > 4 * avg then 25
    else if execUs > 2 * avg then 50
    else if 3 * execUs > 4 * avg then 75
    else if 4 * execUs < avg then 300
    else if 3 * execUs < avg then 200
    else if 2 * execUs < avg then 150
    else 100
  }

  /** That share times 3, 2, 3/2, 1, 3/4, 1/2 or 1/4 for the size of the trace: the larger it is than the average, the
      larger. Fractions are cut off. */
  ghost function SizedShare(score: nat, size: nat, avg: nat): nat {
    if 3 * size > 10 * avg then 3 * score
    else if size > 2 * avg then 2 * score
    else if 3 * size > 4 * avg then 3 * score / 2
    else if 3 * size < avg then score / 4
    else if 2 * size < avg then score / 2
    else if 3 * size < 2 * avg then 3 * score / 4
    else score
  }

  /** Deeper entries count up to five times. */
  ghost function DepthTimes(depth: nat): nat {
    if depth <= 3 then 1 else if depth <= 7 then 2 else if depth <= 13 then 3 else if depth <= 25 then 4 else 5
  }

  /** Latecomers count two or four times. */
  ghost function HandicapTimes(handicap: nat): nat {
    if handicap >= 4 then 4 else if handicap > 0 then 2 else 1
  }

  /** What `calculate_score` reads of an entry. */
  datatype Rated = Rated(execUs: nat, bitmapSize: nat, handicap: nat, depth: nat)

  ghost function Score(e: Rated, avgUs: nat, avgSize: nat): nat {
    Min(SizedShare(SpeedPercent(e.execUs, avgUs), e.bitmapSize, avgSize) * HandicapTimes(e.handicap)
        * DepthTimes(e.depth), 1600)
  }

  lemma MoreOfMore(a: nat, b: nat, c: nat, d: nat)
    requires a <= c && b <= d
    ensures a * b <= c * d
  {
    assert a * b <= a * d <= c * d;
  }

  lemma SharesAreMonotone(score: nat, score': nat, size: nat, size': nat, avg: nat)
    requires score <= score' && size <= size'
    ensures SizedShare(score, size, avg) <= SizedShare(score', size', avg)
  {
  }

  /** An entry that is no slower, no smaller in coverage, no less deep and no less of a latecomer never scores less; and
      every score lies between 2 and 1600. */
  lemma ScoreIsMonotone(e: Rated, f: Rated, avgUs: nat, avgSize: nat)
    requires f.execUs <= e.execUs && e.bitmapSize <= f.bitmapSize && e.handicap <= f.handicap && e.depth <= f.depth
    ensures 2 <= Score(e, avgUs, avgSize) <= Score(f, avgUs, avgSize) <= 1600
  {
    var a, b := SpeedPercent(e.execUs, avgUs), SpeedPercent(f.execUs, avgUs);
    var c, d := SizedShare(a, e.bitmapSize, avgSize), SizedShare(b, f.bitmapSize, avgSize);
    SharesAreMonotone(a, b, e.bitmapSize, f.bitmapSize, avgSize);
    MoreOfMore(c, HandicapTimes(e.handicap), d, HandicapTimes(f.handicap));
    MoreOfMore(c * HandicapTimes(e.handicap), DepthTimes(e.depth), d * HandicapTimes(f.handicap), DepthTimes(f.depth));
    MoreOfMore(2, 1, c, HandicapTimes(e.handicap));
    MoreOfMore(2, 1, c * HandicapTimes(e.handicap), DepthTimes(e.depth));
  }

  /** The first comparisons of `calculate_score`, on exact numbers. */
  method RateSpeed(execUs: nat, avg: nat) returns (score: nat)
    ensures score == SpeedPercent(execUs, avg)
  {
    var us, avgExecUs := execUs as real, avg as real;
    score := 100;
    if us * 0.1 > avgExecUs {
      score := 10;
    } else if us * 0.25 > avgExecUs {
      score := 25;
    } else if us * 0.5 > avgExecUs {
      score := 50;
    } else if us * 0.75 > avgExecUs {
      score := 75;
    } else if us * 4.0 < avgExecUs {
      score := 300;
    } else if us * 3.0 < avgExecUs {
      score := 200;
    } else if us * 2.0 < avgExecUs {
      score := 150;
    }
  }

  /** `score *= factor` on an unsigned number. */
  method Scale(score: nat, factor: real) returns (r: nat)
    requires factor >= 0.0
    ensures r == (score as real * factor).Floor
  {
    var x := score as real * factor;
    r := x.Floor;
  }

  method RateSize(score: nat, size: nat, avg: nat) returns (r: nat)
    ensures r == SizedShare(score, size, avg)
  {
    var bits, avgSize := size as real, avg as real;
    r := score;
    if bits * 0.3 > avgSize {
      r := score * 3;
    } else if bits * 0.5 > avgSize {
      r := score * 2;
    } else if bits * 0.75 > avgSize {
      r := Scale(score, 1.5);
    } else if bits * 3.0 < avgSize {
      r := Scale(score, 0.25);
    } else if bits * 2.0 < avgSize {
      r := Scale(score, 0.5);
    } else if bits * 1.5 < avgSize {
      r := Scale(score, 0.75);
    }
  }

  method RateHandicap(score: nat, handicap: nat) returns (r: nat, left: nat)
    ensures r == score * HandicapTimes(handicap)
    ensures left == if handicap >= 4 then handicap - 4 else if handicap > 0 then handicap - 1 else 0
  {
    r, left := score, handicap;
    if handicap >= 4 {
      r, left := score * 4, handicap - 4;
    } else if handicap > 0 {
      r, left := score * 2, handicap - 1;
    }
  }

  method RateDepth(score: nat, depth: nat) returns (r: nat)
    ensures r == score * DepthTimes(depth)
  {
    r := score;
    if 4 <= depth <= 7 {
      r := score * 2;
    } else if 8 <= depth <= 13 {
      r := score * 3;
    } else if 14 <= depth <= 25 {
      r := score * 4;
    } else if depth > 25 {
      r := score * 5;
    }
  }

  /** `calculate_score`: the score and the handicap that remains. */
  method CalculateScore(e: Rated, avgUs: nat, avgSize: nat) returns (score: nat, handicap: nat)
    ensures score == Score(e, avgUs, avgSize) && 2 <= score <= 1600
    ensures handicap == if e.handicap >= 4 then e.handicap - 4 else if e.handicap > 0 then e.handicap - 1 else 0
  {
    score := RateSpeed(e.execUs, avgUs);
    score := RateSize(score, e.bitmapSize, avgSize);
    score, handicap := RateHandicap(score, e.handicap);
    score := RateDepth(score, e.depth);
    if score > HAVOC_MAX_MULT * 100 {
      score := HAVOC_MAX_MULT * 100;
    }
    ScoreIsMonotone(e, e, avgUs, avgSize);
  }

  // ----- how long a stage is planned -----

  /** The runs that a havoc stage is planned for. */
  ghost function Planned(doingDet: bool, splicing: bool, score: nat, havocDiv: nat): nat
    requires havocDiv > 0
  {
    if splicing then Max(16, 32 * score / havocDiv / 100)
    else if doingDet then Max(16, 1024 * score / havocDiv / 100)
    else Max(16, 256 * score / havocDiv / 100)
  }

  method PlanStage(doingDet: bool, splicing: bool, score: nat, havocDiv: nat) returns (stageMax: nat)
    requires 2 <= score <= 1600 && havocDiv > 0
    ensures stageMax == Planned(doingDet, splicing, score, havocDiv)
    ensures 16 <= stageMax && 100 * stageMax <= HAVOC_CYCLES_INIT * score
  {
    var base := if splicing then SPLICE_HAVOC else if doingDet then HAVOC_CYCLES_INIT else HAVOC_CYCLES;
    StageIsBounded(base, score, havocDiv);
    stageMax := base * score / havocDiv / 100;
    if stageMax < HAVOC_MIN {
      stageMax := HAVOC_MIN;
    }
  }

  // ----- splicing -----

  /** `locate_diffs`: the first and the last position where two buffers differ, -1 if there is none. */
  method LocateDiffs(a: Input, b: Input, len: nat) returns (first: int, last: int)
    requires len <= |a| && len <= |b|
    ensures -1 <= first <= last < len && (first == -1 <==> last == -1)
    ensures first == -1 <==> a[..len] == b[..len]
    ensures first >= 0 ==> a[first] != b[first] && a[last] != b[last]
    ensures forall k :: 0 <= k < len && a[k] != b[k] ==> first <= k <= last
  {
    first, last := -1, -1;
    for pos := 0 to len
      invariant -1 <= first <= last < pos && (first == -1 <==> last == -1)
      invariant first >= 0 ==> a[first] != b[first] && a[last] != b[last]
      invariant forall k :: 0 <= k < pos && a[k] != b[k] ==> first <= k <= last && first >= 0
    {
      if a[pos] != b[pos] {
        if first == -1 {
          first := pos;
        }
        last := pos;
      }
    }
  }

  ghost predicate InFileLimits(s: Input) {
    1 <= |s| <= MAX_FILE
  }

  // ----- what a tweak does -----

  /** Bit `bit` has been flipped. */
  ghost predicate FlippedAt(before: Input, after: Input, bit: nat) {
    bit < 8 * |before| && after == before[bit / 8 := FlipBit(before[bit / 8], bit % 8)]
  }

  /** The number at `at`, and nothing else, has been tweaked. */
  ghost predicate TweakedAt(c: nat, before: Input, after: Input, at: nat) {
    var w := WidthOf(c);
    && |after| == |before| && at + w <= |before| && IsTweakOf(c, before[at..at + w], after[at..at + w])
    && after == Overwrite(before, at, after[at..at + w])
  }

  ghost predicate DeletedAt(cfg: Setup, before: Input, after: Input, at: nat, n: nat) {
    |before| >= 2 && IsBlockLen(n, |before| - 1, cfg) && at + n <= |before| && after == Without(before, at, n)
  }

  ghost predicate InsertedAt(before: Input, after: Input, at: nat, block: Input) {
    at <= |before| && after == Insert(before, at, block)
  }

  ghost predicate OverwrittenAt(before: Input, after: Input, at: nat, block: Input) {
    at + |block| <= |before| && after == Overwrite(before, at, block)
  }

  /** What the havoc case of number `c` does. */
  ghost predicate Effect(cfg: Setup, c: nat, before: Input, after: Input) {
    if c == 0 then exists bit :: FlippedAt(before, after, bit)
    else if c <= 10 then
      if |before| >= WidthOf(c) then exists at :: TweakedAt(c, before, after, at) else after == before
    else if c <= 12 then
      if |before| >= 2 then exists at, n :: DeletedAt(cfg, before, after, at, n) else after == before
    else if c == 13 then BlockCloned(cfg, before, after)
    else if c == 14 then BlockCopied(cfg, before, after)
    else if c == 15 then
      || (exists at, token :: OverwrittenAt(before, after, at, token) && IsToken(cfg.dict, token))
      || (after == before && exists token :: IsToken(cfg.dict, token) && |token| > |before|)
    else
      || (exists at, token :: InsertedAt(before, after, at, token) && IsToken(cfg.dict, token))
      || (after == before && exists token :: IsToken(cfg.dict, token) && |before| + |token| >= MAX_FILE)
  }

  ghost predicate ClonedAt(cfg: Setup, before: Input, after: Input, at: nat, block: Input) {
    at < |before| && InsertedAt(before, after, at, block) && IsClone(block, before, 32768, cfg)
  }

  ghost predicate BlockCloned(cfg: Setup, before: Input, after: Input) {
    if |before| + 32768 < MAX_FILE then exists at, block :: ClonedAt(cfg, before, after, at, block)
    else after == before
  }

  ghost predicate BlockCopied(cfg: Setup, before: Input, after: Input) {
    if |before| >= 2 then exists at, block :: OverwrittenAt(before, after, at, block) && IsCopy(block, before, cfg)
    else after == before
  }

  /** `bufs` are the buffers that a stack of tweaks goes through. */
  ghost predicate IsStack(cfg: Setup, cases: seq<nat>, bufs: seq<Input>) {
    && |bufs| == |cases| + 1
    && forall k :: 0 <= k < |cases| ==> cases[k] <= 16 && Effect(cfg, cases[k], bufs[k], bufs[k + 1])
  }

  /** `outBuf` is what a stack of 2, 4, ..., 128 tweaks makes of `inBuf`. */
  ghost predicate IsStacked(cfg: Setup, inBuf: Input, outBuf: Input, cases: seq<nat>, bufs: seq<Input>) {
    && IsStack(cfg, cases, bufs) && bufs[0] == inBuf && bufs[|cases|] == outBuf
    && exists pow: nat :: 1 <= pow <= 7 && |cases| == Pow2(pow)
  }

  ghost predicate IsTweaked(cfg: Setup, inBuf: Input, outBuf: Input) {
    exists cases, bufs :: IsStacked(cfg, inBuf, outBuf, cases, bufs)
  }

  /** Every run from number `from` on is on a buffer that a stack of tweaks makes of `inBuf`. */
  ghost predicate AllStacked(cfg: Setup, inBuf: Input, runs: seq<Input>, from: nat) {
    forall k :: from <= k < |runs| ==> IsTweaked(cfg, inBuf, runs[k])
  }

  /** `base` is a head of entry `current` with the tail of entry `k`, cut where the two differ on both sides. */
  ghost predicate IsSplice(queue: seq<Input>, current: nat, k: nat, base: Input) {
    current < |queue| && k < |queue| && k != current && exists at :: IsCutAt(queue[current], queue[k], base, at)
  }

  ghost predicate IsCutAt(inBuf: Input, target: Input, spliced: Input, at: nat) {
    var n := Min(|inBuf|, |target|);
    && at < n && spliced == inBuf[..at] + target[at..]
    && inBuf[..at + 1] != target[..at + 1] && inBuf[at + 1..n] != target[at + 1..n]
  }

  /** Entry `k` can be spliced with the current one. */
  ghost predicate Suits(queue: seq<Input>, current: nat, k: nat)
    requires k < |queue|
  {
    |queue[k]| >= 2 && k != current
  }

  /** Entry `k` is the first one from `drawn` on that can be spliced. */
  ghost predicate IsPartner(queue: seq<Input>, current: nat, drawn: nat, k: nat) {
    drawn <= k < |queue| && Suits(queue, current, k) && forall j :: drawn <= j < k ==> !Suits(queue, current, j)
  }

  /** No two positions where the buffers differ reach position 2. */
  ghost predicate NoCut(a: Input, b: Input) {
    forall j, k :: 0 <= j < k < Min(|a|, |b|) && a[j] != b[j] && a[k] != b[k] ==> k < 2
  }

  /** With entry `drawn` drawn, splicing fails: no entry from there on can be spliced, or the first one that can differs
      too little. */
  ghost predicate Fails(queue: seq<Input>, current: nat, drawn: nat) {
    && current < |queue| && drawn < |queue| && drawn != current
    && ((forall k :: drawn <= k < |queue| ==> !Suits(queue, current, k))
        || exists k: nat :: IsPartner(queue, current, drawn, k) && NoCut(queue[current], queue[k]))
  }

  /** With entry `drawn` drawn, splicing gives `base`. */
  ghost predicate Gives(queue: seq<Input>, current: nat, drawn: nat, base: Input) {
    drawn < |queue| && drawn != current
    && exists k: nat :: IsPartner(queue, current, drawn, k) && IsSplice(queue, current, k, base)
  }

  /** One attempt at splicing: how many entries and runs there were before, which entry was drawn, the result, and how
      many runs were made on it. */
  datatype Attempt = Attempt(known: nat, from: nat, drawn: nat, base: Option<Input>, cycles: nat)

  /** Every attempt starts where the one before ended; the first one after `from` runs, the last one ends after `to`. */
  ghost predicate Consecutive(attempts: seq<Attempt>, from: nat, to: nat) {
    && (forall j, k :: 0 <= j && k == j + 1 < |attempts| ==> attempts[k].from == attempts[j].from + attempts[j].cycles)
    && if attempts == [] then from == to
       else attempts[0].from == from && var last := attempts[|attempts| - 1]; to == last.from + last.cycles
  }

  /** What the random stages of entry `current` start from: the entry, or a splice of it with another one. */
  ghost predicate IsBase(queue: seq<Input>, current: nat, base: Input) {
    (current < |queue| && base == queue[current]) || exists k :: IsSplice(queue, current, k, base)
  }

  ghost predicate ComesFrom(cfg: Setup, queue: seq<Input>, current: nat, buf: Input) {
    exists base :: IsBase(queue, current, base) && IsTweaked(cfg, base, buf)
  }

  /** Every run from number `from` on is on a buffer that a stack of tweaks makes of such a start. */
  ghost predicate AllComeFrom(cfg: Setup, queue: seq<Input>, current: nat, runs: seq<Input>, from: nat) {
    forall k :: from <= k < |runs| ==> ComesFrom(cfg, queue, current, runs[k])
  }

  lemma StillComesFrom(cfg: Setup, queue: seq<Input>, queue': seq<Input>, current: nat, buf: Input)
    requires queue <= queue' && ComesFrom(cfg, queue, current, buf)
    ensures ComesFrom(cfg, queue', current, buf)
  {
    var base :| IsBase(queue, current, base) && IsTweaked(cfg, base, buf);
    if !(current < |queue| && base == queue[current]) {
      var k: nat :| IsSplice(queue, current, k, base);
      assert IsSplice(queue', current, k, base);
    }
    assert IsBase(queue', current, base);
  }

  /** More runs, all made from one start. */
  lemma MoreComeFrom(cfg: Setup, queue: seq<Input>, queue': seq<Input>, current: nat, runs: seq<Input>,
                     runs': seq<Input>, from: nat, base: Input)
    requires queue <= queue' && runs <= runs' && AllComeFrom(cfg, queue, current, runs, from)
             && IsBase(queue, current, base)
    requires AllStacked(cfg, base, runs', |runs|)
    ensures AllComeFrom(cfg, queue', current, runs', from)
  {
    forall k | from <= k < |runs'|
      ensures ComesFrom(cfg, queue', current, runs'[k])
    {
      if k < |runs| {
        assert runs'[k] == runs[k];
      } else {
        assert IsTweaked(cfg, base, runs'[k]);
        assert ComesFrom(cfg, queue, current, runs'[k]);
      }
      StillComesFrom(cfg, queue, queue', current, runs'[k]);
    }
  }

  /** What one turn of the main loop depends on besides the queue. */
  datatype Turn = Turn(
    entry: nat, newCycle: bool, runOver10m: bool, dict: Dictionary, doingDet: bool, useSplicing: bool,
    rated: Rated, avgUs: nat, avgSize: nat, havocDiv: nat)

  /** What happens to the queue in a run. */
  datatype Event =
    | Havoc(turn: Turn)                           // the random stages on an entry
    | Edit(entry: nat, buf: Input)                // a run of a deterministic stage that keeps the length
    | InsertToken(entry: nat, at: nat, token: Input) // a run of the deterministic insertion stage
    | Trim(entry: nat, buf: Input)                // an entry is replaced by a trimmed one
    | Import(buf: Input)                          // a file of another fuzzer is run

  /** What changes in a run. */
  datatype State = State(cfg: Setup, queue: seq<Input>, runs: seq<Input>)

  class Fuzzer {
    /** Whether the n-th run asks to abandon the entry, and whether it shows something new. */
    const stops: nat -> bool
    const keeps: nat -> bool
    var cfg: Setup
    var queue: seq<Input>
    /** The buffers that the target was run on. */
    var runs: seq<Input>

    /** Every queued case, and everything run so far, has between one byte and the file limit. */
    ghost predicate Valid()
      reads this
    {
      && IsSetup(cfg)
      && (forall k :: 0 <= k < |queue| ==> InFileLimits(queue[k]))
      && (forall k :: 0 <= k < |runs| ==> InFileLimits(runs[k]))
    }

    constructor (seeds: seq<Input>, dict: Dictionary, stops: nat -> bool, keeps: nat -> bool)
      requires IsDictionary(dict) && forall k :: 0 <= k < |seeds| ==> InFileLimits(seeds[k])
      ensures Valid() && queue == seeds && runs == [] && this.stops == stops && this.keeps == keeps
    {
      this.cfg, this.stops, this.keeps := Setup(dict, 1, false), stops, keeps;
      queue, runs := seeds, [];
    }

    /** `common_fuzz_stuff`: run a case and queue it if it shows something new. */
    method CommonFuzzStuff(buf: Input) returns (bail: bool)
      requires Valid() && InFileLimits(buf)
      modifies this`queue, this`runs
      ensures Valid() && runs == old(runs) + [buf] && bail == stops(|old(runs)|)
      ensures queue == if keeps(|old(runs)|) then old(queue) + [buf] else old(queue)
    {
      bail := stops(|runs|);
      if keeps(|runs|) {
        queue := queue + [buf];
      }
      runs := runs + [buf];
    }

    /** The runs since number `a` did not ask to abandon the entry. */
    ghost predicate NoneAsked(a: nat, b: int) {
      forall k :: a <= k < b ==> !stops(k)
    }

    /** What a stage that started after `before` has made of runs and queue: `bail` tells whether the last run, and none
        before it, asked to abandon the entry. */
    ghost predicate Progress(before: seq<Input>, queued: seq<Input>, cycles: nat, bail: bool)
      reads this
    {
      && before <= runs && |runs| == |before| + cycles && queued <= queue && |queue| <= |queued| + cycles
      && NoneAsked(|before|, |runs| - 1) && (bail <==> cycles > 0 && stops(|runs| - 1))
    }

    /** One havoc tweak, cases 0 to 16. Every access is inside the buffer, and its length stays within the limits. */
    method Tweak(buf: Input, c: nat) returns (r: Input)
      requires Valid() && InFileLimits(buf) && c < 15 + (if |cfg.dict.extras| + |cfg.dict.autoExtras| > 0 then 2 else 0)
      ensures InFileLimits(r) && Effect(cfg, c, buf, r)
      ensures c <= 10 || c == 14 || c == 15 ==> |r| == |buf|
      ensures c == 11 || c == 12 ==> |r| < |buf| || |buf| == 1
      ensures c == 13 || c == 16 ==> |r| >= |buf|
    {
      r := buf;
      if c == 0 {
        var bit := UR(8 * |buf|);
        r := buf[bit / 8 := FlipBit(buf[bit / 8], bit % 8)];
        assert FlippedAt(buf, r, bit);
      } else if c <= 10 {
        var w := WidthOf(c);
        if |buf| >= w {
          var pos := UR(|buf| - w + 1);
          var block := TweakNumber(c, buf[pos..pos + w]);
          r := Overwrite(buf, pos, block);
          assert r[pos..pos + w] == block;
          assert TweakedAt(c, buf, r, pos);
        }
      } else if c <= 12 {
        if |buf| >= 2 {
          var delLen := ChooseBlockLen(|buf| - 1, cfg);
          var delFrom := UR(|buf| - delLen + 1);
          r := Without(buf, delFrom, delLen);
          assert DeletedAt(cfg, buf, r, delFrom, delLen);
        }
      } else if c == 13 {
        r := CloneBlock(buf);
      } else if c == 14 {
        r := CopyBlock(buf);
      } else if c == 15 {
        var token := PickToken(cfg.dict);
        assert IsToken(cfg.dict, token);
        if |token| <= |buf| {
          var insertAt := UR(|buf| - |token| + 1);
          r := Overwrite(buf, insertAt, token);
          assert OverwrittenAt(buf, r, insertAt, token);
        }
      } else {
        var insertAt := UR(|buf| + 1);
        var token := PickToken(cfg.dict);
        assert IsToken(cfg.dict, token);
        if |buf| + |token| < MAX_FILE {
          r := Insert(buf, insertAt, token);
          assert InsertedAt(buf, r, insertAt, token);
        }
      }
    }

    /** Case 13: clone a block, or insert a constant one. */
    method CloneBlock(buf: Input) returns (r: Input)
      requires Valid() && InFileLimits(buf)
      ensures InFileLimits(r) && |r| >= |buf| && BlockCloned(cfg, buf, r)
    {
      r := buf;
      if |buf| + HAVOC_BLK_XL < MAX_FILE {
        var actuallyClone := UR(4);
        var block;
        if actuallyClone != 0 {
          var cloneLen := ChooseBlockLen(|buf|, cfg);
          var cloneFrom := UR(|buf| - cloneLen + 1);
          block := buf[cloneFrom..cloneFrom + cloneLen];
          assert IsPartAt(block, buf, cloneFrom);
        } else {
          var cloneLen := ChooseBlockLen(HAVOC_BLK_XL, cfg);
          block := ConstantBlock(buf, cloneLen);
        }
        var cloneTo := UR(|buf|);
        r := Insert(buf, cloneTo, block);
        assert ClonedAt(cfg, buf, r, cloneTo, block);
      }
    }

    /** Case 14: overwrite a block with another one or with a constant. */
    method CopyBlock(buf: Input) returns (r: Input)
      requires Valid() && InFileLimits(buf)
      ensures |r| == |buf| && BlockCopied(cfg, buf, r)
    {
      r := buf;
      if |buf| >= 2 {
        var copyLen := ChooseBlockLen(|buf| - 1, cfg);
        var copyFrom := UR(|buf| - copyLen + 1);
        var copyTo := UR(|buf| - copyLen + 1);
        var block := buf[copyFrom..copyFrom + copyLen];
        assert IsPartAt(block, buf, copyFrom);
        var dice := UR(4);
        if dice == 0 {
          block := ConstantBlock(buf, copyLen);
        }
        r := Overwrite(buf, copyTo, block);
        assert OverwrittenAt(buf, r, copyTo, block);
      }
    }

    /** A stack of 2, 4, ..., 128 tweaks, each with the effect that its number says. */
    method StackTweaks(inBuf: Input) returns (outBuf: Input, ghost cases: seq<nat>, ghost bufs: seq<Input>)
      requires Valid() && InFileLimits(inBuf)
      ensures InFileLimits(outBuf) && IsStacked(cfg, inBuf, outBuf, cases, bufs)
    {
      outBuf, cases, bufs := inBuf, [], [inBuf];
      var pow := UR(HAVOC_STACK_POW2);
      for i := 0 to Pow2(1 + pow)
        invariant InFileLimits(outBuf) && |cases| == i
        invariant IsStack(cfg, cases, bufs) && bufs[0] == inBuf && bufs[|cases|] == outBuf
      {
        var c := UR(15 + if |cfg.dict.extras| + |cfg.dict.autoExtras| > 0 then 2 else 0);
        outBuf := Tweak(outBuf, c);
        StackGrows(cfg, cases, bufs, c, outBuf);
        cases, bufs := cases + [c], bufs + [outBuf];
      }
    }

    /** How often the first `n` runs from number `from` on have doubled the length of a stage: every find does, as long
        as the score, doubled as often, is at most 1600. */
    ghost function Doublings(from: nat, n: nat, score: nat): nat {
      if n == 0 then 0
      else
        var d := Doublings(from, n - 1, score);
        if keeps(from + n - 1) && score * Pow2(d) <= 1600 then d + 1 else d
    }

    /** A stage planned for `plan` runs that starts with run number `from` makes `cycles` runs: it goes on until it has
        made as many as were planned, doubled as often as finds allowed by then, unless it is abandoned before. */
    ghost predicate StageLength(from: nat, cycles: nat, bail: bool, plan: nat, score: nat) {
      && (forall m: nat :: m < cycles ==> m < plan * Pow2(Doublings(from, m, score)))
      && (if bail then cycles > 0 else cycles == plan * Pow2(Doublings(from, cycles, score)))
    }

    /** Without finds a stage makes exactly the planned runs. */
    lemma {:induction false} NoFindsNoDoublings(from: nat, n: nat, score: nat)
      requires forall k :: from <= k < from + n ==> !keeps(k)
      ensures Doublings(from, n, score) == 0
      decreases n
    {
      if n > 0 {
        NoFindsNoDoublings(from, n - 1, score);
      }
    }

    /** The havoc stage. It is planned for 32 (splicing), 1024 (first deterministic time) or 256 runs per 100 points of
        score, divided by `havocDiv`, but at least 16, and finds double it; it makes exactly as many, at most 32768,
        unless one of them asks to abandon the entry. Everything it runs, and so everything it queues, is within the
        file limits. */
    method HavocStage(inBuf: Input, doingDet: bool, splicing: bool, score: nat, havocDiv: nat)
      returns (bail: bool, cycles: nat)
      requires Valid() && InFileLimits(inBuf) && 2 <= score <= 1600 && havocDiv > 0
      modifies this`queue, this`runs
      ensures Valid() && Progress(old(runs), old(queue), cycles, bail)
      ensures AllStacked(cfg, inBuf, runs, |old(runs)|)
      ensures StageLength(|old(runs)|, cycles, bail, Planned(doingDet, splicing, score, havocDiv), score)
      ensures !bail && (forall k :: |old(runs)| <= k < |runs| ==> !keeps(k))
              ==> cycles == Planned(doingDet, splicing, score, havocDiv)
      ensures 1 <= cycles <= 32768 && (!bail ==> cycles >= 16)
    {
      var perfScore: nat := score;
      var stageMax: nat := PlanStage(doingDet, splicing, score, havocDiv);
      ghost var plan, from, d := stageMax, |runs|, 0;
      var havocQueued := |queue|;
      bail, cycles := false, 0;
      StageStarts(from, plan, score);
      while cycles < stageMax
        invariant Valid() && Progress(old(runs), old(queue), cycles, false) && havocQueued == |queue|
        invariant AllStacked(cfg, inBuf, runs, |old(runs)|)
        invariant Stretched(from, cycles, plan, score, d, stageMax, perfScore)
        invariant cycles <= stageMax && 16 <= stageMax
        invariant 100 * stageMax <= HAVOC_CYCLES_INIT * perfScore && 2 <= perfScore <= 2 * HAVOC_MAX_MULT * 100
        decreases 2 * HAVOC_MAX_MULT * 100 - perfScore, stageMax - cycles
      {
        bail := HavocRun(inBuf, old(runs), old(queue), cycles);
        NextRun(from, cycles, plan, score, d, stageMax, perfScore);
        cycles := cycles + 1;
        if bail {
          return;
        }
        if |queue| != havocQueued {
          if perfScore <= HAVOC_MAX_MULT * 100 {
            stageMax, perfScore, d := stageMax * 2, perfScore * 2, d + 1;
          }
          havocQueued := |queue|;
        }
      }
      StageEnds(from, cycles, plan, score, d, stageMax, perfScore);
    }

    /** The loop of the stage after `cycles` runs and `d` doublings. */
    ghost predicate StretchedTo(from: nat, cycles: nat, plan: nat, score: nat, d: nat, stageMax: nat, perfScore: nat) {
      && d == Doublings(from, cycles, score) && stageMax == Doubled(plan, d) && perfScore == Doubled(score, d)
      && forall m: nat :: m < cycles ==> m < Doubled(plan, Doublings(from, m, score))
    }

    /** The same; `AboutRun` marks the lemmas that look into it. */
    ghost predicate Stretched(from: nat, cycles: nat, plan: nat, score: nat, d: nat, stageMax: nat, perfScore: nat) {
      forall n: nat {:trigger AboutRun(n)} :: n == cycles ==> StretchedTo(from, n, plan, score, d, stageMax, perfScore)
    }

    static ghost predicate AboutRun(n: nat) {
      true
    }

    lemma StageStarts(from: nat, plan: nat, score: nat)
      ensures Stretched(from, 0, plan, score, 0, plan, score)
    {
      assert StretchedTo(from, 0, plan, score, 0, plan, score);
    }

    lemma NextRun(from: nat, cycles: nat, plan: nat, score: nat, d: nat, stageMax: nat, perfScore: nat)
      requires Stretched(from, cycles, plan, score, d, stageMax, perfScore) && cycles < stageMax
      ensures if keeps(from + cycles) && perfScore <= 1600
              then Stretched(from, cycles + 1, plan, score, d + 1, stageMax * 2, perfScore * 2)
              else Stretched(from, cycles + 1, plan, score, d, stageMax, perfScore)
      ensures StageLength(from, cycles + 1, true, plan, score)
    {
      assert AboutRun(cycles);
      DoubledIs(score, d);
      if keeps(from + cycles) && perfScore <= 1600 {
        assert StretchedTo(from, cycles + 1, plan, score, d + 1, stageMax * 2, perfScore * 2);
      } else {
        assert StretchedTo(from, cycles + 1, plan, score, d, stageMax, perfScore);
      }
      InTime(from, cycles + 1, plan, score);
    }

    lemma InTime(from: nat, cycles: nat, plan: nat, score: nat)
      requires forall m: nat :: m < cycles ==> m < Doubled(plan, Doublings(from, m, score))
      ensures forall m: nat :: m < cycles ==> m < plan * Pow2(Doublings(from, m, score))
    {
      forall m: nat | m < cycles
        ensures m < plan * Pow2(Doublings(from, m, score))
      {
        DoubledIs(plan, Doublings(from, m, score));
      }
    }

    lemma StageEnds(from: nat, cycles: nat, plan: nat, score: nat, d: nat, stageMax: nat, perfScore: nat)
      requires Stretched(from, cycles, plan, score, d, stageMax, perfScore) && cycles == stageMax
      ensures StageLength(from, cycles, false, plan, score)
      ensures (forall k :: from <= k < from + cycles ==> !keeps(k)) ==> cycles == plan
    {
      assert AboutRun(cycles);
      DoubledIs(plan, d);
      InTime(from, cycles, plan, score);
      if forall k :: from <= k < from + cycles ==> !keeps(k) {
        NoFindsNoDoublings(from, cycles, score);
      }
    }

    /** One run of the havoc stage, on a buffer that a stack of tweaks makes of the input. */
    method HavocRun(inBuf: Input, ghost before: seq<Input>, ghost queued: seq<Input>, ghost cycles: nat)
      returns (bail: bool)
      requires Valid() && InFileLimits(inBuf) && Progress(before, queued, cycles, false)
      requires AllStacked(cfg, inBuf, runs, |before|)
      modifies this`queue, this`runs
      ensures Valid() && Progress(before, queued, cycles + 1, bail) && AllStacked(cfg, inBuf, runs, |before|)
      ensures |queue| == |old(queue)| + if keeps(|old(runs)|) then 1 else 0
    {
      var outBuf, cases, bufs := StackTweaks(inBuf);
      bail := CommonFuzzStuff(outBuf);
      OneMoreStacked(cfg, inBuf, old(runs), |before|, outBuf, cases, bufs);
    }

    /** One attempt at splicing: the head of the input with the tail of another case, cut between the first and the last
        differing byte. The result has the length of the other case. */
    method Splice(inBuf: Input, target: Input) returns (spliced: Option<Input>)
      requires InFileLimits(inBuf) && InFileLimits(target)
      ensures spliced.Some? ==> |spliced.value| == |target| && exists at :: IsCutAt(inBuf, target, spliced.value, at)
      ensures spliced.None? <==>
              forall j, k :: 0 <= j < k < Min(|inBuf|, |target|) && inBuf[j] != target[j] && inBuf[k] != target[k] ==>
                k < 2
    {
      var n := Min(|inBuf|, |target|);
      var first, last := LocateDiffs(inBuf, target, n);
      if first < 0 || last < 2 || first == last {
        assert forall k :: 0 <= k < n && inBuf[k] != target[k] ==> first <= k <= last;
        return None;
      }
      var offset := UR(last - first);
      var at := first + offset;
      assert inBuf[..at + 1][first] != target[..at + 1][first];
      assert inBuf[at + 1..n][last - at - 1] != target[at + 1..n][last - at - 1];
      assert IsCutAt(inBuf, target, inBuf[..at] + target[at..], at);
      return Some(inBuf[..at] + target[at..]);
    }

    /** A partner for splicing: of the entries from `drawn` on, which is any but the current one, the first one that has
        at least two bytes and is not the current one. */
    method PickTarget(current: nat) returns (target: Option<Input>, ghost drawn: nat)
      requires Valid() && current < |queue| && |queue| > 1
      ensures drawn < |queue| && drawn != current
      ensures target.Some? ==> exists k: nat :: IsPartner(queue, current, drawn, k) && queue[k] == target.value
      ensures target.None? ==> forall j :: drawn <= j < |queue| ==> !Suits(queue, current, j)
    {
      var tid := UR(|queue| - 1);
      if tid >= current {
        tid := tid + 1;
      }
      drawn := tid;
      while tid < |queue| && (|queue[tid]| < 2 || tid == current)
        invariant drawn <= tid <= |queue| && forall j :: drawn <= j < tid ==> !Suits(queue, current, j)
      {
        tid := tid + 1;
      }
      if tid == |queue| {
        return None, drawn;
      }
      assert IsPartner(queue, current, drawn, tid);
      return Some(queue[tid]), drawn;
    }

    /** An attempt that made what it should: it failed, or the havoc stage on its result was as long as planned. */
    ghost predicate AttemptOk(a: Attempt, queue: seq<Input>, current: nat, bail: bool, plan: nat, score: nat) {
      && a.known <= |queue|
      && match a.base
         case None => a.cycles == 0 && !bail && Fails(queue[..a.known], current, a.drawn)
         case Some(base) =>
           Gives(queue[..a.known], current, a.drawn, base) && StageLength(a.from, a.cycles, bail, plan, score)
    }

    /** All attempts of an entry; only in the last one a run may have asked to abandon it. */
    ghost predicate AttemptsOk(attempts: seq<Attempt>, queue: seq<Input>, current: nat, bail: bool, plan: nat,
                               score: nat)
    {
      forall k :: 0 <= k < |attempts| ==>
        AttemptOk(attempts[k], queue, current, bail && k == |attempts| - 1, plan, score)
    }

    lemma OneMoreAttempt(attempts: seq<Attempt>, a: Attempt, queue: seq<Input>, queue': seq<Input>, current: nat,
                         bail: bool, plan: nat, score: nat, from: nat, to: nat)
      requires AttemptsOk(attempts, queue, current, false, plan, score) && Consecutive(attempts, from, to)
      requires queue <= queue' && AttemptOk(a, queue', current, bail, plan, score) && a.from == to
      ensures AttemptsOk(attempts + [a], queue', current, bail, plan, score)
      ensures Consecutive(attempts + [a], from, to + a.cycles)
    {
      forall k | 0 <= k < |attempts|
        ensures AttemptOk(attempts[k], queue', current, false, plan, score)
      {
        assert AttemptOk(attempts[k], queue, current, false, plan, score);
        assert queue'[..attempts[k].known] == queue[..attempts[k].known];
      }
    }

    /** The random part of `fuzz_one`: a havoc stage of `first` runs on the entry, then, when splicing is on, havoc
        stages on spliced inputs. Unless it is abandoned, or there is nothing to splice with, exactly 15 splices are
        attempted. Every stage is as long as planned. */
    method HavocAndSplice(current: nat, doingDet: bool, useSplicing: bool, score: nat, havocDiv: nat)
      returns (bail: bool, cycles: nat, ghost first: nat, ghost attempts: seq<Attempt>)
      requires Valid() && current < |queue| && 2 <= score <= 1600 && havocDiv > 0
      modifies this`queue, this`runs
      ensures Valid() && Progress(old(runs), old(queue), cycles, bail)
      ensures StageLength(|old(runs)|, first, bail && attempts == [], Planned(doingDet, false, score, havocDiv), score)
      ensures AttemptsOk(attempts, queue, current, bail, Planned(doingDet, true, score, havocDiv), score)
      ensures Consecutive(attempts, |old(runs)| + first, |runs|)
      ensures if !useSplicing then attempts == []
              else |attempts| <= 15 && (bail || |attempts| == 15 || |queue| == 1 || |queue[current]| == 1)
      ensures 1 <= cycles <= 16 * 32768 && (!useSplicing ==> cycles <= 32768)
      ensures !bail ==> cycles >= 16
      ensures AllComeFrom(cfg, queue, current, runs, |old(runs)|)
    {
      attempts := [];
      bail, cycles := HavocStage(queue[current], doingDet, false, score, havocDiv);
      first := cycles;
      MoreComeFrom(cfg, old(queue), queue, current, old(runs), runs, |old(runs)|, old(queue)[current]);
      var spliceCycle := 0;
      while !bail && useSplicing && spliceCycle < SPLICE_CYCLES && |queue| > 1 && |queue[current]| > 1
        invariant Valid() && Progress(old(runs), old(queue), cycles, bail)
        invariant spliceCycle == |attempts| <= 15 && 1 <= cycles <= (1 + spliceCycle) * 32768
        invariant (!useSplicing ==> spliceCycle == 0) && (!bail ==> cycles >= 16)
        invariant StageLength(|old(runs)|, first, bail
                  && attempts == [], Planned(doingDet, false, score, havocDiv), score)
        invariant AttemptsOk(attempts, queue, current, bail, Planned(doingDet, true, score, havocDiv), score)
        invariant Consecutive(attempts, |old(runs)| + first, |runs|)
        invariant AllComeFrom(cfg, queue, current, runs, |old(runs)|)
      {
        spliceCycle := spliceCycle + 1;
        ghost var prior, was := queue, |runs|;
        ghost var a;
        bail, cycles, a := SpliceOnce(current, doingDet, score, havocDiv, old(runs), old(queue), cycles);
        OneMoreAttempt(attempts, a, prior, queue, current, bail, Planned(doingDet, true, score, havocDiv), score,
                       |old(runs)| + first, was);
        attempts := attempts + [a];
      }
    }

    /** One splicing attempt, with the havoc stage that follows if it succeeds. */
    method SpliceOnce(current: nat, doingDet: bool, score: nat, havocDiv: nat,
                      ghost before: seq<Input>, ghost queued: seq<Input>, cycles: nat)
      returns (bail: bool, cycles': nat, ghost a: Attempt)
      requires Valid() && current < |queue| && |queue| > 1 && 2 <= score <= 1600 && havocDiv > 0
      requires Progress(before, queued, cycles, false) && AllComeFrom(cfg, queue, current, runs, |before|)
      modifies this`queue, this`runs
      ensures Valid() && Progress(before, queued, cycles', bail) && old(queue) <= queue
      ensures AllComeFrom(cfg, queue, current, runs, |before|)
      ensures AttemptOk(a, queue, current, bail, Planned(doingDet, true, score, havocDiv), score)
      ensures a.from == |old(runs)| && |runs| == |old(runs)| + a.cycles
      ensures cycles <= cycles' <= cycles + 32768
    {
      var target;
      ghost var drawn;
      target, drawn := PickTarget(current);
      if target.Some? {
        ghost var k: nat :| IsPartner(queue, current, drawn, k) && queue[k] == target.value;
        bail, cycles',
            a := SpliceWith(current, target.value, doingDet, score, havocDiv, before, queued, cycles, drawn, k);
      } else {
        bail, cycles' := false, cycles;
        a := Attempt(|queue|, |runs|, drawn, None, 0);
        assert queue[..|queue|] == queue;
      }
    }

    /** The attempt with entry `k`, whose content is `target`. */
    method SpliceWith(current: nat, target: Input, doingDet: bool, score: nat, havocDiv: nat,
                      ghost before: seq<Input>, ghost queued: seq<Input>, cycles: nat, ghost drawn: nat, ghost k: nat)
      returns (bail: bool, cycles': nat, ghost a: Attempt)
      requires Valid() && current < |queue| && 2 <= score <= 1600 && havocDiv > 0
      requires drawn != current && IsPartner(queue, current, drawn, k) && queue[k] == target
      requires Progress(before, queued, cycles, false) && AllComeFrom(cfg, queue, current, runs, |before|)
      modifies this`queue, this`runs
      ensures Valid() && Progress(before, queued, cycles', bail) && old(queue) <= queue
      ensures AllComeFrom(cfg, queue, current, runs, |before|)
      ensures AttemptOk(a, queue, current, bail, Planned(doingDet, true, score, havocDiv), score)
      ensures a.from == |old(runs)| && |runs| == |old(runs)| + a.cycles
      ensures cycles <= cycles' <= cycles + 32768
    {
      bail, cycles' := false, cycles;
      ghost var prior := queue;
      var spliced := Splice(queue[current], target);
      if spliced.Some? {
        assert IsSplice(queue, current, k, spliced.value);
        bail, cycles' := HavocFrom(current, spliced.value, doingDet, score, havocDiv, before, queued, cycles);
      }
      a := Attempt(|prior|, |old(runs)|, drawn, spliced, cycles' - cycles);
      assert queue[..|prior|] == prior;
    }

    /** The havoc stage on a splice of the entry. */
    method HavocFrom(ghost current: nat, spliced: Input, doingDet: bool, score: nat, havocDiv: nat,
                     ghost before: seq<Input>, ghost queued: seq<Input>, cycles: nat)
      returns (bail: bool, cycles': nat)
      requires Valid() && InFileLimits(spliced) && 2 <= score <= 1600 && havocDiv > 0
      requires IsBase(queue, current, spliced)
      requires Progress(before, queued, cycles, false) && AllComeFrom(cfg, queue, current, runs, |before|)
      modifies this`queue, this`runs
      ensures Valid() && Progress(before, queued, cycles', bail) && old(queue) <= queue
      ensures AllComeFrom(cfg, queue, current, runs, |before|)
      ensures cycles <= cycles' <= cycles + 32768 && |runs| == |old(runs)| + (cycles' - cycles)
      ensures StageLength(|old(runs)|, cycles' - cycles, bail, Planned(doingDet, true, score, havocDiv), score)
    {
      var more;
      bail, more := HavocStage(spliced, doingDet, true, score, havocDiv);
      MoreComeFrom(cfg, old(queue), queue, current, old(runs), runs, |before|, spliced);
      cycles' := cycles + more;
    }

    ghost function Now(): State
      reads this
    {
      State(cfg, queue, runs)
    }

    /** One case was run, and queued if it showed something new. */
    ghost predicate Ran(a: State, b: State, buf: Input) {
      b == State(a.cfg, if keeps(|a.runs|) then a.queue + [buf] else a.queue, a.runs + [buf])
    }

    /** A turn: a havoc stage of `first` runs on the entry, and the attempts at splicing, all as long as planned for the
        score of the entry. */
    ghost predicate TurnIs(turn: Turn, a: State, b: State, bail: bool, first: nat, attempts: seq<Attempt>)
      requires turn.havocDiv > 0
    {
      var score := Score(turn.rated, turn.avgUs, turn.avgSize);
      && a.queue <= b.queue && a.runs <= b.runs && AllComeFrom(b.cfg, b.queue, turn.entry, b.runs, |a.runs|)
      && StageLength(|a.runs|, first, bail && attempts
        == [], Planned(turn.doingDet, false, score, turn.havocDiv), score)
      && AttemptsOk(attempts, b.queue, turn.entry, bail, Planned(turn.doingDet, true, score, turn.havocDiv), score)
      && Consecutive(attempts, |a.runs| + first, |b.runs|)
      && if !turn.useSplicing then attempts == []
         else turn.entry < |b.queue| && |attempts| <= 15
              && (bail || |attempts| == 15 || |b.queue| == 1 || |b.queue[turn.entry]| == 1)
    }

    /** What an event does. Those that do not apply are passed over: a stage or a trim of an entry that does not exist,
        an edit that changes the length, an insertion or an import beyond the file limit, an empty import, and trims of
        entries below five bytes or to below four. */
    ghost predicate EventDone(event: Event, a: State, b: State)
      requires IsEvent(event)
    {
      match event
      case Havoc(turn) =>
        && b.cfg == Setup(turn.dict, a.cfg.queueCycle + (if turn.newCycle then 1 else 0), turn.runOver10m)
        && if turn.entry < |a.queue| then exists bail, first, attempts :: TurnIs(turn, a, b, bail, first, attempts)
           else b.queue == a.queue && b.runs == a.runs
      case Edit(entry, buf) => if entry < |a.queue| && |buf| == |a.queue[entry]| then Ran(a, b, buf) else b == a
      case InsertToken(entry, at, token) =>
        if entry < |a.queue| && at <= |a.queue[entry]| && |a.queue[entry]| + |token| <= MAX_FILE
        then Ran(a, b, a.queue[entry][..at] + token + a.queue[entry][at..]) else b == a
      case Trim(entry, buf) =>
        if entry < |a.queue| && |a.queue[entry]| >= 5 && 4 <= |buf| <= |a.queue[entry]|
        then b == a.(queue := a.queue[entry := buf]) else b == a
      case Import(buf) => if 0 < |buf| <= MAX_FILE then Ran(a, b, buf) else b == a
    }

    /** One event. */
    method Perform(event: Event) returns (cycles: nat)
      requires Valid() && queue != [] && IsEvent(event)
      modifies this
      ensures Valid() && queue != [] && EventDone(event, old(Now()), Now())
      ensures old(runs) <= runs && |runs| == |old(runs)| + cycles
      ensures |old(queue)| <= |queue| <= |old(queue)| + cycles && cycles <= 16 * 32768
    {
      cycles := 0;
      match event
      case Havoc(turn) =>
        cycles := TakeTurn(turn);
      case Edit(entry, buf) =>
        if entry < |queue| && |buf| == |queue[entry]| {
          var _ := CommonFuzzStuff(buf);
          cycles := 1;
        }
      case InsertToken(entry, at, token) =>
        if entry < |queue| && at <= |queue[entry]| && |queue[entry]| + |token| <= MAX_FILE {
          var _ := CommonFuzzStuff(Insert(queue[entry], at, token));
          cycles := 1;
        }
      case Trim(entry, buf) =>
        if entry < |queue| && |queue[entry]| >= 5 && 4 <= |buf| <= |queue[entry]| {
          queue := queue[entry := buf];
        }
      case Import(buf) =>
        if 0 < |buf| <= MAX_FILE {
          var _ := CommonFuzzStuff(buf);
          cycles := 1;
        }
    }

    /** The random stages on an entry. */
    method TakeTurn(turn: Turn) returns (cycles: nat)
      requires Valid() && queue != [] && IsEvent(Havoc(turn))
      modifies this
      ensures Valid() && queue != [] && EventDone(Havoc(turn), old(Now()), Now())
      ensures old(runs) <= runs && |runs| == |old(runs)| + cycles
      ensures |old(queue)| <= |queue| <= |old(queue)| + cycles && cycles <= 16 * 32768
    {
      cycles := 0;
      cfg := Setup(turn.dict, if turn.newCycle then cfg.queueCycle + 1 else cfg.queueCycle, turn.runOver10m);
      var score, _ := CalculateScore(turn.rated, turn.avgUs, turn.avgSize);
      if turn.entry < |queue| {
        var bail, more;
        ghost var first, attempts;
        bail, more, first,
            attempts := HavocAndSplice(turn.entry, turn.doingDet, turn.useSplicing, score, turn.havocDiv);
        cycles := more;
        assert TurnIs(turn, old(Now()), Now(), bail, first, attempts);
      }
    }

    /** A whole run: random and deterministic stages, trims and imports in any order. `states` are the states between
        the events. Everything queued and everything run has between one byte and the file limit. */
    method Run(events: seq<Event>) returns (cycles: nat, ghost states: seq<State>)
      requires Valid() && queue != [] && forall k :: 0 <= k < |events| ==> IsEvent(events[k])
      modifies this
      ensures |states| == |events| + 1 && states[0] == old(Now()) && states[|events|] == Now()
      ensures forall k :: 0 <= k < |events| ==> EventDone(events[k], states[k], states[k + 1])
      ensures old(runs) <= runs && |runs| == |old(runs)| + cycles && |old(queue)| <= |queue| <= |old(queue)| + cycles
      ensures forall k :: 0 <= k < |queue| ==> 1 <= |queue[k]| <= MAX_FILE
      ensures forall k :: 0 <= k < |runs| ==> 1 <= |runs[k]| <= MAX_FILE
      ensures cycles <= |events| * 16 * 32768
    {
      cycles, states := 0, [Now()];
      for t := 0 to |events|
        invariant Valid() && queue != [] && old(runs) <= runs && |runs| == |old(runs)| + cycles
        invariant |old(queue)| <= |queue| <= |old(queue)| + cycles && cycles <= t * 16 * 32768
        invariant |states| == t + 1 && states[0] == old(Now()) && states[t] == Now()
        invariant forall k :: 0 <= k < t ==> EventDone(events[k], states[k], states[k + 1])
      {
        var more := Perform(events[t]);
        cycles, states := cycles + more, states + [Now()];
      }
    }
  }

  ghost predicate IsEvent(event: Event) {
    event.Havoc? ==> IsDictionary(event.turn.dict) && event.turn.havocDiv > 0
  }

  lemma OneMoreStacked(cfg: Setup, inBuf: Input, runs: seq<Input>, from: nat, buf: Input,
                       cases: seq<nat>, bufs: seq<Input>)
    requires AllStacked(cfg, inBuf, runs, from) && IsStacked(cfg, inBuf, buf, cases, bufs)
    ensures AllStacked(cfg, inBuf, runs + [buf], from)
  {
    var runs' := runs + [buf];
    forall k | from <= k < |runs'|
      ensures IsTweaked(cfg, inBuf, runs'[k])
    {
      if k == |runs| {
        assert IsStacked(cfg, inBuf, runs'[k], cases, bufs);
      } else {
        assert runs'[k] == runs[k];
      }
    }
  }

  lemma StackGrows(cfg: Setup, cases: seq<nat>, bufs: seq<Input>, c: nat, buf: Input)
    requires IsStack(cfg, cases, bufs) && c <= 16 && Effect(cfg, c, bufs[|cases|], buf)
    ensures IsStack(cfg, cases + [c], bufs + [buf])
  {
    var cases', bufs' := cases + [c], bufs + [buf];
    forall k | 0 <= k < |cases'|
      ensures cases'[k] <= 16 && Effect(cfg, cases'[k], bufs'[k], bufs'[k + 1])
    {
      if k < |cases| {
        assert Effect(cfg, cases[k], bufs[k], bufs[k + 1]);
      }
    }
  }

  ghost function Doubled(x: nat, d: nat): nat {
    if d == 0 then x else 2 * Doubled(x, d - 1)
  }

  lemma {:induction false} DoubledIs(x: nat, d: nat)
    ensures Doubled(x, d) == x * Pow2(d)
  {
    if d > 0 {
      DoubledIs(x, d - 1);
      TwiceAsMuch(x, Pow2(d - 1));
    }
  }

  lemma TwiceAsMuch(a: nat, b: nat)
    ensures a * (2 * b) == 2 * (a * b)
  {
  }

  lemma ProductIsLarger(q: int, d: nat)
    requires q >= 0 && d > 0
    ensures q * d >= q
  {
  }

  lemma QuotientIsSmaller(x: nat, d: nat)
    requires d > 0
    ensures 0 <= x / d <= x
  {
    if x / d > x {
      ProductIsLarger(x / d, d);
      assert false;
    }
  }

  /** With a base of at most 1024 cycles and a score of `score` percent, a stage is set to at most 10.24 cycles per
      point. */
  lemma StageIsBounded(base: nat, score: nat, div: nat)
    requires base <= HAVOC_CYCLES_INIT && div > 0
    ensures 0 <= base * score / div / 100
    ensures 100 * (base * score / div / 100) <= HAVOC_CYCLES_INIT * score
  {
    var x := base * score;
    assert x <= HAVOC_CYCLES_INIT * score;
    QuotientIsSmaller(x, div);
    var y := x / div;
    assert 100 * (y / 100) <= y;
  }
}
