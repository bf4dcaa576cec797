/** How many set bits a cell of a virgin map has. */
module CellBits {
  import opened Bytes

  function Bit(i: nat): Cell
    requires i < 8
  {
    if i < 4 then (if i == 0 then 1 else if i == 1 then 2 else if i == 2 then 4 else 8)
    else (if i == 4 then 16 else if i == 5 then 32 else if i == 6 then 64 else 128)
  }

  predicate HasBit(c: Cell, i: nat)
    requires i < 8
  {
    c & Bit(i) != 0
  }

  /** How many of the low `n` bits are set. */
  function CountBits(c: Cell, n: nat): nat
    requires n <= 8
  {
    if n == 0 then 0 else CountBits(c, n - 1) + (if HasBit(c, n - 1) then 1 else 0)
  }

  function Ones(c: Cell): nat {
    CountBits(c, 8)
  }

  lemma BitIsCleared(v: Cell, c: Cell, i: nat)
    requires i < 8
    ensures HasBit(v & !c, i) ==> HasBit(v, i)
    ensures HasBit(c & v, i) ==> HasBit(v, i) && !HasBit(v & !c, i)
  {
  }

  lemma SomeBitIsSet(c: Cell)
    requires c != 0
    ensures exists k :: 0 <= k < 8 && HasBit(c, k)
  {
    assert HasBit(c, 0) || HasBit(c, 1) || HasBit(c, 2) || HasBit(c, 3)
        || HasBit(c, 4) || HasBit(c, 5) || HasBit(c, 6) || HasBit(c, 7);
  }

  /** A count of bits cannot rise if bits are only cleared, and falls if bit `k` is one of them. */
  lemma {:induction false} FewerBits(a: Cell, b: Cell, n: nat, k: nat)
    requires n <= 8 && (forall i :: 0 <= i < n ==> HasBit(a, i) ==> HasBit(b, i))
    requires k < n ==> HasBit(b, k) && !HasBit(a, k)
    ensures CountBits(a, n) <= CountBits(b, n) && (k < n ==> CountBits(a, n) < CountBits(b, n))
  {
    if n > 0 {
      FewerBits(a, b, n - 1, k);
    }
  }

  /** Clearing the bits of `c` never adds a bit, and removes one if they have any in common. */
  lemma ClearingLowers(v: Cell, c: Cell)
    ensures Ones(v & !c) <= Ones(v)
    ensures c & v != 0 ==> Ones(v & !c) < Ones(v)
  {
    forall i | 0 <= i < 8
      ensures HasBit(v & !c, i) ==> HasBit(v, i)
      ensures HasBit(c & v, i) ==> HasBit(v, i) && !HasBit(v & !c, i)
    {
      BitIsCleared(v, c, i);
    }
    var k := 8;
    if c & v != 0 {
      SomeBitIsSet(c & v);
      k :| 0 <= k < 8 && HasBit(c & v, k);
    }
    FewerBits(v & !c, v, 8, k);
  }
}

/** Fuzzers that keep syncing catch up: every addition to a queue costs a virgin bit, so they run out. */
module SyncRounds {
  import opened Bytes
  import opened Coverage
  import opened CellBits
  import opened Sync

  // ----- every addition costs a virgin bit -----

  lemma {:induction false} SmallerSum(a: seq<nat>, b: seq<nat>, k: nat)
    requires |a| == |b| && forall i :: 0 <= i < |a| ==> a[i] <= b[i]
    ensures Sum(a) <= Sum(b)
    ensures k < |a| && a[k] < b[k] ==> Sum(a) < Sum(b)
    decreases |a|
  {
    if a != [] {
      var n := |a| - 1;
      SmallerSum(a[..n], b[..n], k);
    }
  }

  function Counts(virgin: Trace): (r: seq<nat>)
    ensures |r| == |virgin|
  {
    seq(|virgin|, i requires 0 <= i < |virgin| => Ones(virgin[i]))
  }

  /** The number of bits still to be found. */
  function BitsLeft(virgin: Trace): nat {
    Sum(Counts(virgin))
  }

  lemma CellLowers(virgin: Trace, t: Trace, i: nat)
    requires |virgin| == |t| && i < |t|
    ensures Counts(Clear(virgin, t))[i] <= Counts(virgin)[i]
    ensures t[i] & virgin[i] != 0 ==> Counts(Clear(virgin, t))[i] < Counts(virgin)[i]
  {
    ClearingLowers(virgin[i], t[i]);
    CountAt(virgin, i, virgin[i]);
    CountAt(Clear(virgin, t), i, virgin[i] & !t[i]);
  }

  lemma CountAt(virgin: Trace, i: nat, c: Cell)
    requires i < |virgin| && virgin[i] == c
    ensures Counts(virgin)[i] == Ones(c)
  {
  }

  lemma ClearLowersBits(virgin: Trace, t: Trace, k: nat)
    requires |virgin| == |t|
    ensures BitsLeft(Clear(virgin, t)) <= BitsLeft(virgin)
    ensures k < |t| && t[k] & virgin[k] != 0 ==> BitsLeft(Clear(virgin, t)) < BitsLeft(virgin)
  {
    forall i | 0 <= i < |t|
      ensures Counts(Clear(virgin, t))[i] <= Counts(virgin)[i]
    {
      CellLowers(virgin, t, i);
    }
    if k < |t| {
      CellLowers(virgin, t, k);
    }
    SmallerSum(Counts(Clear(virgin, t)), Counts(virgin), k);
  }

  /** The queue entries of a fuzzer and the bits it has left to find. */
  ghost function Stock(n: Node): nat {
    |n.queue| + BitsLeft(n.virgin)
  }

  /** An entry is added only at the cost of a bit. */
  lemma KeepLowersStock(t: Target, n: Node, x: Input)
    requires IsTarget(t) && |n.virgin| == t.size
    ensures Stock(Keep(t, n, x)) <= Stock(n)
  {
    if Novelty(n.virgin, t.run(x)) != 0 {
      var k := NoveltyHits(n.virgin, t.run(x));
      ClearLowersBits(n.virgin, t.run(x), k);
    } else {
      ClearLowersBits(n.virgin, t.run(x), |n.virgin|);
    }
  }

  lemma NoveltyHits(virgin: Trace, t: Trace) returns (k: nat)
    requires |virgin| == |t| && Novelty(virgin, t) != 0
    ensures k < |t| && t[k] & virgin[k] != 0
  {
    PristineIsHit(virgin, t);
    k :| k < |t| && t[k] & virgin[k] != 0;
  }

  ghost function Stocks(s: Net): (r: seq<nat>)
    ensures |r| == |s|
  {
    seq(|s|, f requires 0 <= f < |s| => Stock(s[f]))
  }

  ghost function QueueLengths(s: Net): (r: seq<nat>)
    ensures |r| == |s|
  {
    seq(|s|, f requires 0 <= f < |s| => |s[f].queue|)
  }

  ghost function BitsPerNode(s: Net): (r: seq<nat>)
    ensures |r| == |s|
  {
    seq(|s|, f requires 0 <= f < |s| => BitsLeft(s[f].virgin))
  }

  /** All queue entries, and all bits left to find, over all fuzzers. */
  ghost function Entries(s: Net): nat {
    Sum(QueueLengths(s))
  }

  ghost function TotalBits(s: Net): nat {
    Sum(BitsPerNode(s))
  }

  lemma {:induction false} SumSplits(a: seq<nat>, b: seq<nat>, c: seq<nat>)
    requires |a| == |b| == |c| && forall i :: 0 <= i < |a| ==> c[i] == a[i] + b[i]
    ensures Sum(c) == Sum(a) + Sum(b)
    decreases |a|
  {
    if a != [] {
      var n := |a| - 1;
      SumSplits(a[..n], b[..n], c[..n]);
    }
  }

  lemma NodeStock(t: Target, s: Net, step: Step)
    requires Inv(t, s) && Enabled(t, s, step)
    ensures Stock(NodeAfter(t, s, step)) <= Stock(s[step.f])
  {
    var n := s[step.f];
    match step
    case Find(f, x) =>
      KeepLowersStock(t, n, x);
    case Trim(f, id, x) =>
    case Open(f, g, ids) =>
    case RunEntry(f, id) =>
      KeepLowersStock(t, n, s[n.session.peer].queue[id]);
    case Close(f) =>
  }

  lemma TotalStock(s: Net)
    ensures Sum(Stocks(s)) == Entries(s) + TotalBits(s)
  {
    SumSplits(QueueLengths(s), BitsPerNode(s), Stocks(s));
  }

  lemma StepLowersStocks(t: Target, s: Net, step: Step)
    requires Inv(t, s) && Enabled(t, s, step)
    ensures Sum(Stocks(Apply(t, s, step))) <= Sum(Stocks(s))
  {
    var a, b := Stocks(Apply(t, s, step)), Stocks(s);
    NodeStock(t, s, step);
    forall f | 0 <= f < |s|
      ensures a[f] <= b[f]
    {
      assert f != step.f ==> Apply(t, s, step)[f] == s[f];
    }
    SmallerSum(a, b, 0);
  }

  /** No step, not even a find, adds more entries than it takes bits. */
  lemma StepBudget(t: Target, s: Net, step: Step)
    requires Inv(t, s) && Enabled(t, s, step)
    ensures Entries(Apply(t, s, step)) + TotalBits(Apply(t, s, step)) <= Entries(s) + TotalBits(s)
  {
    StepLowersStocks(t, s, step);
    TotalStock(s);
    TotalStock(Apply(t, s, step));
  }

  /** Over any run, the entries added to all queues together number at most the bits that were left. */
  lemma {:induction false} RunBudget(t: Target, s: Net, steps: seq<Step>)
    requires Inv(t, s) && IsRun(t, s, steps)
    ensures Entries(After(t, s, steps)) + TotalBits(After(t, s, steps)) <= Entries(s) + TotalBits(s)
    decreases |steps|
  {
    if steps != [] {
      StepBudget(t, s, steps[0]);
      StepKeepsInv(t, s, steps[0]);
      RunBudget(t, Apply(t, s, steps[0]), steps[1..]);
    }
  }

  // ----- what a run never loses -----

  /** Queues and marks only grow. */
  ghost predicate Later(s: Net, s': Net) {
    && |s| == |s'|
    && forall f :: 0 <= f < |s| ==>
         && |s[f].queue| <= |s'[f].queue| && |s[f].marks| == |s'[f].marks|
         && forall g :: 0 <= g < |s[f].marks| ==> s[f].marks[g] <= s'[f].marks[g]
  }

  lemma StepIsLater(t: Target, s: Net, step: Step)
    requires Inv(t, s) && Enabled(t, s, step)
    ensures Later(s, Apply(t, s, step))
  {
    StepGrows(t, s, step);
    assert SessionOk(t, s, step.f);
  }

  lemma {:induction false} RunIsLater(t: Target, s: Net, steps: seq<Step>)
    requires Inv(t, s) && IsRun(t, s, steps)
    ensures Later(s, After(t, s, steps))
    decreases |steps|
  {
    if steps != [] {
      StepIsLater(t, s, steps[0]);
      StepKeepsInv(t, s, steps[0]);
      RunIsLater(t, Apply(t, s, steps[0]), steps[1..]);
    }
  }

  /** A session lasts, with its peer and its listing, until it is closed. */
  lemma {:induction false} SessionLasts(t: Target, s: Net, steps: seq<Step>, f: nat)
    requires Inv(t, s) && IsRun(t, s, steps) && f < |s| && s[f].session.Syncing? && Close(f) !in steps
    ensures var s' := After(t, s, steps);
            && |s'| == |s| && s'[f].session.Syncing? && s'[f].session.peer == s[f].session.peer
            && s'[f].session.listing == s[f].session.listing
    decreases |steps|
  {
    if steps != [] {
      assert steps[0] in steps;
      StepKeepsInv(t, s, steps[0]);
      SessionLasts(t, Apply(t, s, steps[0]), steps[1..], f);
    }
  }

  // ----- complete rounds -----

  ghost function IdsBelow(n: nat): (ids: set<nat>)
    ensures forall id: nat :: id in ids <==> id < n
  {
    if n == 0 then {} else IdsBelow(n - 1) + {n - 1}
  }

  /** All files of a queue. */
  ghost function AllIds(n: Node): set<nat> {
    IdsBelow(|n.queue|)
  }

  /** A part of a run in which fuzzer `f` syncs with `g`: after `lead` it scans the whole queue of `g`, and after `work`
      it closes the session. */
  ghost predicate FullSync(t: Target, s: Net, f: nat, g: nat, lead: seq<Step>, work: seq<Step>, rest: seq<Step>)
    requires WellFormed(t, s)
  {
    && f < |s| && g < |s| && f != g && IsRun(t, s, lead) && WellFormed(t, After(t, s, lead))
    && var s1 := After(t, s, lead);
    && g < |s1| && var open := Open(f, g, AllIds(s1[g]));
    && Enabled(t, s1, open) && WellFormed(t, Apply(t, s1, open)) && IsRun(t, Apply(t, s1, open), work)
    && Close(f) !in work
    && var s2 := After(t, Apply(t, s1, open), work);
    && WellFormed(t, s2) && Enabled(t, s2, Close(f)) && WellFormed(t, Apply(t, s2, Close(f)))
    && IsRun(t, Apply(t, s2, Close(f)), rest)
  }

  ghost function FullSyncSteps(t: Target, s: Net, f: nat, g: nat, lead: seq<Step>, work: seq<Step>,
                               rest: seq<Step>): seq<Step>
    requires WellFormed(t, s) && FullSync(t, s, f, g, lead, work, rest)
  {
    lead + [Open(f, g, AllIds(After(t, s, lead)[g]))] + work + [Close(f)] + rest
  }

  /** A stretch of a run, with any other steps in it, in which every fuzzer syncs fully with every other one. */
  ghost predicate IsRound(t: Target, s: Net, steps: seq<Step>)
    requires WellFormed(t, s)
  {
    && IsRun(t, s, steps)
    && forall f, g :: 0 <= f < |s| && 0 <= g < |s| && f != g ==> SyncsFully(t, s, f, g, steps)
  }

  ghost predicate SyncsFully(t: Target, s: Net, f: nat, g: nat, steps: seq<Step>)
    requires WellFormed(t, s)
  {
    exists lead, work, rest ::
      FullSync(t, s, f, g, lead, work, rest) && steps == FullSyncSteps(t, s, f, g, lead, work, rest)
  }

  /** A session over a full listing that is about to end stores a mark at the end of that listing or beyond. */
  lemma {:induction false} FullListingReaches(t: Target, s: Net, f: nat, len: nat)
    requires Inv(t, s) && Enabled(t, s, Close(f)) && s[f].session.listing == IdsBelow(len)
    ensures Apply(t, s, Close(f))[f].marks[s[f].session.peer] >= len
  {
    assert SessionOk(t, s, f);
    if len > 0 {
      assert len - 1 in s[f].session.listing;
    }
  }

  lemma {:induction false} FullSyncReaches(t: Target, s: Net, f: nat, g: nat, lead: seq<Step>, work: seq<Step>,
                                           rest: seq<Step>)
    requires Inv(t, s) && FullSync(t, s, f, g, lead, work, rest)
    ensures var steps := FullSyncSteps(t, s, f, g, lead, work, rest);
            && IsRun(t, s, steps) && |After(t, s, steps)| == |s| && g < |After(t, s, steps)[f].marks|
            && After(t, s, steps)[f].marks[g] >= |s[g].queue|
  {
    var s1 := After(t, s, lead);
    var open := Open(f, g, AllIds(s1[g]));
    var s1' := Apply(t, s1, open);
    var s2 := After(t, s1', work);
    var s3 := Apply(t, s2, Close(f));
    RunKeepsInv(t, s, lead);
    RunIsLater(t, s, lead);
    StepKeepsInv(t, s1, open);
    RunKeepsInv(t, s1', work);
    SessionLasts(t, s1', work, f);
    FullListingReaches(t, s2, f, |s1[g].queue|);
    StepKeepsInv(t, s2, Close(f));
    RunIsLater(t, s3, rest);
    FullSyncIsRun(t, s, f, g, lead, work, rest);
  }

  lemma {:induction false} FullSyncIsRun(t: Target, s: Net, f: nat, g: nat, lead: seq<Step>, work: seq<Step>,
                                         rest: seq<Step>)
    requires WellFormed(t, s) && FullSync(t, s, f, g, lead, work, rest)
    ensures var steps := FullSyncSteps(t, s, f, g, lead, work, rest);
            var s1 := After(t, s, lead);
            var s2 := After(t, Apply(t, s1, Open(f, g, AllIds(s1[g]))), work);
            IsRun(t, s, steps) && After(t, s, steps) == After(t, Apply(t, s2, Close(f)), rest)
  {
    var s1 := After(t, s, lead);
    var open := Open(f, g, AllIds(s1[g]));
    var s2 := After(t, Apply(t, s1, open), work);
    OneStep(t, s1, open);
    RunConcat(t, s, lead, [open]);
    RunConcat(t, s, lead + [open], work);
    OneStep(t, s2, Close(f));
    RunConcat(t, s, lead + [open] + work, [Close(f)]);
    RunConcat(t, s, lead + [open] + work + [Close(f)], rest);
  }

  /** In a round in which no queue grew, one mark reaches the end of the peer's queue. */
  lemma {:induction false} QuietRoundReaches(t: Target, s: Net, steps: seq<Step>, f: nat, g: nat)
    requires Inv(t, s) && IsRun(t, s, steps) && f < |s| && g < |s| && f != g && SyncsFully(t, s, f, g, steps)
    requires Entries(After(t, s, steps)) == Entries(s)
    ensures var s' := After(t, s, steps);
            |s'| == |s| && |s'[f].marks| == |s'| && s'[f].marks[g] == |s'[g].queue|
  {
    var s' := After(t, s, steps);
    RunKeepsInv(t, s, steps);
    SameLengths(t, s, steps, g);
    var lead, work, rest :|
      FullSync(t, s, f, g, lead, work, rest) && steps == FullSyncSteps(t, s, f, g, lead, work, rest);
    FullSyncReaches(t, s, f, g, lead, work, rest);
    assert MarkOk(t, s'[f], s'[g], g);
  }

  lemma {:induction false} SameLengths(t: Target, s: Net, steps: seq<Step>, g: nat)
    requires Inv(t, s) && IsRun(t, s, steps) && g < |s| && Entries(After(t, s, steps)) == Entries(s)
    ensures |After(t, s, steps)| == |s| && |After(t, s, steps)[g].queue| == |s[g].queue|
  {
    var s' := After(t, s, steps);
    RunIsLater(t, s, steps);
    SmallerSum(QueueLengths(s), QueueLengths(s'), g);
    assert QueueLengths(s)[g] == QueueLengths(s')[g];
  }

  /** After a round in which no queue grew, everyone has caught up. */
  lemma {:induction false} QuietRoundCatchesUp(t: Target, s: Net, steps: seq<Step>)
    requires Inv(t, s) && IsRound(t, s, steps) && Entries(After(t, s, steps)) == Entries(s)
    ensures CaughtUp(After(t, s, steps))
  {
    var s' := After(t, s, steps);
    RunIsLater(t, s, steps);
    forall f, g | 0 <= f < |s| && 0 <= g < |s| && f != g
      ensures |s'[f].marks| == |s'| && s'[f].marks[g] == |s'[g].queue|
    {
      QuietRoundReaches(t, s, steps, f, g);
    }
  }

  /** Round after round. */
  ghost predicate AreRounds(t: Target, s: Net, rounds: seq<seq<Step>>)
    requires WellFormed(t, s)
    decreases |rounds|
  {
    || rounds == []
    || (&& IsRound(t, s, rounds[0]) && WellFormed(t, After(t, s, rounds[0]))
        && AreRounds(t, After(t, s, rounds[0]), rounds[1..]))
  }

  ghost function AfterRounds(t: Target, s: Net, rounds: seq<seq<Step>>, k: nat): Net
    requires WellFormed(t, s) && AreRounds(t, s, rounds) && k <= |rounds|
    decreases k
  {
    if k == 0 then s else AfterRounds(t, After(t, s, rounds[0]), rounds[1..], k - 1)
  }

  /** A round in which some queue grew has used up bits. */
  lemma {:induction false} LoudRoundCostsBits(t: Target, s: Net, steps: seq<Step>)
    requires Inv(t, s) && IsRun(t, s, steps) && Entries(After(t, s, steps)) != Entries(s)
    ensures TotalBits(After(t, s, steps)) < TotalBits(s)
  {
    RunBudget(t, s, steps);
    RunIsLater(t, s, steps);
    SmallerSum(QueueLengths(s), QueueLengths(After(t, s, steps)), 0);
  }

  /** Every fuzzer has caught up with every other one; and the maps are equal if and only if the skipped entries are
      covered. */
  ghost predicate Settled(t: Target, s: Net) {
    CaughtUp(s) && (SameMapsEverywhere(s) <==> AllSkipsCovered(t, s))
  }

  /** Among more rounds than there are bits left to find, there is one after which the fuzzers have settled. Finds may
      go on all the while. */
  lemma {:induction false} FuzzersCatchUp(t: Target, s: Net, rounds: seq<seq<Step>>)
    requires Inv(t, s) && AreRounds(t, s, rounds) && |rounds| > TotalBits(s)
    ensures exists k :: 0 < k <= |rounds| && Settled(t, AfterRounds(t, s, rounds, k))
    decreases |rounds|
  {
    var s' := After(t, s, rounds[0]);
    RunKeepsInv(t, s, rounds[0]);
    if Entries(s') == Entries(s) {
      QuietRoundCatchesUp(t, s, rounds[0]);
      CaughtUpMeans(t, s');
      FirstRound(t, s, rounds, 0);
      assert Settled(t, AfterRounds(t, s, rounds, 1));
    } else {
      LoudRoundCostsBits(t, s, rounds[0]);
      FuzzersCatchUp(t, s', rounds[1..]);
      var k: nat :| 0 < k <= |rounds| - 1 && Settled(t, AfterRounds(t, s', rounds[1..], k));
      FirstRound(t, s, rounds, k);
      assert Settled(t, AfterRounds(t, s, rounds, k + 1));
    }
  }

  lemma {:induction false} FirstRound(t: Target, s: Net, rounds: seq<seq<Step>>, k: nat)
    requires WellFormed(t, s) && AreRounds(t, s, rounds) && k < |rounds|
    ensures AfterRounds(t, s, rounds, k + 1) == AfterRounds(t, After(t, s, rounds[0]), rounds[1..], k)
    ensures k == 0 ==> AfterRounds(t, s, rounds, 1) == After(t, s, rounds[0])
  {
  }
}
