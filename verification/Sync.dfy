/** Fuzzers that exchange queue entries through a shared directory: `sync_fuzzers`. */
module Sync {
  import opened Bytes
  import opened Coverage

  /** The target, as every fuzzer sees it: a deterministic map from inputs to traces of `size` cells. */
  datatype Target = Target(size: nat, run: Input -> Trace)

  ghost predicate IsTarget(t: Target) {
    forall x :: |t.run(x)| == t.size
  }

  /** The state of `sync_fuzzers` while it works through the queue directory of one peer. `listing` holds the ids that
      the directory scan returns, `pending` those not yet looked at. */
  datatype Session = Idle | Syncing(peer: nat, minAccept: nat, nextMin: nat, listing: set<nat>, pending: set<nat>)

  /** One fuzzer: its queue directory, its virgin map, its high-water mark per peer, and two records that the code does
      not keep: the peer entries it has executed, and those its marks have passed although no scan ever listed them. */
  datatype Node = Node(
    queue: seq<Input>, virgin: Trace, marks: seq<nat>, session: Session, ran: seq<(nat, nat)>, skipped: set<(nat, nat)>)

  type Net = seq<Node>

  datatype Step =
    | Find(f: nat, x: Input)               // fuzzer f executes an input of its own
    | Trim(f: nat, id: nat, x: Input)      // fuzzer f replaces a queue file by a trimmed one
    | Open(f: nat, g: nat, ids: set<nat>)  // f reads its mark for g and scans g's queue directory
    | RunEntry(f: nat, id: nat)            // f executes one listed file of the peer
    | Close(f: nat)                        // f stores the new mark

  /** What an execution of `x` does to a fuzzer: keep it iff it shows new bits. */
  ghost function Keep(t: Target, n: Node, x: Input): Node
    requires IsTarget(t) && |n.virgin| == t.size
  {
    n.(virgin := Clear(n.virgin, t.run(x)),
       queue := if Novelty(n.virgin, t.run(x)) != 0 then n.queue + [x] else n.queue)
  }

  ghost predicate WellFormed(t: Target, s: Net) {
    && IsTarget(t)
    && forall f :: 0 <= f < |s| ==>
         && |s[f].virgin| == t.size && |s[f].marks| == |s|
         && (s[f].session.Syncing? ==> s[f].session.peer < |s|)
  }

  ghost predicate Enabled(t: Target, s: Net, step: Step)
    requires WellFormed(t, s)
  {
    match step
    case Find(f, x) => f < |s| && s[f].session.Idle?
    case Trim(f, id, x) => f < |s| && id < |s[f].queue| && t.run(x) == t.run(s[f].queue[id])
    case Open(f, g, ids) =>
      f < |s| && g < |s| && f != g && s[f].session.Idle? && forall id :: id in ids ==> id < |s[g].queue|
    case RunEntry(f, id) =>
      && f < |s| && s[f].session.Syncing? && id in s[f].session.pending && id < |s[s[f].session.peer].queue|
    case Close(f) => f < |s| && s[f].session.Syncing? && s[f].session.pending == {}
  }

  function AtLeast(ids: set<nat>, mark: nat): (r: set<nat>)
    ensures mark == 0 ==> r == ids
  {
    set id | id in ids && id >= mark
  }

  /** The fuzzer that takes the step, afterwards. */
  ghost function NodeAfter(t: Target, s: Net, step: Step): Node
    requires WellFormed(t, s) && Enabled(t, s, step)
  {
    match step
    case Find(f, x) => Keep(t, s[f], x)
    case Trim(f, id, x) => s[f].(queue := s[f].queue[id := x])
    case Open(f, g, ids) =>
      var mark := s[f].marks[g];
      s[f].(session := Syncing(g, mark, mark, ids, AtLeast(ids, mark)))
    case RunEntry(f, id) =>
      var ses := s[f].session;
      var kept := Keep(t, s[f], s[ses.peer].queue[id]);
      kept.(session := ses.(nextMin := Max(ses.nextMin, id + 1), pending := ses.pending - {id}),
            ran := kept.ran + [(ses.peer, id)])
    case Close(f) =>
      var ses := s[f].session;
      s[f].(session := Idle, marks := s[f].marks[ses.peer := ses.nextMin], skipped := s[f].skipped + Skips(ses))
  }

  /** The ids that the mark of a finished session passes although the scan did not return them. */
  ghost function Missed(ses: Session): set<nat>
    requires ses.Syncing?
  {
    set id: nat | ses.minAccept <= id < ses.nextMin && id !in ses.listing
  }

  ghost function Skips(ses: Session): set<(nat, nat)>
    requires ses.Syncing?
  {
    set id | id in Missed(ses) :: (ses.peer, id)
  }

  ghost function Apply(t: Target, s: Net, step: Step): Net
    requires WellFormed(t, s) && Enabled(t, s, step)
  {
    s[step.f := NodeAfter(t, s, step)]
  }

  /** The scan of a directory returned no id without every smaller one from the mark on. A scan that is atomic
      does; so does one that misses only the newest files. */
  ghost predicate GapFree(ids: set<nat>, mark: nat) {
    forall id, j :: id in ids && mark <= j < id ==> j in ids
  }

  // ----- the invariant -----

  ghost function Traces(t: Target, queue: seq<Input>): (ts: seq<Trace>)
    ensures |ts| == |queue| && (IsTarget(t) ==> SameSize(t.size, ts))
  {
    seq(|queue|, k requires 0 <= k < |queue| => t.run(queue[k]))
  }

  ghost predicate Covered(virgin: Trace, t: Trace) {
    |virgin| == |t| && forall i :: 0 <= i < |t| ==> t[i] & virgin[i] == 0
  }

  /** The cleared virgin bits are exactly the union of the traces in the fuzzer's own queue. */
  ghost predicate OwnQueueExplains(t: Target, n: Node)
    requires IsTarget(t)
  {
    n.virgin == VirginAfter(t.size, Traces(t, n.queue))
  }

  /** Fuzzer `n` has covered entry `id` of the queue of `peer`. */
  ghost predicate HasCovered(t: Target, n: Node, peer: Node, id: nat) {
    id < |peer.queue| && Covered(n.virgin, t.run(peer.queue[id]))
  }

  /** Below its mark for peer `g`, the fuzzer has covered every entry but the skipped ones. */
  ghost predicate MarkOk(t: Target, n: Node, peer: Node, g: nat) {
    && g < |n.marks| && n.marks[g] <= |peer.queue|
    && forall id: nat :: id < n.marks[g] ==> HasCovered(t, n, peer, id) || (g, id) in n.skipped
  }

  ghost predicate SessionOk(t: Target, s: Net, f: nat)
    requires WellFormed(t, s) && f < |s|
  {
    s[f].session.Syncing? ==>
      var ses := s[f].session;
      && ses.peer != f
      && ses.minAccept == s[f].marks[ses.peer] <= ses.nextMin
      && (forall id :: id in ses.listing ==> id < |s[ses.peer].queue|)
      && (forall id :: id in ses.pending ==> id in ses.listing && id >= ses.minAccept)
      && (forall id :: id in ses.listing && id >= ses.minAccept && id !in ses.pending ==>
            id < ses.nextMin && HasCovered(t, s[f], s[ses.peer], id))
      && (ses.nextMin > ses.minAccept ==> ses.nextMin - 1 in ses.listing - ses.pending)
  }

  /** Fuzzer `f` may already have executed entry `id` of `g`. */
  ghost predicate Visited(n: Node, g: nat, id: nat) {
    && g < |n.marks|
    && (id < n.marks[g] || (n.session.Syncing? && n.session.peer == g && id in n.session.listing - n.session.pending))
  }

  ghost predicate LogOk(n: Node) {
    && (forall j, k :: 0 <= j < k < |n.ran| ==> n.ran[j] != n.ran[k])
    && (forall j :: 0 <= j < |n.ran| ==> Visited(n, n.ran[j].0, n.ran[j].1))
  }

  /** A skipped entry lies below the mark and was never executed. */
  ghost predicate SkipsOk(n: Node) {
    forall g, id :: (g, id) in n.skipped ==> g < |n.marks| && id < n.marks[g] && (g, id) !in n.ran
  }

  ghost predicate Inv(t: Target, s: Net) {
    && WellFormed(t, s)
    && (forall f :: 0 <= f < |s| ==> OwnQueueExplains(t, s[f]))
    && (forall f, g :: 0 <= f < |s| && 0 <= g < |s| && f != g ==> MarkOk(t, s[f], s[g], g))
    && (forall f :: 0 <= f < |s| ==> SessionOk(t, s, f))
    && (forall f :: 0 <= f < |s| ==> LogOk(s[f]))
    && (forall f :: 0 <= f < |s| ==> SkipsOk(s[f]))
  }

  /** Every fuzzer has run its own seeds and nothing else. */
  ghost predicate Init(t: Target, s: Net) {
    && WellFormed(t, s)
    && forall f :: 0 <= f < |s| ==>
         && s[f].session.Idle? && s[f].ran == [] && s[f].skipped == {} && OwnQueueExplains(t, s[f])
         && forall g :: 0 <= g < |s| ==> s[f].marks[g] == 0
  }

  lemma InitInv(t: Target, s: Net)
    requires Init(t, s)
    ensures Inv(t, s)
  {
  }

  // ----- executing an input -----

  lemma ClearCovers(virgin: Trace, t: Trace)
    requires |virgin| == |t|
    ensures Covered(Clear(virgin, t), t)
  {
    forall i | 0 <= i < |t|
      ensures t[i] & Clear(virgin, t)[i] == 0
    {
      CellCleared(virgin[i], t[i], t[i]);
    }
  }

  lemma ClearKeepsCovered(virgin: Trace, t: Trace, u: Trace)
    requires |virgin| == |t| && Covered(virgin, u)
    ensures Covered(Clear(virgin, t), u)
  {
    forall i | 0 <= i < |t|
      ensures u[i] & Clear(virgin, t)[i] == 0
    {
      CellCleared(virgin[i], t[i], u[i]);
    }
  }

  lemma CellCleared(v: Cell, c: Cell, u: Cell)
    ensures c & (v & !c) == 0
    ensures u & v == 0 ==> u & (v & !c) == 0
  {
  }

  /** Executing an input keeps the explanation by the own queue, covers that input, and loses nothing. */
  lemma KeepExplains(t: Target, n: Node, x: Input)
    requires IsTarget(t) && |n.virgin| == t.size && OwnQueueExplains(t, n)
    ensures OwnQueueExplains(t, Keep(t, n, x))
    ensures Covered(Keep(t, n, x).virgin, t.run(x))
    ensures forall u :: Covered(n.virgin, u) ==> Covered(Keep(t, n, x).virgin, u)
  {
    NotNovelIsNoChange(n.virgin, t.run(x));
    assert Traces(t, n.queue + [x])[..|n.queue|] == Traces(t, n.queue);
    ClearCovers(n.virgin, t.run(x));
    forall u | Covered(n.virgin, u)
      ensures Covered(Clear(n.virgin, t.run(x)), u)
    {
      ClearKeepsCovered(n.virgin, t.run(x), u);
    }
  }

  // ----- every step keeps the invariant -----

  /** `n'` has a larger queue and a smaller virgin map than `n`, with every old entry leaving its old trace. */
  ghost predicate Grown(t: Target, n: Node, n': Node) {
    && |n.virgin| == |n'.virgin|
    && |n.queue| <= |n'.queue|
    && (forall id :: 0 <= id < |n.queue| ==> t.run(n'.queue[id]) == t.run(n.queue[id]))
    && (forall u :: Covered(n.virgin, u) ==> Covered(n'.virgin, u))
  }

  lemma GrownCovers(t: Target, n: Node, n': Node, p: Node, p': Node, id: nat)
    requires Grown(t, n, n') && Grown(t, p, p') && HasCovered(t, n, p, id)
    ensures HasCovered(t, n', p', id)
  {
  }

  lemma NodeGrows(t: Target, s: Net, step: Step)
    requires Inv(t, s) && Enabled(t, s, step)
    ensures Grown(t, s[step.f], NodeAfter(t, s, step)) && OwnQueueExplains(t, NodeAfter(t, s, step))
  {
    var n := s[step.f];
    assert OwnQueueExplains(t, n);
    match step
    case Find(f, x) =>
      KeepExplains(t, n, x);
    case Trim(f, id, x) =>
      assert Traces(t, n.queue[id := x]) == Traces(t, n.queue);
    case Open(f, g, ids) =>
    case RunEntry(f, id) =>
      KeepExplains(t, n, s[n.session.peer].queue[id]);
    case Close(f) =>
  }

  lemma StepGrows(t: Target, s: Net, step: Step)
    requires Inv(t, s) && Enabled(t, s, step)
    ensures var s' := Apply(t, s, step);
            && WellFormed(t, s') && |s'| == |s|
            && (forall f :: 0 <= f < |s| ==> Grown(t, s[f], s'[f]) && OwnQueueExplains(t, s'[f]))
  {
    NodeGrows(t, s, step);
  }

  lemma StepKeepsMarks(t: Target, s: Net, step: Step, f: nat, g: nat)
    requires Inv(t, s) && Enabled(t, s, step)
    requires f < |s| && g < |s| && f != g
    ensures WellFormed(t, Apply(t, s, step))
    ensures MarkOk(t, Apply(t, s, step)[f], Apply(t, s, step)[g], g)
  {
    StepGrows(t, s, step);
    var s' := Apply(t, s, step);
    assert SessionOk(t, s, f) && MarkOk(t, s[f], s[g], g);
    var ses := s[f].session;
    forall id: nat | id < s'[f].marks[g]
      ensures HasCovered(t, s'[f], s'[g], id) || (g, id) in s'[f].skipped
    {
      if id >= s[f].marks[g] {
        assert step == Close(f) && ses.peer == g && id < ses.nextMin;
        if id in ses.listing {
          GrownCovers(t, s[f], s'[f], s[g], s'[g], id);
        } else {
          assert id in Missed(ses);
        }
      } else if (g, id) !in s[f].skipped {
        GrownCovers(t, s[f], s'[f], s[g], s'[g], id);
      }
    }
  }

  lemma OpenedSession(t: Target, s: Net, step: Step)
    requires Inv(t, s) && Enabled(t, s, step) && step.Open?
    ensures WellFormed(t, Apply(t, s, step)) && SessionOk(t, Apply(t, s, step), step.f)
  {
    StepGrows(t, s, step);
  }

  lemma RunningSession(t: Target, s: Net, step: Step)
    requires Inv(t, s) && Enabled(t, s, step) && step.RunEntry?
    ensures WellFormed(t, Apply(t, s, step)) && SessionOk(t, Apply(t, s, step), step.f)
  {
    StepGrows(t, s, step);
    var f, s' := step.f, Apply(t, s, step);
    var ses, ses' := s[f].session, s'[f].session;
    assert SessionOk(t, s, f);
    forall id | id in ses'.listing && id >= ses'.minAccept && id !in ses'.pending
      ensures id < ses'.nextMin && HasCovered(t, s'[f], s'[ses'.peer], id)
    {
      if id == step.id {
        KeepExplains(t, s[f], s[ses.peer].queue[id]);
      } else {
        GrownCovers(t, s[f], s'[f], s[ses.peer], s'[ses.peer], id);
      }
    }
  }

  /** A session that the step does not advance. */
  lemma StandingSession(t: Target, s: Net, s': Net, f: nat)
    requires Inv(t, s) && WellFormed(t, s') && |s'| == |s| && f < |s|
    requires forall g :: 0 <= g < |s| ==> Grown(t, s[g], s'[g])
    requires s'[f].session == s[f].session && s'[f].marks == s[f].marks
    ensures SessionOk(t, s', f)
  {
    assert SessionOk(t, s, f);
    if s[f].session.Syncing? {
      var ses := s[f].session;
      forall id | id in ses.listing && id >= ses.minAccept && id !in ses.pending
        ensures HasCovered(t, s'[f], s'[ses.peer], id)
      {
        GrownCovers(t, s[f], s'[f], s[ses.peer], s'[ses.peer], id);
      }
    }
  }

  lemma StepKeepsSession(t: Target, s: Net, step: Step, f: nat)
    requires Inv(t, s) && Enabled(t, s, step) && f < |s|
    ensures WellFormed(t, Apply(t, s, step)) && SessionOk(t, Apply(t, s, step), f)
  {
    StepGrows(t, s, step);
    if f == step.f && step.Open? {
      OpenedSession(t, s, step);
    } else if f == step.f && step.RunEntry? {
      RunningSession(t, s, step);
    } else if !(f == step.f && step.Close?) {
      StandingSession(t, s, Apply(t, s, step), f);
    }
  }

  /** Whatever the one has visited, the other has. */
  ghost predicate StillVisited(n: Node, n': Node) {
    forall g, id :: Visited(n, g, id) ==> Visited(n', g, id)
  }

  lemma LogStays(n: Node, n': Node)
    requires LogOk(n) && n'.ran == n.ran && StillVisited(n, n')
    ensures LogOk(n')
  {
    forall j | 0 <= j < |n.ran|
      ensures Visited(n', n.ran[j].0, n.ran[j].1)
    {
      assert Visited(n, n.ran[j].0, n.ran[j].1);
    }
  }

  lemma LogGrows(n: Node, n': Node, g: nat, id: nat)
    requires LogOk(n) && !Visited(n, g, id) && Visited(n', g, id) && n'.ran == n.ran + [(g, id)] && StillVisited(n, n')
    ensures LogOk(n')
  {
    forall j | 0 <= j < |n.ran|
      ensures Visited(n', n.ran[j].0, n.ran[j].1) && n.ran[j] != (g, id)
    {
      assert Visited(n, n.ran[j].0, n.ran[j].1);
    }
  }

  lemma StepKeepsLog(t: Target, s: Net, step: Step, f: nat)
    requires Inv(t, s) && Enabled(t, s, step) && f < |s|
    ensures LogOk(Apply(t, s, step)[f])
  {
    assert LogOk(s[f]) && SessionOk(t, s, f);
    if step.RunEntry? && step.f == f {
      LogGrows(s[f], Apply(t, s, step)[f], s[f].session.peer, step.id);
    } else {
      LogStays(s[f], Apply(t, s, step)[f]);
    }
  }

  lemma StepKeepsSkips(t: Target, s: Net, step: Step, f: nat)
    requires Inv(t, s) && Enabled(t, s, step) && f < |s|
    ensures SkipsOk(Apply(t, s, step)[f]) && s[f].skipped <= Apply(t, s, step)[f].skipped
  {
    assert SkipsOk(s[f]) && SessionOk(t, s, f) && LogOk(s[f]);
    if step == Close(f) {
      var ses := s[f].session;
      forall id | id in Missed(ses)
        ensures (ses.peer, id) !in s[f].ran
      {
        assert !Visited(s[f], ses.peer, id);
      }
    }
  }

  lemma StepKeepsInv(t: Target, s: Net, step: Step)
    requires Inv(t, s) && Enabled(t, s, step)
    ensures Inv(t, Apply(t, s, step))
  {
    StepGrows(t, s, step);
    var s' := Apply(t, s, step);
    forall f | 0 <= f < |s|
      ensures SessionOk(t, s', f) && LogOk(s'[f]) && SkipsOk(s'[f])
    {
      StepKeepsSession(t, s, step, f);
      StepKeepsLog(t, s, step, f);
      StepKeepsSkips(t, s, step, f);
    }
    forall f, g | 0 <= f < |s| && 0 <= g < |s| && f != g
      ensures MarkOk(t, s'[f], s'[g], g)
    {
      StepKeepsMarks(t, s, step, f, g);
    }
  }

  // ----- every run -----

  ghost predicate IsRun(t: Target, s: Net, steps: seq<Step>)
    requires WellFormed(t, s)
    decreases |steps|
  {
    steps == [] ||
    (Enabled(t, s, steps[0]) && WellFormed(t, Apply(t, s, steps[0])) && IsRun(t, Apply(t, s, steps[0]), steps[1..]))
  }

  ghost function After(t: Target, s: Net, steps: seq<Step>): Net
    requires WellFormed(t, s) && IsRun(t, s, steps)
    decreases |steps|
  {
    if steps == [] then s else After(t, Apply(t, s, steps[0]), steps[1..])
  }

  lemma {:induction false} RunKeepsInv(t: Target, s: Net, steps: seq<Step>)
    requires Inv(t, s) && IsRun(t, s, steps)
    ensures Inv(t, After(t, s, steps)) && |After(t, s, steps)| == |s|
    ensures forall f :: 0 <= f < |s| ==> s[f].skipped <= After(t, s, steps)[f].skipped
    decreases |steps|
  {
    if steps != [] {
      var s' := Apply(t, s, steps[0]);
      StepKeepsInv(t, s, steps[0]);
      RunKeepsInv(t, s', steps[1..]);
      forall f | 0 <= f < |s|
        ensures s[f].skipped <= s'[f].skipped
      {
        StepKeepsSkips(t, s, steps[0], f);
      }
    }
  }

  /** An entry that was skipped once stays skipped, and is never executed, however the run goes on. */
  lemma {:induction false} SkippedForGood(t: Target, s: Net, steps: seq<Step>, more: seq<Step>, f: nat, g: nat, id: nat)
    requires Init(t, s) && IsRun(t, s, steps) && WellFormed(t, After(t, s, steps)) && IsRun(t, After(t, s, steps), more)
    requires f < |After(t, s, steps)| && (g, id) in After(t, s, steps)[f].skipped
    ensures var end := After(t, After(t, s, steps), more);
            f < |end| && (g, id) in end[f].skipped && (g, id) !in end[f].ran
  {
    InitInv(t, s);
    RunKeepsInv(t, s, steps);
    RunKeepsInv(t, After(t, s, steps), more);
  }

  /** Every high-water mark has reached the end of the peer's queue. */
  ghost predicate CaughtUp(s: Net) {
    forall f, g :: 0 <= f < |s| && 0 <= g < |s| && f != g ==> |s[f].marks| == |s| && s[f].marks[g] == |s[g].queue|
  }

  lemma {:induction false} CoveredUnion(n: nat, ts: seq<Trace>, virgin: Trace, i: nat)
    requires SameSize(n, ts) && |virgin| == n && i < n
    requires forall k :: 0 <= k < |ts| ==> Covered(virgin, ts[k])
    ensures UnionAt(n, ts, i) & virgin[i] == 0
  {
    if ts != [] {
      var last := ts[|ts| - 1];
      CoveredUnion(n, ts[..|ts| - 1], virgin, i);
      assert last[i] & virgin[i] == 0;
      CoveredOr(UnionAt(n, ts[..|ts| - 1], i), last[i], virgin[i]);
    }
  }

  lemma CoveredOr(a: Cell, b: Cell, v: Cell)
    requires a & v == 0 && b & v == 0
    ensures (a | b) & v == 0
  {
  }

  /** Every skipped entry of peer `g` has been covered all the same. */
  ghost predicate SkipsCovered(t: Target, n: Node, peer: Node, g: nat) {
    forall id: nat :: (g, id) in n.skipped ==> HasCovered(t, n, peer, id)
  }

  /** The fuzzer has cleared every bit that the peer has cleared. */
  ghost predicate Includes(n: Node, peer: Node) {
    |n.virgin| == |peer.virgin| && forall i :: 0 <= i < |n.virgin| ==> n.virgin[i] & !peer.virgin[i] == 0
  }

  lemma UncoveredBits(u: Cell, v: Cell)
    ensures u & v == 0 <==> v & !(!u) == 0
  {
  }

  lemma {:induction false} UnionCovers(n: nat, ts: seq<Trace>, k: nat, v: Cell, i: nat)
    requires SameSize(n, ts) && k < |ts| && i < n && UnionAt(n, ts, i) & v == 0
    ensures ts[k][i] & v == 0
  {
    var last := |ts| - 1;
    PartOfOr(UnionAt(n, ts[..last], i), ts[last][i], v);
    if k < last {
      UnionCovers(n, ts[..last], k, v, i);
    }
  }

  lemma PartOfOr(a: Cell, b: Cell, v: Cell)
    requires (a | b) & v == 0
    ensures a & v == 0 && b & v == 0
  {
  }

  /** A fuzzer that has cleared all that a peer has covers every entry of the peer's queue. */
  lemma IncludedIsCovered(t: Target, n: Node, peer: Node, id: nat)
    requires IsTarget(t) && |peer.virgin| == t.size && OwnQueueExplains(t, peer) && Includes(n, peer)
             && id < |peer.queue|
    ensures HasCovered(t, n, peer, id)
  {
    var ts := Traces(t, peer.queue);
    forall i | 0 <= i < t.size
      ensures ts[id][i] & n.virgin[i] == 0
    {
      VirginIsComplement(t.size, ts, i);
      UncoveredBits(UnionAt(t.size, ts, i), n.virgin[i]);
      UnionCovers(t.size, ts, id, n.virgin[i], i);
    }
  }

  /** A fuzzer that covers every entry of a peer's queue has cleared all that the peer has. */
  lemma CoveredIsIncluded(t: Target, n: Node, peer: Node)
    requires IsTarget(t) && |n.virgin| == |peer.virgin| == t.size && OwnQueueExplains(t, peer)
    requires forall id: nat :: id < |peer.queue| ==> HasCovered(t, n, peer, id)
    ensures Includes(n, peer)
  {
    var ts := Traces(t, peer.queue);
    forall k | 0 <= k < |ts|
      ensures Covered(n.virgin, ts[k])
    {
      assert HasCovered(t, n, peer, k);
    }
    forall i | 0 <= i < t.size
      ensures n.virgin[i] & !peer.virgin[i] == 0
    {
      CoveredUnion(t.size, ts, n.virgin, i);
      VirginIsComplement(t.size, ts, i);
      UncoveredBits(UnionAt(t.size, ts, i), n.virgin[i]);
    }
  }

  /** A fuzzer whose mark has reached the end of a peer's queue has cleared every bit the peer has, if and only if it
      has covered the entries it skipped. */
  lemma CaughtUpCovers(t: Target, s: Net, f: nat, g: nat)
    requires Inv(t, s) && f < |s| && g < |s| && f != g && s[f].marks[g] == |s[g].queue|
    ensures Includes(s[f], s[g]) <==> SkipsCovered(t, s[f], s[g], g)
  {
    assert MarkOk(t, s[f], s[g], g) && OwnQueueExplains(t, s[g]) && SkipsOk(s[f]);
    if Includes(s[f], s[g]) {
      forall id: nat | (g, id) in s[f].skipped
        ensures HasCovered(t, s[f], s[g], id)
      {
        IncludedIsCovered(t, s[f], s[g], id);
      }
    }
    if SkipsCovered(t, s[f], s[g], g) {
      CoveredIsIncluded(t, s[f], s[g]);
    }
  }

  lemma SameCell(a: Cell, b: Cell)
    ensures a & !b == 0 && b & !a == 0 <==> a == b
  {
  }

  lemma SameMaps(n: Node, m: Node)
    requires |n.virgin| == |m.virgin|
    ensures n.virgin == m.virgin <==> Includes(n, m) && Includes(m, n)
  {
    forall i | 0 <= i < |n.virgin|
      ensures n.virgin[i] & !m.virgin[i] == 0 && m.virgin[i] & !n.virgin[i] == 0 <==> n.virgin[i] == m.virgin[i]
    {
      SameCell(n.virgin[i], m.virgin[i]);
    }
  }

  ghost predicate SameMapsEverywhere(s: Net) {
    forall f, g :: 0 <= f < |s| && 0 <= g < |s| ==> s[f].virgin == s[g].virgin
  }

  /** Whatever any fuzzer skipped, it has covered all the same. */
  ghost predicate AllSkipsCovered(t: Target, s: Net) {
    forall f, g :: 0 <= f < |s| && 0 <= g < |s| && f != g ==> SkipsCovered(t, s[f], s[g], g)
  }

  lemma CaughtUpMeans(t: Target, s: Net)
    requires Inv(t, s) && CaughtUp(s)
    ensures SameMapsEverywhere(s) <==> AllSkipsCovered(t, s)
  {
    forall f, g | 0 <= f < |s| && 0 <= g < |s| && f != g
      ensures s[f].virgin == s[g].virgin <==> SkipsCovered(t, s[f], s[g], g) && SkipsCovered(t, s[g], s[f], f)
    {
      CaughtUpCovers(t, s, f, g);
      CaughtUpCovers(t, s, g, f);
      SameMaps(s[f], s[g]);
    }
  }

  /** The main result, for every interleaving of finds, trims and syncs of any number of fuzzers and any scans: the
      virgin map of each fuzzer is the complement of the union of its own queue's traces, no fuzzer executes a peer
      entry twice, and once all marks have reached the ends of the queues, all virgin maps are equal if and only if
      every entry that was skipped by a fuzzer is covered by that fuzzer. */
  lemma {:induction false} EveryRunConverges(t: Target, s: Net, steps: seq<Step>)
    requires Init(t, s) && IsRun(t, s, steps)
    ensures var end := After(t, s, steps);
            && WellFormed(t, end)
            && (forall f, i :: 0 <= f < |end| && 0 <= i < t.size ==>
                  end[f].virgin[i] == !UnionAt(t.size, Traces(t, end[f].queue), i))
            && (forall f, j, k :: 0 <= f < |end| && 0 <= j < k < |end[f].ran| ==> end[f].ran[j] != end[f].ran[k])
            && (CaughtUp(end) ==> (SameMapsEverywhere(end) <==> AllSkipsCovered(t, end)))
  {
    InitInv(t, s);
    RunKeepsInv(t, s, steps);
    var end := After(t, s, steps);
    forall f, i | 0 <= f < |end| && 0 <= i < t.size
      ensures end[f].virgin[i] == !UnionAt(t.size, Traces(t, end[f].queue), i)
    {
      VirginIsComplement(t.size, Traces(t, end[f].queue), i);
    }
    forall f | 0 <= f < |end|
      ensures LogOk(end[f])
    {
    }
    if CaughtUp(end) {
      CaughtUpMeans(t, end);
    }
  }

  // ----- when a session skips nothing -----

  /** In every reachable state, a session that is about to end skips nothing if and only if its scan had no gap. */
  lemma {:induction false} SkipsNothingIffGapFree(t: Target, s: Net, steps: seq<Step>, f: nat)
    requires Init(t, s) && IsRun(t, s, steps)
    requires WellFormed(t, After(t, s, steps)) && Enabled(t, After(t, s, steps), Close(f))
    ensures var n := After(t, s, steps)[f];
            && (Apply(t, After(t, s, steps), Close(f))[f].skipped == n.skipped
                <==> GapFree(n.session.listing, n.session.minAccept))
  {
    InitInv(t, s);
    RunKeepsInv(t, s, steps);
    var s' := After(t, s, steps);
    ClosingSkips(t, s', f);
  }

  lemma ClosingSkips(t: Target, s: Net, f: nat)
    requires Inv(t, s) && Enabled(t, s, Close(f))
    ensures Apply(t, s, Close(f))[f].skipped == s[f].skipped
            <==> GapFree(s[f].session.listing, s[f].session.minAccept)
  {
    assert SessionOk(t, s, f) && SkipsOk(s[f]);
    var ses := s[f].session;
    forall id | id in Missed(ses)
      ensures (ses.peer, id) in Skips(ses) && (ses.peer, id) !in s[f].skipped
    {
    }
    if Missed(ses) == {} {
      forall id, j | id in ses.listing && ses.minAccept <= j < id
        ensures j in ses.listing
      {
        assert j !in Missed(ses);
      }
    }
  }

  ghost predicate ScanIsGapFree(s: Net, step: Step) {
    step.Open? && step.f < |s| && step.g < |s[step.f].marks| ==> GapFree(step.ids, s[step.f].marks[step.g])
  }

  ghost predicate ScansAreGapFree(t: Target, s: Net, steps: seq<Step>)
    requires WellFormed(t, s) && IsRun(t, s, steps)
    decreases |steps|
  {
    steps == [] || (ScanIsGapFree(s, steps[0]) && ScansAreGapFree(t, Apply(t, s, steps[0]), steps[1..]))
  }

  /** Nothing was skipped so far and nothing is being skipped. */
  ghost predicate NoGaps(s: Net) {
    forall f :: 0 <= f < |s| ==>
      s[f].skipped == {} && (s[f].session.Syncing? ==> GapFree(s[f].session.listing, s[f].session.minAccept))
  }

  lemma {:induction false} GapFreeRunSkipsNothing(t: Target, s: Net, steps: seq<Step>)
    requires Inv(t, s) && NoGaps(s) && IsRun(t, s, steps) && ScansAreGapFree(t, s, steps)
    ensures NoGaps(After(t, s, steps))
    decreases |steps|
  {
    if steps != [] {
      var step := steps[0];
      if step.Close? {
        ClosingSkips(t, s, step.f);
      }
      StepKeepsInv(t, s, step);
      GapFreeRunSkipsNothing(t, Apply(t, s, step), steps[1..]);
    }
  }

  /** Hence, over every run whose scans have no gaps, fuzzers that have caught up have equal virgin maps. */
  lemma {:induction false} GapFreeRunsConverge(t: Target, s: Net, steps: seq<Step>)
    requires Init(t, s) && IsRun(t, s, steps) && ScansAreGapFree(t, s, steps)
    ensures CaughtUp(After(t, s, steps)) ==> SameMapsEverywhere(After(t, s, steps))
  {
    InitInv(t, s);
    GapFreeRunSkipsNothing(t, s, steps);
    EveryRunConverges(t, s, steps);
  }

  // ----- a run with a gap -----

  function TwoPaths(): Target {
    Target(1, (x: Input) => if x == [2] then [4] else [2])
  }

  /** Fuzzer 0 knows the path of [1]; fuzzer 1 knows that of [2] and that of [1]. */
  function GapStart(): Net {
    [Node([[1]], [0xfd], [0, 0], Idle, [], {}), Node([[2], [1]], [0xf9], [0, 0], Idle, [], {})]
  }

  /** The steps of a session whose scan returns one file. */
  function OneFileSession(f: nat, g: nat, id: nat): seq<Step> {
    [Open(f, g, {id}), RunEntry(f, id), Close(f)]
  }

  /** Fuzzer 0 scans the queue of fuzzer 1 but the scan returns the second file only; then fuzzer 1 syncs. */
  function GapSteps(): seq<Step> {
    OneFileSession(0, 1, 1) + OneFileSession(1, 0, 0)
  }

  lemma GapStartIsInit()
    ensures Init(TwoPaths(), GapStart())
  {
    var t := TwoPaths();
    assert Traces(t, [[1]]) == [[2]];
    assert Traces(t, [[2], [1]]) == [[4], [2]];
    assert [[4], [2]][..1] == [[4]] && [[4]][..0] == [] && [[2]][..0] == [];
    assert VirginAfter(1, [[2]]) == [0xfd];
    assert VirginAfter(1, [[4]]) == [0xfb];
    assert VirginAfter(1, [[4], [2]]) == [0xf9];
  }

  lemma {:induction false} RunConcat(t: Target, s: Net, p: seq<Step>, q: seq<Step>)
    requires WellFormed(t, s) && IsRun(t, s, p) && WellFormed(t, After(t, s, p)) && IsRun(t, After(t, s, p), q)
    ensures IsRun(t, s, p + q) && After(t, s, p + q) == After(t, After(t, s, p), q)
    decreases |p|
  {
    if p == [] {
      assert p + q == q;
    } else {
      assert (p + q)[1..] == p[1..] + q;
      RunConcat(t, Apply(t, s, p[0]), p[1..], q);
    }
  }

  lemma {:induction false} OneStep(t: Target, s: Net, step: Step)
    requires WellFormed(t, s) && Enabled(t, s, step) && WellFormed(t, Apply(t, s, step))
    ensures IsRun(t, s, [step]) && After(t, s, [step]) == Apply(t, s, step)
  {
    assert [step][1..] == [];
  }

  /** The fuzzer after a session in which file `id` of peer `g` was the only one listed. */
  ghost function PastFile(n: Node, g: nat, id: nat): Node
    requires g < |n.marks|
  {
    n.(marks := n.marks[g := id + 1], ran := n.ran + [(g, id)], skipped := n.skipped + set j: nat | j < id :: (g, j))
  }

  /** A session over one file that shows nothing new moves the mark past it, logs it and skips those before it. */
  lemma {:induction false} DullSession(t: Target, s: Net, f: nat, g: nat, id: nat)
    requires WellFormed(t, s) && f < |s| && g < |s| && f != g && s[f].session.Idle?
    requires s[f].marks[g] == 0 && id < |s[g].queue| && Keep(t, s[f], s[g].queue[id]) == s[f]
    ensures IsRun(t, s, OneFileSession(f, g, id))
    ensures After(t, s, OneFileSession(f, g, id)) == s[f := PastFile(s[f], g, id)]
  {
    var n := s[f];
    var n1 := n.(session := Syncing(g, 0, 0, {id}, {id}));
    var n2 := n.(session := Syncing(g, 0, id + 1, {id}, {}), ran := n.ran + [(g, id)]);
    var s1, s2 := s[f := n1], s[f := n2];
    assert s1 == Apply(t, s, Open(f, g, {id}));
    assert {id} - {id} == {};
    assert s1[g] == s[g] && Keep(t, n1, s[g].queue[id]) == n1;
    assert s2 == Apply(t, s1, RunEntry(f, id));
    var s3 := Apply(t, s2, Close(f));
    assert Skips(n2.session) == set j: nat | j < id :: (g, j) by {
      assert forall j: nat :: j < id <==> j in Missed(n2.session);
    }
    assert s3 == s[f := PastFile(s[f], g, id)];
    OneStep(t, s, Open(f, g, {id}));
    OneStep(t, s1, RunEntry(f, id));
    OneStep(t, s2, Close(f));
    RunConcat(t, s, [Open(f, g, {id})], [RunEntry(f, id)]);
    RunConcat(t, s, [Open(f, g, {id})] + [RunEntry(f, id)], [Close(f)]);
    assert [Open(f, g, {id})] + [RunEntry(f, id)] + [Close(f)] == OneFileSession(f, g, id);
  }

  lemma OldPathChangesNothing(n: Node)
    requires n.virgin == [0xfd] || n.virgin == [0xf9]
    ensures IsTarget(TwoPaths()) && Keep(TwoPaths(), n, [1]) == n
  {
    var v: Trace := n.virgin;
    assert TwoPaths().run([1]) == [2];
    assert Clear(v, [2]) == v;
    NotNovelIsNoChange(v, [2]);
  }

  /** A scan with a gap can break convergence: the marks say that everything has been seen, but an entry was skipped and
      the maps differ. */
  lemma ScanWithGapDiverges()
    ensures Init(TwoPaths(), GapStart()) && IsRun(TwoPaths(), GapStart(), GapSteps())
    ensures var end := After(TwoPaths(), GapStart(), GapSteps());
            CaughtUp(end) && (1, 0) in end[0].skipped && end[0].virgin != end[1].virgin
  {
    GapStartIsInit();
    var t, s := TwoPaths(), GapStart();
    OldPathChangesNothing(s[0]);
    DullSession(t, s, 0, 1, 1);
    var mid := After(t, s, OneFileSession(0, 1, 1));
    OldPathChangesNothing(mid[1]);
    DullSession(t, mid, 1, 0, 0);
    RunConcat(t, s, OneFileSession(0, 1, 1), OneFileSession(1, 0, 0));
  }
}
