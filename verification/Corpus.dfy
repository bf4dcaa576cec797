/** The corpus scheduler of afl-fuzz: winners per tuple, the favored set, and the counters of the queue. */
module Corpus {
  import opened Bytes

  const CAL_CHANCES := 3

  // ----- compacted traces -----

  /** `1 << k` as a cell. */
  function BitMask(k: nat): Cell
    requires k < 8
  {
    if k == 0 then 1 else if k == 1 then 2 else if k == 2 then 4 else if k == 3 then 8
    else if k == 4 then 16 else if k == 5 then 32 else if k == 6 then 64 else 128
  }

  /** Bit `i` of a bitmap: `map[i >> 3] & (1 << (i & 7))`. */
  predicate Bit(cells: seq<Cell>, i: nat)
    requires i < 8 * |cells|
  {
    cells[i / 8] & BitMask(i % 8) != 0
  }

  lemma SetBit(c: Cell, k: nat, m: nat)
    requires k < 8 && m < 8
    ensures (c | BitMask(k)) & BitMask(m) != 0 <==> c & BitMask(m) != 0 || k == m
  {
  }

  lemma SettingOneBit(cells: seq<Cell>, i: nat, j: nat)
    requires i < 8 * |cells| && j < 8 * |cells|
    ensures Bit(cells[i / 8 := cells[i / 8] | BitMask(i % 8)], j) <==> Bit(cells, j) || i == j
  {
    if i / 8 == j / 8 {
      SetBit(cells[i / 8], i % 8, j % 8);
    }
  }

  /** `minimize_bits`: one bit per tuple, hit or not. */
  method MinimizeBits(src: Trace) returns (dst: seq<Cell>)
    requires |src| % 8 == 0
    ensures |dst| == |src| / 8
    ensures forall i :: 0 <= i < |src| ==> (Bit(dst, i) <==> src[i] != 0)
  {
    dst := seq(|src| / 8, _ => 0);
    for i := 0 to |src|
      invariant |dst| == |src| / 8
      invariant forall j :: 0 <= j < |src| ==> (Bit(dst, j) <==> j < i && src[j] != 0)
    {
      if src[i] != 0 {
        ghost var before := dst;
        dst := dst[i / 8 := dst[i / 8] | BitMask(i % 8)];
        forall j | 0 <= j < |src|
          ensures Bit(dst, j) <==> Bit(before, j) || i == j
        {
          SettingOneBit(before, i, j);
        }
      }
    }
  }

  ghost function Masked(cells: seq<Cell>, mini: seq<Cell>): seq<Cell>
    requires |cells| == |mini|
  {
    seq(|cells|, k requires 0 <= k < |cells| => cells[k] & !mini[k])
  }

  method RemoveFrom(c: Cell, mini: Cell) returns (r: Cell)
    ensures r == c & !mini
  {
    r := if mini != 0 then c & !mini else c;
  }

  /** `temp_v[j] &= ~trace_mini[j]` for every cell that is not zero in the compacted trace. */
  method RemoveBits(temp: array<Cell>, mini: seq<Cell>)
    requires temp.Length == |mini|
    modifies temp
    ensures temp[..] == Masked(old(temp[..]), mini)
  {
    for j := 0 to |mini|
      invariant forall k :: j <= k < |mini| ==> temp[k] == old(temp[k])
      invariant forall k :: 0 <= k < j ==> temp[k] == old(temp[k]) & !mini[k]
    {
      temp[j] := RemoveFrom(temp[j], mini[j]);
    }
  }

  ghost function HitSet(t: Trace): set<nat> {
    set i | 0 <= i < |t| && t[i] != 0
  }

  /** `mini` is the compacted form of a trace over `n` tuples that hits exactly `hits`. */
  ghost predicate IsCompact(mini: seq<Cell>, hits: set<nat>, n: nat) {
    8 * |mini| == n && forall i :: 0 <= i < n ==> (Bit(mini, i) <==> i in hits)
  }

  lemma MaskedBit(cells: seq<Cell>, mini: seq<Cell>, r: seq<Cell>, i: nat)
    requires |cells| == |mini| == |r| && i < 8 * |mini|
    requires r[i / 8] == cells[i / 8] & !mini[i / 8]
    ensures Bit(r, i) <==> Bit(cells, i) && !Bit(mini, i)
  {
  }

  /** Masking a bitmap removes the tuples of the mask. */
  lemma MaskedIsCompact(cells: seq<Cell>, mini: seq<Cell>, a: set<nat>, b: set<nat>, n: nat)
    requires IsCompact(cells, a, n) && IsCompact(mini, b, n)
    ensures IsCompact(Masked(cells, mini), a - b, n)
  {
    var r := Masked(cells, mini);
    forall i | 0 <= i < n
      ensures Bit(r, i) <==> Bit(cells, i) && !Bit(mini, i)
    {
      MaskedBit(cells, mini, r, i);
    }
  }

  // ----- queue entries and the winner table -----

  datatype Entry = Entry(
    len: nat, execUs: nat, calFailed: nat, wasFuzzed: bool, favored: bool, tcRef: nat, traceMini: Option<seq<Cell>>)

  type Winners = seq<Option<nat>>

  /** The speed x size factor by which entries compete. */
  ghost function Factor(e: Entry): nat {
    e.execUs * e.len
  }

  /** The slots that entry `e` holds. */
  ghost function Slots(top: Winners, e: nat): set<nat> {
    set i | 0 <= i < |top| && top[i] == Some(e)
  }

  /** Reference counts count the slots held, and a compacted trace is kept exactly while the count is positive. */
  ghost predicate RefsOk(queue: seq<Entry>, top: Winners, hits: seq<set<nat>>) {
    && |hits| == |queue|
    && (forall i :: 0 <= i < |top| && top[i].Some? ==> top[i].value < |queue|)
    && forall e :: 0 <= e < |queue| ==> EntryRefsOk(queue[e], Slots(top, e), hits[e], |top|)
  }

  ghost predicate EntryRefsOk(e: Entry, slots: set<nat>, hits: set<nat>, n: nat) {
    && e.tcRef == |slots|
    && (e.traceMini.Some? <==> e.tcRef > 0)
    && (e.traceMini.Some? ==> IsCompact(e.traceMini.value, hits, n))
  }

  function LoseSlot(e: Entry): Entry
    requires e.tcRef > 0
  {
    e.(tcRef := e.tcRef - 1, traceMini := if e.tcRef == 1 then None else e.traceMini)
  }

  function WinSlot(e: Entry, mini: seq<Cell>): Entry {
    e.(tcRef := e.tcRef + 1, traceMini := if e.traceMini.None? then Some(mini) else e.traceMini)
  }

  lemma SlotsAfterWin(top: Winners, i: nat, q: nat, e: nat)
    requires i < |top|
    ensures Slots(top[i := Some(q)], e) == if e == q then Slots(top, e) + {i} else Slots(top, e) - {i}
    ensures top[i] == Some(e) <==> i in Slots(top, e)
  {
  }

  /** A win at slot `i`: the previous winner gives up its reference, the new one takes one. */
  lemma SlotWon(queue: seq<Entry>, top: Winners, hits: seq<set<nat>>, i: nat, q: nat, mini: seq<Cell>)
    requires RefsOk(queue, top, hits) && i < |top| && q < |queue| && IsCompact(mini, hits[q], |top|)
    ensures top[i].Some? ==> queue[top[i].value].tcRef > 0
    ensures var lost := if top[i].Some? then queue[top[i].value := LoseSlot(queue[top[i].value])] else queue;
            RefsOk(lost[q := WinSlot(lost[q], mini)], top[i := Some(q)], hits)
  {
    var top' := top[i := Some(q)];
    if top[i].Some? {
      var w := top[i].value;
      SlotsAfterWin(top, i, q, w);
      assert EntryRefsOk(queue[w], Slots(top, w), hits[w], |top|);
      assert Slots(top, w) != {};
    }
    var lost := if top[i].Some? then queue[top[i].value := LoseSlot(queue[top[i].value])] else queue;
    var queue' := lost[q := WinSlot(lost[q], mini)];
    forall e | 0 <= e < |queue|
      ensures EntryRefsOk(queue'[e], Slots(top', e), hits[e], |top|)
    {
      SlotsAfterWin(top, i, q, e);
      assert EntryRefsOk(queue[e], Slots(top, e), hits[e], |top|);
    }
  }

  /** Slots are held by scored entries that hit them. */
  ghost predicate WinnersHit(top: Winners, hits: seq<set<nat>>, scored: set<nat>) {
    forall i :: 0 <= i < |top| && top[i].Some? ==>
      top[i].value in scored && top[i].value < |hits| && i in hits[top[i].value]
  }

  /** The winner of slot `i` is at least as good as entry `e`. */
  ghost predicate Beats(queue: seq<Entry>, top: Winners, i: nat, e: nat)
    requires i < |top| && e < |queue|
  {
    top[i].Some? && top[i].value < |queue| && Factor(queue[top[i].value]) <= Factor(queue[e])
  }

  /** Every scored entry other than `q` is matched or beaten wherever it hits; `q` itself below `limit`. */
  ghost predicate Rated(queue: seq<Entry>, top: Winners, hits: seq<set<nat>>, scored: set<nat>, q: nat, limit: int) {
    && |hits| == |queue|
    && forall e, i :: e in scored && e < |queue| && 0 <= i < |top| && i in hits[e] && (e == q ==> i < limit) ==>
         Beats(queue, top, i, e)
  }

  /** Only reference counts and compacted traces differ. */
  ghost predicate SameButRefs(a: seq<Entry>, b: seq<Entry>) {
    |a| == |b| && forall e :: 0 <= e < |a| ==> b[e] == a[e].(tcRef := b[e].tcRef, traceMini := b[e].traceMini)
  }

  lemma SameButRefsTwice(a: seq<Entry>, b: seq<Entry>, c: seq<Entry>)
    requires SameButRefs(a, b) && SameButRefs(b, c)
    ensures SameButRefs(a, c)
  {
  }

  /** Who holds slot `i` after `q` has competed for it. */
  ghost function Winner(queue: seq<Entry>, top: Winners, trace: Trace, q: nat, i: nat): Option<nat>
    requires i < |top| == |trace| && q < |queue| && (top[i].Some? ==> top[i].value < |queue|)
  {
    if trace[i] != 0 && (top[i].None? || Factor(queue[q]) <= Factor(queue[top[i].value])) then Some(q) else top[i]
  }

  ghost predicate Competed(before: seq<Entry>, top0: Winners, top: Winners, trace: Trace, q: nat, n: nat) {
    && |top0| == |top| == |trace| && q < |before|
    && (forall i :: 0 <= i < |top| && top0[i].Some? ==> top0[i].value < |before|)
    && forall i :: 0 <= i < |top| ==> top[i] == if i < n then Winner(before, top0, trace, q, i) else top0[i]
  }

  /** What the loop of `update_bitmap_score` has established when it reaches tuple `n`. */
  ghost predicate ScoringTo(before: seq<Entry>, top0: Winners, queue: seq<Entry>, top: Winners, hits: seq<set<nat>>,
                            scored: set<nat>, trace: Trace, q: nat, n: nat)
  {
    && q < |queue| && n <= |top| && |top| % 8 == 0
    && SameButRefs(before, queue) && Competed(before, top0, top, trace, q, n)
    && RefsOk(queue, top, hits) && WinnersHit(top, hits, scored) && Rated(queue, top, hits, scored, q, n)
    && q in scored && hits[q] == HitSet(trace)
  }

  /** The next tuple is left to its winner. */
  lemma ScoringSkips(before: seq<Entry>, top0: Winners, queue: seq<Entry>, top: Winners, hits: seq<set<nat>>,
                     scored: set<nat>, trace: Trace, q: nat, n: nat)
    requires ScoringTo(before, top0, queue, top, hits, scored, trace, q, n) && n < |top|
    requires trace[n] == 0 || (top[n].Some? && Factor(queue[q]) > Factor(queue[top[n].value]))
    ensures ScoringTo(before, top0, queue, top, hits, scored, trace, q, n + 1)
  {
    assert top[n] == top0[n];
  }

  lemma RatedAfterWin(queue: seq<Entry>, queue': seq<Entry>, top: Winners, hits: seq<set<nat>>, scored: set<nat>,
                      q: nat, n: nat)
    requires Rated(queue, top, hits, scored, q, n) && n < |top| && q < |queue| && SameButRefs(queue, queue')
    requires top[n].Some? ==> top[n].value < |queue| && Factor(queue[q]) <= Factor(queue[top[n].value])
    ensures Rated(queue', top[n := Some(q)], hits, scored, q, n + 1)
  {
    var top' := top[n := Some(q)];
    assert forall e :: 0 <= e < |queue| ==> Factor(queue'[e]) == Factor(queue[e]);
    forall e, i | e in scored && e < |queue| && 0 <= i < |top| && i in hits[e] && (e == q ==> i < n + 1)
      ensures Beats(queue', top', i, e)
    {
      if i == n {
        if e != q {
          assert Beats(queue, top, i, e);
        }
      } else {
        assert Beats(queue, top, i, e);
      }
    }
  }

  /** Entry `q` takes the next tuple. */
  lemma ScoringWins(before: seq<Entry>, top0: Winners, queue: seq<Entry>, top: Winners, hits: seq<set<nat>>,
                    scored: set<nat>, trace: Trace, q: nat, n: nat, mini: seq<Cell>)
    requires ScoringTo(before, top0, queue, top, hits, scored, trace, q, n) && n < |top|
    requires trace[n] != 0 && (top[n].Some? ==> Factor(queue[q]) <= Factor(queue[top[n].value]))
    requires IsCompact(mini, hits[q], |top|)
    ensures top[n].Some? ==> queue[top[n].value].tcRef > 0
    ensures var lost := if top[n].Some? then queue[top[n].value := LoseSlot(queue[top[n].value])] else queue;
            ScoringTo(before, top0, lost[q := WinSlot(lost[q], mini)], top[n := Some(q)], hits, scored, trace, q, n + 1)
  {
    SlotWon(queue, top, hits, n, q, mini);
    var lost := if top[n].Some? then queue[top[n].value := LoseSlot(queue[top[n].value])] else queue;
    var queue' := lost[q := WinSlot(lost[q], mini)];
    assert SameButRefs(queue, queue');
    SameButRefsTwice(before, queue, queue');
    RatedAfterWin(queue, queue', top, hits, scored, q, n);
    NextCompeted(before, top0, queue, top, trace, q, n);
  }

  lemma NextCompeted(before: seq<Entry>, top0: Winners, queue: seq<Entry>, top: Winners, trace: Trace, q: nat, n: nat)
    requires Competed(before, top0, top, trace, q, n) && n < |top| && SameButRefs(before, queue) && trace[n] != 0
    requires top[n].Some? ==> top[n].value < |queue| && Factor(queue[q]) <= Factor(queue[top[n].value])
    ensures Competed(before, top0, top[n := Some(q)], trace, q, n + 1)
  {
    assert top[n] == top0[n];
  }

  // ----- the favored set -----

  ghost function Unfuzzed(queue: seq<Entry>): set<nat> {
    set e | 0 <= e < |queue| && !queue[e].wasFuzzed
  }

  ghost function Favored(queue: seq<Entry>): set<nat> {
    set e | 0 <= e < |queue| && queue[e].favored
  }

  ghost function PendingFavored(queue: seq<Entry>): set<nat> {
    set e | 0 <= e < |queue| && queue[e].favored && !queue[e].wasFuzzed
  }

  /** Every tuple that has a winner is hit by a favored entry. */
  ghost predicate FavoredCover(queue: seq<Entry>, top: Winners, hits: seq<set<nat>>) {
    |hits| == |queue| && forall i :: 0 <= i < |top| && top[i].Some? ==> HitByFavored(queue, hits, i)
  }

  ghost predicate HitByFavored(queue: seq<Entry>, hits: seq<set<nat>>, i: nat)
    requires |hits| == |queue|
  {
    exists e :: 0 <= e < |queue| && queue[e].favored && i in hits[e]
  }

  /** A slot among `picks` below `n` has a winner that hits tuple `i`. */
  ghost predicate HitByPicks(top: Winners, hits: seq<set<nat>>, picks: set<nat>, n: nat, i: nat) {
    exists j :: j in picks && j < n && j < |top| && top[j].Some? && top[j].value < |hits| && i in hits[top[j].value]
  }

  /** Going up the slots, a slot is picked exactly if it has a winner and no winner of a slot picked before hits it. */
  ghost predicate ArePicks(top: Winners, hits: seq<set<nat>>, picks: set<nat>) {
    && (forall i :: i in picks ==> i < |top|)
    && (forall i: nat :: i < |top| ==> (i in picks <==> top[i].Some? && !HitByPicks(top, hits, picks, i, i)))
  }

  /** The favored entries are the winners of these slots. */
  ghost predicate ArePicked(queue: seq<Entry>, top: Winners, picks: set<nat>) {
    forall e :: 0 <= e < |queue| ==>
      (queue[e].favored <==> exists i :: i in picks && i < |top| && top[i] == Some(e))
  }

  /** The favored entries are those that the greedy selection picks. `AboutPicks` marks the members that look into
      it. */
  ghost predicate GreedilyFavored(queue: seq<Entry>, top: Winners, hits: seq<set<nat>>) {
    forall n: nat {:trigger AboutPicks(n)} :: n == |top| ==>
      |hits| == |queue| && exists picks :: ArePicks(top, hits, picks) && ArePicked(queue, top, picks)
  }

  /** The favored entries are the winners of the picks among the first `n` slots. */
  ghost predicate PickedSoFar(queue: seq<Entry>, top: Winners, hits: seq<set<nat>>, n: nat) {
    forall m: nat {:trigger AboutPicks(m)} :: m == n ==> m <= |top| && ArePicked(queue, top, Picks(top, hits, m))
  }

  ghost predicate AboutPicks(n: nat) {
    true
  }

  /** The picks among the first `n` slots. */
  ghost function Picks(top: Winners, hits: seq<set<nat>>, n: nat): (picks: set<nat>)
    requires n <= |top|
    ensures forall i :: i in picks ==> i < n
  {
    if n == 0 then {}
    else
      var picks := Picks(top, hits, n - 1);
      if top[n - 1].Some? && !HitByPicks(top, hits, picks, n - 1, n - 1) then picks + {n - 1} else picks
  }

  lemma {:induction false} PicksStay(top: Winners, hits: seq<set<nat>>, m: nat, n: nat)
    requires m <= n <= |top|
    ensures forall i :: i < m ==> (i in Picks(top, hits, m) <==> i in Picks(top, hits, n))
    decreases n
  {
    if m < n {
      PicksStay(top, hits, m, n - 1);
    }
  }

  /** The picks made one after the other are the ones described. */
  lemma {:induction false} PicksAreGreedy(top: Winners, hits: seq<set<nat>>)
    ensures ArePicks(top, hits, Picks(top, hits, |top|))
  {
    var picks := Picks(top, hits, |top|);
    forall i: nat | i < |top|
      ensures i in picks <==> top[i].Some? && !HitByPicks(top, hits, picks, i, i)
    {
      PicksStay(top, hits, i, |top|);
      PicksStay(top, hits, i + 1, |top|);
      assert HitByPicks(top, hits, picks, i, i) <==> HitByPicks(top, hits, Picks(top, hits, i), i, i);
    }
  }

  /** The picks cover every tuple that has a winner. */
  lemma GreedyCovers(queue: seq<Entry>, top: Winners, hits: seq<set<nat>>, scored: set<nat>)
    requires GreedilyFavored(queue, top, hits) && WinnersHit(top, hits, scored)
    ensures FavoredCover(queue, top, hits)
    ensures exists picks :: ArePicks(top, hits, picks) && ArePicked(queue, top, picks)
  {
    assert AboutPicks(|top|);
    var picks :| ArePicks(top, hits, picks) && ArePicked(queue, top, picks);
    forall i | 0 <= i < |top| && top[i].Some?
      ensures HitByFavored(queue, hits, i)
    {
      var j := i;
      if i !in picks {
        j :| j in picks && j < i && j < |top| && top[j].Some? && top[j].value < |hits| && i in hits[top[j].value];
      }
      var e := top[j].value;
      assert top[j] == Some(e) && queue[e].favored && i in hits[e];
    }
  }

  /** A tuple is hit by a favored entry exactly if a picked winner hits it. */
  lemma FavoredArePicks(queue: seq<Entry>, top: Winners, hits: seq<set<nat>>, picks: set<nat>, n: nat, i: nat)
    requires |hits| == |queue| && ArePicked(queue, top, picks) && forall j :: j in picks ==> j < n
    ensures HitByFavored(queue, hits, i) <==> HitByPicks(top, hits, picks, n, i)
  {
    if HitByFavored(queue, hits, i) {
      var e :| 0 <= e < |queue| && queue[e].favored && i in hits[e];
      var j :| j in picks && j < |top| && top[j] == Some(e);
    }
    if HitByPicks(top, hits, picks, n, i) {
      var j :| j in picks && j < n && j < |top| && top[j].Some? && top[j].value < |hits| && i in hits[top[j].value];
      assert top[j] == Some(top[j].value) && queue[top[j].value].favored;
    }
  }

  ghost predicate SameButFavored(a: seq<Entry>, b: seq<Entry>) {
    |a| == |b| && forall e :: 0 <= e < |a| ==> b[e] == a[e].(favored := b[e].favored)
  }

  /** What the selection loop of `cull_queue` has established when it reaches tuple `n`; `open` holds the tuples that
      no favored entry hits. */
  ghost predicate CulledTo(before: seq<Entry>, queue: seq<Entry>, top: Winners, hits: seq<set<nat>>, open: set<nat>,
                           qf: int, pf: int, n: nat) {
    && SameButFavored(before, queue) && |hits| == |queue|
    && (forall i :: 0 <= i < |top| ==> (i in open <==> !HitByFavored(queue, hits, i)))
    && (forall i :: 0 <= i < n && i < |top| && top[i].Some? ==> i !in open)
    && (forall e :: 0 <= e < |queue| && queue[e].favored ==> queue[e].tcRef > 0)
    && qf == |Favored(queue)| && pf == |PendingFavored(queue)|
    && PickedSoFar(queue, top, hits, n)
  }

  lemma PickIsNew(queue: seq<Entry>, top: Winners, hits: seq<set<nat>>, scored: set<nat>, n: nat)
    requires RefsOk(queue, top, hits) && WinnersHit(top, hits, scored)
    requires n < |top| && top[n].Some? && !HitByFavored(queue, hits, n)
    ensures var w := top[n].value;
            && w < |queue| && n in hits[w] && !queue[w].favored && queue[w].tcRef > 0
            && queue[w].traceMini.Some? && IsCompact(queue[w].traceMini.value, hits[w], |top|)
  {
    var w := top[n].value;
    assert EntryRefsOk(queue[w], Slots(top, w), hits[w], |top|);
    assert n in Slots(top, w);
  }

  /** The winner of a tuple that is still open can be favored, and its compact trace is at hand. */
  lemma WinnerIsReady(before: seq<Entry>, queue: seq<Entry>, top: Winners, hits: seq<set<nat>>, scored: set<nat>,
                      open: set<nat>, qf: int, pf: int, i: nat)
    requires RefsOk(before, top, hits) && WinnersHit(top, hits, scored)
             && CulledTo(before, queue, top, hits, open, qf, pf, i)
    requires i < |top| && top[i].Some? && i in open
    ensures var w := top[i].value;
            && w < |queue| && !queue[w].favored && queue[w].tcRef > 0 && i in hits[w]
            && queue[w].traceMini.Some? && IsCompact(queue[w].traceMini.value, hits[w], |top|)
  {
    RefsIgnoreFavored(before, queue, top, hits);
    PickIsNew(queue, top, hits, scored, i);
  }

  lemma CullSkip(before: seq<Entry>, queue: seq<Entry>, top: Winners, hits: seq<set<nat>>, open: set<nat>, qf: int,
                 pf: int, i: nat)
    requires CulledTo(before, queue, top, hits, open, qf, pf, i) && i < |top| && (top[i].None? || i !in open)
    ensures CulledTo(before, queue, top, hits, open, qf, pf, i + 1)
  {
    NoMorePick(queue, top, hits, i);
  }

  lemma NoMorePick(queue: seq<Entry>, top: Winners, hits: seq<set<nat>>, n: nat)
    requires |hits| == |queue| && n < |top| && (top[n].None? || HitByFavored(queue, hits, n))
    requires PickedSoFar(queue, top, hits, n)
    ensures PickedSoFar(queue, top, hits, n + 1)
  {
    assert AboutPicks(n);
    FavoredArePicks(queue, top, hits, Picks(top, hits, n), n, n);
    assert Picks(top, hits, n + 1) == Picks(top, hits, n);
    assert ArePicked(queue, top, Picks(top, hits, n + 1));
  }

  /** The test of a bit of `temp_v`. */
  method TestBit(temp: array<Cell>, i: nat, ghost open: set<nat>, ghost n: nat) returns (isOpen: bool)
    requires IsCompact(temp[..], open, n) && i < n
    ensures isOpen <==> i in open
  {
    isOpen := Bit(temp[..], i);
  }

  /** `temp_v` loses the tuples of the compact trace `mini`. */
  method TakeAway(temp: array<Cell>, mini: seq<Cell>, ghost open: set<nat>, ghost gone: set<nat>, ghost n: nat)
    requires IsCompact(temp[..], open, n) && IsCompact(mini, gone, n)
    modifies temp
    ensures IsCompact(temp[..], open - gone, n)
  {
    MaskedIsCompact(temp[..], mini, open, gone, n);
    RemoveBits(temp, mini);
  }

  ghost function Pick(queue: seq<Entry>, w: nat): seq<Entry>
    requires w < |queue|
  {
    queue[w := queue[w].(favored := true)]
  }

  lemma PickIsFavored(queue: seq<Entry>, w: nat)
    requires w < |queue| && !queue[w].favored
    ensures |Favored(Pick(queue, w))| == |Favored(queue)| + 1
  {
    assert Favored(Pick(queue, w)) == Favored(queue) + {w};
  }

  lemma PickIsPending(queue: seq<Entry>, w: nat)
    requires w < |queue| && !queue[w].favored
    ensures |PendingFavored(Pick(queue, w))| == |PendingFavored(queue)| + if queue[w].wasFuzzed then 0 else 1
  {
    assert PendingFavored(Pick(queue, w)) == PendingFavored(queue) + if queue[w].wasFuzzed then {} else {w};
  }

  /** The pick at tuple `n` was not favored before, so the counters count it once, and what it hits is covered. */
  lemma CullPick(before: seq<Entry>, queue: seq<Entry>, top: Winners, hits: seq<set<nat>>,
                 open: set<nat>, qf: int, pf: int, n: nat, w: nat)
    requires CulledTo(before, queue, top, hits, open, qf, pf, n) && n < |top| && w < |queue|
    requires n in hits[w] && !queue[w].favored && queue[w].tcRef > 0 && top[n] == Some(w) && n in open
    ensures var pf' := if queue[w].wasFuzzed then pf else pf + 1;
            CulledTo(before, Pick(queue, w), top, hits, open - hits[w], qf + 1, pf', n + 1)
  {
    PickIsFavored(queue, w);
    PickIsPending(queue, w);
    OpenAfterPick(queue, hits, open, w, |top|);
    OneMorePick(queue, top, hits, n, w);
  }

  lemma OneMorePick(queue: seq<Entry>, top: Winners, hits: seq<set<nat>>, n: nat, w: nat)
    requires |hits| == |queue| && n < |top| && w < |queue| && top[n] == Some(w) && !HitByFavored(queue, hits, n)
    requires PickedSoFar(queue, top, hits, n)
    ensures PickedSoFar(Pick(queue, w), top, hits, n + 1)
  {
    assert AboutPicks(n);
    var picks := Picks(top, hits, n);
    FavoredArePicks(queue, top, hits, picks, n, n);
    assert Picks(top, hits, n + 1) == picks + {n};
    forall e | 0 <= e < |queue|
      ensures Pick(queue, w)[e].favored <==> exists i :: i in picks + {n} && i < |top| && top[i] == Some(e)
    {
      if e == w {
        assert n in picks + {n} && top[n] == Some(e);
      } else if queue[e].favored {
        var i :| i in picks && i < |top| && top[i] == Some(e);
        assert i in picks + {n};
      }
    }
    assert ArePicked(Pick(queue, w), top, Picks(top, hits, n + 1));
  }

  lemma OpenAfterPick(queue: seq<Entry>, hits: seq<set<nat>>, open: set<nat>, w: nat, n: nat)
    requires |hits| == |queue| && w < |queue|
    requires forall i :: 0 <= i < n ==> (i in open <==> !HitByFavored(queue, hits, i))
    ensures forall i :: 0 <= i < n ==> (i in open - hits[w] <==> !HitByFavored(Pick(queue, w), hits, i))
  {
    forall i | 0 <= i < n
      ensures i in open - hits[w] <==> !HitByFavored(Pick(queue, w), hits, i)
    {
      CoverGrows(queue, hits, w, i);
    }
  }

  lemma CoverGrows(queue: seq<Entry>, hits: seq<set<nat>>, w: nat, i: nat)
    requires |hits| == |queue| && w < |queue|
    ensures HitByFavored(Pick(queue, w), hits, i) <==> HitByFavored(queue, hits, i) || i in hits[w]
  {
    var queue' := Pick(queue, w);
    if HitByFavored(queue, hits, i) {
      var e :| 0 <= e < |queue| && queue[e].favored && i in hits[e];
      assert queue'[e].favored;
    }
    if i in hits[w] {
      assert queue'[w].favored;
    }
    if HitByFavored(queue', hits, i) {
      var e :| 0 <= e < |queue| && queue'[e].favored && i in hits[e];
      assert e == w || queue[e].favored;
    }
  }

  lemma RefsIgnoreFavored(queue: seq<Entry>, queue': seq<Entry>, top: Winners, hits: seq<set<nat>>)
    requires RefsOk(queue, top, hits) && SameButFavored(queue, queue')
    ensures RefsOk(queue', top, hits)
  {
    forall e | 0 <= e < |queue|
      ensures EntryRefsOk(queue'[e], Slots(top, e), hits[e], |top|)
    {
      assert EntryRefsOk(queue[e], Slots(top, e), hits[e], |top|);
    }
  }

  ghost function AllTuples(n: nat): (r: set<nat>)
    ensures forall i :: i in r <==> 0 <= i < n
  {
    if n == 0 then {} else AllTuples(n - 1) + {n - 1}
  }

  lemma {:induction false} FullBitmap(cells: seq<Cell>)
    requires forall k :: 0 <= k < |cells| ==> cells[k] == 0xff
    ensures IsCompact(cells, AllTuples(8 * |cells|), 8 * |cells|)
  {
    forall i | 0 <= i < 8 * |cells|
      ensures Bit(cells, i)
    {
      assert cells[i / 8] == 0xff;
    }
  }

  /** `memset(temp_v, 255, n)`. */
  method NewBitmap(n: nat) returns (temp: array<Cell>)
    ensures fresh(temp) && IsCompact(temp[..], AllTuples(8 * n), 8 * n)
  {
    temp := new Cell[n](_ => 0xff);
    FullBitmap(temp[..]);
  }

  ghost predicate NoneFavored(queue: seq<Entry>) {
    forall e :: 0 <= e < |queue| ==> !queue[e].favored
  }

  lemma {:induction false} CullStart(before: seq<Entry>, queue: seq<Entry>, top: Winners, hits: seq<set<nat>>)
    requires |hits| == |queue| && SameButFavored(before, queue) && NoneFavored(queue)
    ensures CulledTo(before, queue, top, hits, AllTuples(|top|), 0, 0, 0)
  {
    assert Favored(queue) == {} && PendingFavored(queue) == {};
    NoPicksYet(queue, top, hits);
  }

  lemma NoPicksYet(queue: seq<Entry>, top: Winners, hits: seq<set<nat>>)
    requires NoneFavored(queue)
    ensures PickedSoFar(queue, top, hits, 0)
  {
    assert ArePicked(queue, top, Picks(top, hits, 0));
  }

  lemma AllPicked(queue: seq<Entry>, top: Winners, hits: seq<set<nat>>)
    requires |hits| == |queue| && PickedSoFar(queue, top, hits, |top|)
    ensures GreedilyFavored(queue, top, hits)
  {
    assert AboutPicks(|top|);
    PicksAreGreedy(top, hits);
    assert ArePicks(top, hits, Picks(top, hits, |top|)) && ArePicked(queue, top, Picks(top, hits, |top|));
  }

  /** A table without winners selects nothing. */
  lemma NothingToPick(queue: seq<Entry>, top: Winners, hits: seq<set<nat>>)
    requires |hits| == |queue| && NoneFavored(queue) && forall i :: 0 <= i < |top| ==> top[i].None?
    ensures GreedilyFavored(queue, top, hits)
  {
    assert ArePicks(top, hits, {}) && ArePicked(queue, top, {});
  }

  /** After the selection: the table is as before, and the favored entries are the picks. */
  lemma CullEnd(before: seq<Entry>, queue: seq<Entry>, top: Winners, hits: seq<set<nat>>, scored: set<nat>,
                open: set<nat>, qf: int, pf: int)
    requires Consistent(before, top, hits, scored, -1)
    requires CulledTo(before, queue, top, hits, open, qf, pf, |top|)
    ensures Consistent(queue, top, hits, scored, -1)
    ensures GreedilyFavored(queue, top, hits) && Unfuzzed(queue) == Unfuzzed(before)
  {
    AllPicked(queue, top, hits);
    RefsIgnoreFavored(before, queue, top, hits);
    forall k, i | k in scored && 0 <= i < |top| && i in hits[k]
      ensures Beats(queue, top, i, k)
    {
      assert Beats(before, top, i, k);
    }
    forall e | 0 <= e < |queue| && queue[e].favored
      ensures e in scored
    {
      assert EntryRefsOk(queue[e], Slots(top, e), hits[e], |top|);
      assert Slots(top, e) != {};
      var i :| i in Slots(top, e);
      assert top[i] == Some(e);
    }
  }

  /** Marking an unfuzzed entry as fuzzed takes it out of both pending sets, in which it was. */
  lemma EntryFuzzed(queue: seq<Entry>, q: nat)
    requires q < |queue| && !queue[q].wasFuzzed
    ensures var queue' := queue[q := queue[q].(wasFuzzed := true)];
            && |Unfuzzed(queue')| == |Unfuzzed(queue)| - 1
            && Favored(queue') == Favored(queue)
            && |PendingFavored(queue')| == |PendingFavored(queue)| - if queue[q].favored then 1 else 0
  {
    var queue' := queue[q := queue[q].(wasFuzzed := true)];
    assert Unfuzzed(queue) == Unfuzzed(queue') + {q};
    assert PendingFavored(queue) == PendingFavored(queue') + if queue[q].favored then {q} else {};
  }

  lemma FuzzedIsConsistent(queue: seq<Entry>, top: Winners, hits: seq<set<nat>>, scored: set<nat>, q: nat)
    requires Consistent(queue, top, hits, scored, -1) && q < |queue|
    ensures Consistent(queue[q := queue[q].(wasFuzzed := true)], top, hits, scored, -1)
  {
    var queue' := queue[q := queue[q].(wasFuzzed := true)];
    forall k | 0 <= k < |queue|
      ensures EntryRefsOk(queue'[k], Slots(top, k), hits[k], |top|)
    {
      assert EntryRefsOk(queue[k], Slots(top, k), hits[k], |top|);
    }
    forall k, i | k in scored && 0 <= i < |top| && i in hits[k]
      ensures Beats(queue', top, i, k)
    {
      assert Beats(queue, top, i, k);
    }
  }

  // ----- the scheduler -----

  /** All that must hold of queue and winner table between two operations; entry `unscored`, if it is one, has been
      added but not calibrated yet. */
  ghost predicate Consistent(queue: seq<Entry>, top: Winners, hits: seq<set<nat>>, scored: set<nat>, unscored: int) {
    Referenced(queue, top, hits, scored, unscored) && Rated(queue, top, hits, scored, |queue|, 0)
  }

  /** All of that but for the ratings. */
  ghost predicate Referenced(queue: seq<Entry>, top: Winners, hits: seq<set<nat>>, scored: set<nat>, unscored: int) {
    && |top| % 8 == 0
    && RefsOk(queue, top, hits) && WinnersHit(top, hits, scored) && ScoredOk(queue, scored, unscored)
  }

  /** Exactly the entries that were calibrated have competed, `unscored` aside, and only those are favored. */
  ghost predicate ScoredOk(queue: seq<Entry>, scored: set<nat>, unscored: int) {
    && (forall e :: e in scored ==> e < |queue|)
    && (forall e :: 0 <= e < |queue| && e != unscored ==> (e in scored <==> queue[e].calFailed == 0))
    && (forall e :: 0 <= e < |queue| && queue[e].favored ==> e in scored)
    && unscored !in scored
  }

  lemma OneMoreScored(queue: seq<Entry>, scored: set<nat>, q: nat, e: Entry)
    requires ScoredOk(queue, scored, q) && q < |queue| && e.calFailed == 0 && SameStatus(queue[q], e)
    ensures ScoredOk(queue[q := e], scored + {q}, -1)
  {
  }

  /** The selection stays the one that would be made as long as the table, the favored entries and the tuples of the
      winners stay, and new entries are not favored. */
  lemma SelectionKept(queue: seq<Entry>, queue': seq<Entry>, top: Winners, hits: seq<set<nat>>, hits': seq<set<nat>>)
    requires |hits| == |queue| <= |queue'| == |hits'|
    requires forall k :: 0 <= k < |queue| ==> queue'[k].favored == queue[k].favored
    requires forall k :: |queue| <= k < |queue'| ==> !queue'[k].favored
    requires forall i :: 0 <= i < |top| && top[i].Some? ==>
               top[i].value < |queue| && hits'[top[i].value] == hits[top[i].value]
    ensures GreedilyFavored(queue, top, hits) ==> GreedilyFavored(queue', top, hits')
  {
    if GreedilyFavored(queue, top, hits) {
      assert AboutPicks(|top|);
      var picks :| ArePicks(top, hits, picks) && ArePicked(queue, top, picks);
      forall i: nat | i < |top|
        ensures HitByPicks(top, hits, picks, i, i) <==> HitByPicks(top, hits', picks, i, i)
      {
        SameHits(top, hits, hits', picks, i);
        SameHits(top, hits', hits, picks, i);
      }
      assert ArePicks(top, hits', picks) && ArePicked(queue', top, picks);
    }
  }

  lemma SameHits(top: Winners, hits: seq<set<nat>>, hits': seq<set<nat>>, picks: set<nat>, i: nat)
    requires forall i :: 0 <= i < |top| && top[i].Some? && top[i].value < |hits| ==>
               top[i].value < |hits'| && hits'[top[i].value] == hits[top[i].value]
    ensures HitByPicks(top, hits, picks, i, i) ==> HitByPicks(top, hits', picks, i, i)
  {
  }

  function NewEntry(len: nat): Entry {
    Entry(len, 0, 0, false, false, 0, None)
  }

  /** A new entry holds no slot. */
  lemma EntryAdded(queue: seq<Entry>, top: Winners, hits: seq<set<nat>>, scored: set<nat>, len: nat)
    requires Consistent(queue, top, hits, scored, -1)
    ensures Consistent(queue + [NewEntry(len)], top, hits + [{}], scored, |queue|)
  {
    var queue', hits' := queue + [NewEntry(len)], hits + [{}];
    forall k | 0 <= k < |queue'|
      ensures EntryRefsOk(queue'[k], Slots(top, k), hits'[k], |top|)
    {
      if k < |queue| {
        assert EntryRefsOk(queue[k], Slots(top, k), hits[k], |top|);
      } else {
        assert Slots(top, k) == {};
      }
    }
    forall k, i | k in scored && 0 <= i < |top| && i in hits'[k]
      ensures Beats(queue', top, i, k)
    {
      assert Beats(queue, top, i, k);
    }
  }

  lemma EntryAddedCounts(queue: seq<Entry>, len: nat)
    ensures |Unfuzzed(queue + [NewEntry(len)])| == |Unfuzzed(queue)| + 1
    ensures Favored(queue + [NewEntry(len)]) == Favored(queue)
    ensures PendingFavored(queue + [NewEntry(len)]) == PendingFavored(queue)
  {
    assert Unfuzzed(queue + [NewEntry(len)]) == Unfuzzed(queue) + {|queue|};
  }

  /** Entries differ in calibration data only. */
  ghost predicate SameStatus(a: Entry, b: Entry) {
    a.wasFuzzed == b.wasFuzzed && a.favored == b.favored && a.tcRef == b.tcRef && a.traceMini == b.traceMini
  }

  lemma StatusCounts(queue: seq<Entry>, q: nat, e: Entry)
    requires q < |queue| && SameStatus(queue[q], e)
    ensures Unfuzzed(queue[q := e]) == Unfuzzed(queue)
    ensures Favored(queue[q := e]) == Favored(queue) && PendingFavored(queue[q := e]) == PendingFavored(queue)
  {
  }

  /** An unscored entry holds no slot, so it may be given its time and its tuples before it competes. */
  lemma EntryCalibrated(queue: seq<Entry>, top: Winners, hits: seq<set<nat>>, scored: set<nat>, q: nat, e: Entry,
                        tuples: set<nat>)
    requires Consistent(queue, top, hits, scored, q) && q < |queue| && SameStatus(queue[q], e)
    ensures RefsOk(queue[q := e], top, hits[q := tuples])
    ensures WinnersHit(top, hits[q := tuples], scored + {q})
    ensures Rated(queue[q := e], top, hits[q := tuples], scored + {q}, q, 0)
    ensures Rated(queue[q := e], top, hits[q := tuples], scored, |queue|, 0)
  {
    var queue', hits' := queue[q := e], hits[q := tuples];
    forall k | 0 <= k < |queue|
      ensures EntryRefsOk(queue'[k], Slots(top, k), hits'[k], |top|)
    {
      assert EntryRefsOk(queue[k], Slots(top, k), hits[k], |top|);
      if k == q {
        assert Slots(top, q) == {};
      }
    }
    forall k, i | k in scored && k < |queue| && 0 <= i < |top| && i in hits'[k]
      ensures Beats(queue', top, i, k)
    {
      assert Beats(queue, top, i, k) && top[i].value != q;
    }
  }

  lemma FactorShrinks(e: Entry, len: nat)
    requires len <= e.len
    ensures Factor(e.(len := len)) <= Factor(e)
  {
    assert e.execUs * len <= e.execUs * e.len;
  }

  /** Trimming an entry only improves it, so it only has to compete again itself. */
  lemma EntryTrimmed(queue: seq<Entry>, top: Winners, hits: seq<set<nat>>, scored: set<nat>, q: nat, len: nat)
    requires Consistent(queue, top, hits, scored, -1) && q < |queue| && len <= queue[q].len
    ensures var queue' := queue[q := queue[q].(len := len)];
            RefsOk(queue', top, hits) && Rated(queue', top, hits, scored, q, 0)
  {
    var queue' := queue[q := queue[q].(len := len)];
    FactorShrinks(queue[q], len);
    forall k | 0 <= k < |queue|
      ensures EntryRefsOk(queue'[k], Slots(top, k), hits[k], |top|)
    {
      assert EntryRefsOk(queue[k], Slots(top, k), hits[k], |top|);
    }
    forall k, i | k in scored && k < |queue| && k != q && 0 <= i < |top| && i in hits[k]
      ensures Beats(queue', top, i, k)
    {
      assert Beats(queue, top, i, k);
    }
  }

  /** On every tuple that entry `q` hits, the winner is at least as good as `q` would be with length `len`. */
  ghost predicate StillBeaten(queue: seq<Entry>, top: Winners, hits: seq<set<nat>>, q: nat, len: nat)
    requires q < |queue| == |hits|
  {
    forall i :: 0 <= i < |top| && i in hits[q] ==> WinnerBeats(queue, top, q, len, i)
  }

  ghost predicate WinnerBeats(queue: seq<Entry>, top: Winners, q: nat, len: nat, i: nat)
    requires q < |queue| && i < |top|
  {
    && top[i].Some? && top[i].value < |queue|
    && (top[i].value == q || Factor(queue[top[i].value]) <= queue[q].execUs * len)
  }

  /** An entry that becomes shorter without competing again keeps everything in order but for the ratings, and those
      exactly if the winners on its tuples are still good enough. */
  lemma UnscoredTrim(queue: seq<Entry>, top: Winners, hits: seq<set<nat>>, scored: set<nat>, q: nat, len: nat)
    requires Consistent(queue, top, hits, scored, -1) && q < |queue| && q in scored && len <= queue[q].len
    ensures var queue' := queue[q := queue[q].(len := len)];
            && Referenced(queue', top, hits, scored, -1)
            && (Consistent(queue', top, hits, scored, -1) <==> StillBeaten(queue, top, hits, q, len))
  {
    var queue' := queue[q := queue[q].(len := len)];
    EntryTrimmed(queue, top, hits, scored, q, len);
    forall i | 0 <= i < |top| && i in hits[q]
      ensures Beats(queue', top, i, q) <==> WinnerBeats(queue, top, q, len, i)
    {
    }
    if Rated(queue', top, hits, scored, |queue|, 0) {
      assert forall i :: 0 <= i < |top| && i in hits[q] ==> Beats(queue', top, i, q);
    }
  }

  /** The ratings can indeed break: of two entries that hit tuple 0, the first one wins with a factor of 10; the second
      one is cut from 20 to 5 bytes without competing again. */
  lemma UnscoredTrimCanBreakRatings()
    ensures Consistent(TwoEntries(20), OneSlot(), [{0}, {0}], {0, 1}, -1)
    ensures !Consistent(TwoEntries(5), OneSlot(), [{0}, {0}], {0, 1}, -1)
  {
    assert Slots(OneSlot(), 0) == {0} && Slots(OneSlot(), 1) == {};
    OnlyFirstBit();
    assert EntryRefsOk(TwoEntries(20)[0], {0}, {0}, 8);
    assert !Beats(TwoEntries(5), OneSlot(), 0, 1);
  }

  ghost function TwoEntries(len: nat): seq<Entry> {
    [Entry(10, 1, 0, false, false, 1, Some([1])), Entry(len, 1, 0, false, false, 0, None)]
  }

  ghost function OneSlot(): Winners {
    [Some(0), None, None, None, None, None, None, None]
  }

  lemma OnlyFirstBit()
    ensures IsCompact([1], {0}, 8)
  {
  }

  /** After scoring, everything is consistent again. */
  lemma ScoringRestores(before: seq<Entry>, queue: seq<Entry>, top: Winners, hits: seq<set<nat>>, scored: set<nat>,
                        q: nat)
    requires |top| % 8 == 0 && q < |queue| && SameButRefs(before, queue)
    requires RefsOk(queue, top, hits) && WinnersHit(top, hits, scored) && Rated(queue, top, hits, scored, q, |top|)
    requires forall e :: e in scored ==> e < |queue|
    requires forall e :: 0 <= e < |queue| ==> (e in scored <==> before[e].calFailed == 0)
    requires forall e :: 0 <= e < |queue| && before[e].favored ==> e in scored
    ensures Consistent(queue, top, hits, scored, -1)
    ensures Unfuzzed(queue) == Unfuzzed(before) && Favored(queue) == Favored(before)
            && PendingFavored(queue) == PendingFavored(before)
    ensures GreedilyFavored(before, top, hits) ==> GreedilyFavored(queue, top, hits)
  {
    SelectionKept(before, queue, top, hits, hits);
  }

  /** How trimming an entry ends: nothing removed; a shorter case whose last clean trace is `trace`; or an interruption
      after the case has shrunk to `len`. */
  datatype TrimOutcome = Unchanged | Trimmed(len: nat, trace: Trace) | Interrupted(len: nat)

  /** The entry is calibrated, or one of its first two retries succeeds, shows new bits and is not interrupted. */
  ghost predicate GoesOn(calFailed: nat, calibration: Option<(nat, Trace)>, noBits: bool, stopSoon: bool) {
    calFailed == 0 || (calFailed < 3 && calibration.Some? && !noBits && !stopSoon)
  }

  /** Other entries than `cur` differ in reference counts and compacted traces only. */
  ghost predicate OthersStay(a: seq<Entry>, b: seq<Entry>, cur: nat) {
    && |a| == |b|
    && forall e :: 0 <= e < |a| && e != cur ==> b[e] == a[e].(tcRef := b[e].tcRef, traceMini := b[e].traceMini)
  }

  lemma OthersStayTwice(a: seq<Entry>, b: seq<Entry>, c: seq<Entry>, cur: nat)
    requires OthersStay(a, b, cur) && OthersStay(b, c, cur)
    ensures OthersStay(a, c, cur)
  {
  }

  class Scheduler {
    const dumbMode: bool
    const topRated: array<Option<nat>>
    var queue: seq<Entry>
    var scoreChanged: bool
    var pendingNotFuzzed: nat
    var queuedFavored: nat
    var pendingFavored: nat
    ghost var hits: seq<set<nat>> // the tuples that each entry hits
    ghost var scored: set<nat>    // the entries that have been calibrated

    ghost function Now(): Snap
      reads this, topRated
    {
      Snap(queue, topRated[..], hits, scored, scoreChanged)
    }

    /** The counters count what their names say. */
    ghost predicate CountersOk()
      reads this
    {
      && pendingNotFuzzed == |Unfuzzed(queue)|
      && queuedFavored == |Favored(queue)|
      && pendingFavored == |PendingFavored(queue)|
    }

    ghost predicate Sound(unscored: int)
      reads this, topRated
    {
      && Consistent(queue, topRated[..], hits, scored, unscored)
      && CountersOk()
      && (!scoreChanged ==> GreedilyFavored(queue, topRated[..], hits))
    }

    /** The invariant of every run. */
    ghost predicate Valid()
      reads this, topRated
    {
      Sound(-1)
    }

    /** The part of the invariant that outlives an interruption: references, counters and cover. */
    ghost predicate ValidButRatings()
      reads this, topRated
    {
      && Referenced(queue, topRated[..], hits, scored, -1)
      && CountersOk()
      && (!scoreChanged ==> GreedilyFavored(queue, topRated[..], hits))
    }

    constructor (mapSize: nat, dumbMode: bool)
      requires mapSize % 8 == 0
      ensures Valid() && queue == [] && scored == {} && topRated.Length == mapSize && fresh(topRated)
      ensures this.dumbMode == dumbMode && Now() == Snap([], seq(mapSize, _ => None), [], {}, false)
    {
      this.dumbMode := dumbMode;
      topRated := new Option<nat>[mapSize](_ => None);
      queue, scoreChanged := [], false;
      pendingNotFuzzed, queuedFavored, pendingFavored := 0, 0, 0;
      hits, scored := [], {};
      new;
      NothingToPick(queue, topRated[..], hits);
    }

    /** The body of the loop of `update_bitmap_score` for a tuple that `q` hits. */
    method CompeteFor(q: nat, trace: Trace, i: nat, ghost before: seq<Entry>, ghost top0: Winners)
      requires ScoringTo(before, top0, queue, topRated[..], hits, scored, trace, q, i) && i < |trace| && trace[i] != 0
      modifies this`queue, this`scoreChanged, topRated
      ensures ScoringTo(before, top0, queue, topRated[..], hits, scored, trace, q, i + 1)
      ensures !scoreChanged ==> !old(scoreChanged) && topRated[..] == old(topRated[..])
    {
      ghost var top := topRated[..];
      var w := topRated[i];
      if w.Some? {
        var favFactor := queue[q].execUs * queue[q].len;
        if favFactor > queue[w.value].execUs * queue[w.value].len {
          ScoringSkips(before, top0, queue, top, hits, scored, trace, q, i);
          return;
        }
      }
      var mini := MinimizeBits(trace);
      ScoringWins(before, top0, queue, top, hits, scored, trace, q, i, mini);
      if w.Some? {
        queue := queue[w.value := LoseSlot(queue[w.value])];
      }
      topRated[i] := Some(q);
      queue := queue[q := WinSlot(queue[q], mini)];
      scoreChanged := true;
      assert topRated[..] == top[i := Some(q)];
    }

    /** `update_bitmap_score`: entry `q` competes for every tuple in its trace. */
    method UpdateBitmapScore(q: nat, trace: Trace)
      requires |trace| == topRated.Length && |trace| % 8 == 0 && q < |queue|
      requires RefsOk(queue, topRated[..], hits) && WinnersHit(topRated[..], hits, scored)
      requires Rated(queue, topRated[..], hits, scored, q, 0)
      requires q in scored && hits[q] == HitSet(trace)
      modifies this`queue, this`scoreChanged, topRated
      ensures SameButRefs(old(queue), queue)
      ensures Competed(old(queue), old(topRated[..]), topRated[..], trace, q, |trace|)
      ensures RefsOk(queue, topRated[..], hits) && WinnersHit(topRated[..], hits, scored)
      ensures Rated(queue, topRated[..], hits, scored, q, |trace|)
      ensures !scoreChanged ==> !old(scoreChanged) && topRated[..] == old(topRated[..])
    {
      ghost var before, top0 := queue, topRated[..];
      for i := 0 to |trace|
        invariant ScoringTo(before, top0, queue, topRated[..], hits, scored, trace, q, i)
        invariant !scoreChanged ==> !old(scoreChanged) && topRated[..] == top0
      {
        if trace[i] != 0 {
          CompeteFor(q, trace, i, before, top0);
        } else {
          ScoringSkips(before, top0, queue, topRated[..], hits, scored, trace, q, i);
        }
      }
    }

    /** Everything is in order except that `q`, whose tuples are those of `trace`, has not competed yet. */
    ghost predicate ReadyToScore(q: nat, trace: Trace)
      reads this, topRated
    {
      && |trace| == topRated.Length && |trace| % 8 == 0 && q < |queue| && CountersOk()
      && RefsOk(queue, topRated[..], hits) && WinnersHit(topRated[..], hits, scored)
      && Rated(queue, topRated[..], hits, scored, q, 0) && q in scored && hits[q] == HitSet(trace)
      && ScoredOk(queue, scored, -1)
      && (!scoreChanged ==> GreedilyFavored(queue, topRated[..], hits))
    }

    method Rescore(q: nat, trace: Trace)
      requires ReadyToScore(q, trace)
      modifies this`queue, this`scoreChanged, topRated
      ensures Valid() && SameButRefs(old(queue), queue)
      ensures Competed(old(queue), old(topRated[..]), topRated[..], trace, q, |trace|)
    {
      ghost var before := queue;
      UpdateBitmapScore(q, trace);
      ScoringRestores(before, queue, topRated[..], hits, scored, q);
    }

    /** `add_to_queue`. */
    method AddToQueue(len: nat)
      requires Valid()
      modifies this`queue, this`pendingNotFuzzed, this`hits
      ensures Sound(|old(queue)|)
      ensures queue == old(queue) + [Entry(len, 0, 0, false, false, 0, None)] && hits == old(hits) + [{}]
    {
      EntryAdded(queue, topRated[..], hits, scored, len);
      EntryAddedCounts(queue, len);
      SelectionKept(queue, queue + [NewEntry(len)], topRated[..], hits, hits + [{}]);
      queue := queue + [NewEntry(len)];
      hits := hits + [{}];
      pendingNotFuzzed := pendingNotFuzzed + 1;
    }

    /** The results of a calibration are entered; the entry is ready to compete. */
    method EnterCalibration(q: nat, us: nat, trace: Trace)
      requires Sound(q) && q < |queue| && |trace| == topRated.Length
      modifies this`queue, this`hits, this`scored
      ensures ReadyToScore(q, trace)
      ensures queue == old(queue)[q := old(queue)[q].(execUs := us, calFailed := 0)]
      ensures scored == old(scored) + {q} && hits == old(hits)[q := HitSet(trace)]
    {
      var e := queue[q].(execUs := us, calFailed := 0);
      EntryCalibrated(queue, topRated[..], hits, scored, q, e, HitSet(trace));
      OneMoreScored(queue, scored, q, e);
      StatusCounts(queue, q, e);
      SelectionKept(queue, queue[q := e], topRated[..], hits, hits[q := HitSet(trace)]);
      queue, hits, scored := queue[q := e], hits[q := HitSet(trace)], scored + {q};
    }

    /** The successful end of `calibrate_case`: record the execution time and compete for the tuples of the trace. */
    method FinishCalibration(q: nat, us: nat, trace: Trace)
      requires Sound(q) && q < |queue| && |trace| == topRated.Length
      modifies this`queue, this`scoreChanged, this`hits, this`scored, topRated
      ensures Valid() && |queue| == |old(queue)|
      ensures scored == old(scored) + {q} && hits == old(hits)[q := HitSet(trace)]
      ensures queue[q].execUs == us && queue[q].calFailed == 0 && queue[q].len == old(queue[q].len)
      ensures var entered := old(queue)[q := old(queue)[q].(execUs := us, calFailed := 0)];
              SameButRefs(entered, queue) && Competed(entered, old(topRated[..]), topRated[..], trace, q, |trace|)
    {
      EnterCalibration(q, us, trace);
      Rescore(q, trace);
    }

    /** The ghost record after a calibration of `q`: its tuples are known exactly if it succeeded. */
    ghost predicate Calibrated(hits0: seq<set<nat>>, scored0: set<nat>, q: nat, result: Option<(nat, Trace)>)
      reads this
    {
      && q < |hits0|
      && scored == (if result.Some? then scored0 + {q} else scored0)
      && hits == if result.Some? then hits0[q := HitSet(result.value.1)] else hits0
    }

    /** `calibrate_case` on an entry not calibrated before; a failure is only counted. */
    method Calibrate(q: nat, result: Option<(nat, Trace)>)
      requires Sound(q) && q < |queue|
      requires result.Some? ==> |result.value.1| == topRated.Length
      modifies this`queue, this`scoreChanged, this`hits, this`scored, topRated
      ensures Valid() && |queue| == |old(queue)|
      ensures Calibrated(old(hits), old(scored), q, result) && queue[q].len == old(queue[q].len)
      ensures match result
              case None =>
                && queue == old(queue)[q := old(queue)[q].(calFailed := old(queue)[q].calFailed + 1)]
                && topRated[..] == old(topRated[..])
              case Some((us, trace)) =>
                var entered := old(queue)[q := old(queue)[q].(execUs := us, calFailed := 0)];
                SameButRefs(entered, queue) && Competed(entered, old(topRated[..]), topRated[..], trace, q, |trace|)
    {
      match result
      case None =>
        var e := queue[q].(calFailed := queue[q].calFailed + 1);
        assert hits[q := hits[q]] == hits;
        EntryCalibrated(queue, topRated[..], hits, scored, q, e, hits[q]);
        StatusCounts(queue, q, e);
        SelectionKept(queue, queue[q := e], topRated[..], hits, hits);
        queue := queue[q := e];
      case Some((us, trace)) =>
        FinishCalibration(q, us, trace);
    }

    /** The end of `trim_case`: the entry has become shorter and competes again. */
    method ApplyTrim(q: nat, len: nat, trace: Trace)
      requires Valid() && q < |queue| && queue[q].calFailed == 0 && len <= queue[q].len
      requires |trace| == topRated.Length && HitSet(trace) == hits[q]
      modifies this`queue, this`scoreChanged, topRated
      ensures Valid() && SameButRefs(old(queue)[q := old(queue)[q].(len := len)], queue)
      ensures Competed(old(queue)[q := old(queue)[q].(len := len)], old(topRated[..]), topRated[..], trace, q, |trace|)
    {
      var e := queue[q].(len := len);
      EntryTrimmed(queue, topRated[..], hits, scored, q, len);
      StatusCounts(queue, q, e);
      SelectionKept(queue, queue[q := e], topRated[..], hits, hits);
      queue := queue[q := e];
      Rescore(q, trace);
    }

    /** A `trim_case` that is interrupted: the entry may have become shorter, but it does not compete again. */
    method InterruptTrim(q: nat, len: nat)
      requires Valid() && q < |queue| && queue[q].calFailed == 0 && len <= queue[q].len
      modifies this`queue
      ensures queue == old(queue)[q := old(queue)[q].(len := len)] && ValidButRatings()
      ensures Valid() <==> StillBeaten(old(queue), topRated[..], hits, q, len)
    {
      var e := queue[q].(len := len);
      UnscoredTrim(queue, topRated[..], hits, scored, q, len);
      StatusCounts(queue, q, e);
      SelectionKept(queue, queue[q := e], topRated[..], hits, hits);
      queue := queue[q := e];
    }

    /** The first loop of `cull_queue`. */
    method ClearFavored()
      modifies this`queue
      ensures SameButFavored(old(queue), queue) && NoneFavored(queue)
    {
      for e := 0 to |queue|
        invariant SameButFavored(old(queue), queue)
        invariant forall k :: 0 <= k < e ==> !queue[k].favored
      {
        queue := queue[e := queue[e].(favored := false)];
      }
    }

    /** Marks the winner of tuple `i` as favored. */
    method Favor(i: nat, ghost before: seq<Entry>, ghost open: set<nat>)
      requires Consistent(before, topRated[..], hits, scored, -1)
      requires CulledTo(before, queue, topRated[..], hits, open, queuedFavored, pendingFavored, i)
      requires i < topRated.Length && topRated[i].Some? && topRated[i].value < |queue| == |hits| && i in open
      modifies this`queue, this`queuedFavored, this`pendingFavored
      ensures var open' := open - hits[topRated[i].value];
              CulledTo(before, queue, topRated[..], hits, open', queuedFavored, pendingFavored, i + 1)
    {
      WinnerIsReady(before, queue, topRated[..], hits, scored, open, queuedFavored, pendingFavored, i);
      var w := topRated[i].value;
      CullPick(before, queue, topRated[..], hits, open, queuedFavored, pendingFavored, i, w);
      queuedFavored := queuedFavored + 1;
      if !queue[w].wasFuzzed {
        pendingFavored := pendingFavored + 1;
      }
      queue := queue[w := queue[w].(favored := true)];
    }

    /** What the selection loop has established when it reaches tuple `i`. */
    ghost predicate Selecting(before: seq<Entry>, open: set<nat>, temp: array<Cell>, i: nat)
      reads this, topRated, temp
    {
      && IsCompact(temp[..], open, topRated.Length)
      && CulledTo(before, queue, topRated[..], hits, open, queuedFavored, pendingFavored, i)
    }

    /** The winner of a tuple that is still open becomes favored, and its tuples are no longer open. */
    method TakeWinner(i: nat, temp: array<Cell>, ghost before: seq<Entry>, ghost open: set<nat>)
      returns (ghost open': set<nat>)
      requires Consistent(before, topRated[..], hits, scored, -1) && Selecting(before, open, temp, i)
      requires i < topRated.Length && topRated[i].Some? && i in open
      modifies this`queue, this`queuedFavored, this`pendingFavored, temp
      ensures Selecting(before, open', temp, i + 1)
    {
      WinnerIsReady(before, queue, topRated[..], hits, scored, open, queuedFavored, pendingFavored, i);
      var w := topRated[i].value;
      TakeAway(temp, queue[w].traceMini.value, open, hits[w], topRated.Length);
      open' := open - hits[w];
      Favor(i, before, open);
    }

    /** The body of the selection loop. */
    method SelectWinner(i: nat, temp: array<Cell>, ghost before: seq<Entry>, ghost open: set<nat>)
      returns (ghost open': set<nat>)
      requires Consistent(before, topRated[..], hits, scored, -1)
      requires Selecting(before, open, temp, i) && i < topRated.Length
      modifies this`queue, this`queuedFavored, this`pendingFavored, temp
      ensures Selecting(before, open', temp, i + 1)
    {
      open' := open;
      var isOpen := TestBit(temp, i, open, topRated.Length);
      if topRated[i].Some? && isOpen {
        open' := TakeWinner(i, temp, before, open);
      } else {
        CullSkip(before, queue, topRated[..], hits, open, queuedFavored, pendingFavored, i);
      }
    }

    method StartSelection(ghost before: seq<Entry>) returns (temp: array<Cell>, ghost open: set<nat>)
      requires topRated.Length % 8 == 0 && SameButFavored(before, queue) && NoneFavored(queue) && |hits| == |queue|
      modifies this`queuedFavored, this`pendingFavored
      ensures fresh(temp) && Selecting(before, open, temp, 0)
    {
      temp := NewBitmap(topRated.Length / 8);
      queuedFavored, pendingFavored := 0, 0;
      CullStart(before, queue, topRated[..], hits);
      open := AllTuples(topRated.Length);
    }

    /** The selection of `cull_queue`. */
    method SelectFavored(ghost before: seq<Entry>) returns (ghost open: set<nat>)
      requires Consistent(before, topRated[..], hits, scored, -1)
      requires SameButFavored(before, queue) && NoneFavored(queue)
      modifies this`queue, this`queuedFavored, this`pendingFavored
      ensures CulledTo(before, queue, topRated[..], hits, open, queuedFavored, pendingFavored, topRated.Length)
    {
      var temp;
      temp, open := StartSelection(before);
      for i := 0 to topRated.Length
        invariant Selecting(before, open, temp, i)
      {
        open := SelectWinner(i, temp, before, open);
      }
    }

    /** `cull_queue`: unless nothing has changed since the last time, the favored entries are chosen anew: going up the
        tuples, the winner of each that no winner chosen before hits. They cover every tuple with a winner. */
    method CullQueue()
      requires Valid()
      modifies this`queue, this`scoreChanged, this`queuedFavored, this`pendingFavored
      ensures Valid() && SameButFavored(old(queue), queue)
      ensures Culled(dumbMode, old(Now()), Now())
      ensures !dumbMode ==>
                && (exists picks :: ArePicks(topRated[..], hits, picks) && ArePicked(queue, topRated[..], picks))
                && FavoredCover(queue, topRated[..], hits)
    {
      if !dumbMode && scoreChanged {
        scoreChanged := false;
        Reselect();
      }
      if !dumbMode {
        GreedyCovers(queue, topRated[..], hits, scored);
      }
    }

    /** The favored entries are chosen anew. */
    method Reselect()
      requires Consistent(queue, topRated[..], hits, scored, -1) && pendingNotFuzzed == |Unfuzzed(queue)|
      modifies this`queue, this`queuedFavored, this`pendingFavored
      ensures Consistent(queue, topRated[..], hits, scored, -1) && CountersOk()
      ensures SameButFavored(old(queue), queue) && GreedilyFavored(queue, topRated[..], hits)
    {
      ghost var before := queue;
      ClearFavored();
      ghost var open := SelectFavored(before);
      CullEnd(before, queue, topRated[..], hits, scored, open, queuedFavored, pendingFavored);
    }

    /** The end of `fuzz_one`: the first time an entry gets through, the pending counters go down. */
    method AbandonEntry(cur: nat, stopSoon: bool)
      requires Valid() && cur < |queue|
      modifies this`queue, this`pendingNotFuzzed, this`pendingFavored
      ensures Valid()
      ensures var e := old(queue)[cur];
              queue == old(queue)[cur := e.(wasFuzzed := e.wasFuzzed || (!stopSoon && e.calFailed == 0))]
    {
      if !stopSoon && queue[cur].calFailed == 0 && !queue[cur].wasFuzzed {
        ghost var queue' := queue[cur := queue[cur].(wasFuzzed := true)];
        EntryFuzzed(queue, cur);
        FuzzedIsConsistent(queue, topRated[..], hits, scored, cur);
        SelectionKept(queue, queue', topRated[..], hits, hits);
        pendingNotFuzzed := pendingNotFuzzed - 1;
        if queue[cur].favored {
          pendingFavored := pendingFavored - 1;
        }
        queue := queue[cur := queue[cur].(wasFuzzed := true)];
      }
    }

    /** A test case enters the queue: `add_to_queue` followed by `calibrate_case`. */
    method QueueCase(len: nat, result: Option<(nat, Trace)>)
      requires Valid() && (result.Some? ==> |result.value.1| == topRated.Length)
      modifies this`queue, this`pendingNotFuzzed, this`scoreChanged, this`hits, this`scored, topRated
      ensures Valid() && |queue| == |old(queue)| + 1
      ensures Calibrated(old(hits) + [{}], old(scored), |old(queue)|, result)
      ensures CaseQueued(old(Now()), Now(), len, result)
    {
      AddToQueue(len);
      Calibrate(|queue| - 1, result);
    }

    /** The start of `fuzz_one`: an entry whose earlier calibration failed gets another chance, up to three. `noBits`
        is a calibration that succeeds without showing new bits; it ends the attempt all the same. */
    method Prepare(cur: nat, calibration: Option<(nat, Trace)>, noBits: bool, stopSoon: bool) returns (ready: bool)
      requires Valid() && cur < |queue|
      requires calibration.Some? ==> |calibration.value.1| == topRated.Length
      modifies this`queue, this`scoreChanged, this`hits, this`scored, topRated
      ensures Valid() && |queue| == |old(queue)| && queue[cur].len == old(queue[cur].len)
      ensures if 0 < old(queue[cur].calFailed) < 3 then Calibrated(old(hits), old(scored), cur, calibration)
              else hits == old(hits) && scored == old(scored)
      ensures ready <==> GoesOn(old(queue[cur].calFailed), calibration, noBits, stopSoon)
      ensures ready ==> queue[cur].calFailed == 0
      ensures OthersStay(old(queue), queue, cur) && queue[cur].wasFuzzed == old(queue[cur].wasFuzzed)
      ensures old(queue[cur].calFailed) == 0 ==> ready && queue == old(queue) && topRated[..] == old(topRated[..])
      ensures ready && stopSoon ==> old(queue[cur].calFailed) == 0
    {
      ready := queue[cur].calFailed == 0;
      if 0 < queue[cur].calFailed < CAL_CHANCES {
        Calibrate(cur, calibration);
        ready := calibration.Some? && !noBits && !stopSoon;
      }
    }

    /** `fuzz_one` as far as the scheduler is concerned: calibrate if that failed before, let a trimmed entry compete
        again, and settle the pending counters. A trim that is interrupted leaves the invariant but for the ratings, and
        those exactly if the winners on the entry's tuples are still good enough. */
    method FuzzOne(cur: nat, calibration: Option<(nat, Trace)>, noBits: bool, trim: TrimOutcome, stopSoon: bool)
      requires Valid() && cur < |queue|
      requires calibration.Some? ==> |calibration.value.1| == topRated.Length
      requires trim.Trimmed? ==> && trim.len <= queue[cur].len && |trim.trace| == topRated.Length
                                 && (cur in scored ==> HitSet(trim.trace) == hits[cur])
                                 && (calibration.Some? ==> HitSet(trim.trace) == HitSet(calibration.value.1))
      requires trim.Interrupted? ==> stopSoon && trim.len <= queue[cur].len
      modifies this`queue, this`pendingNotFuzzed, this`pendingFavored, this`scoreChanged, this`hits, this`scored,
               topRated
      ensures ValidButRatings() && |queue| == |old(queue)|
      ensures if 0 < old(queue[cur].calFailed) < 3 then Calibrated(old(hits), old(scored), cur, calibration)
              else hits == old(hits) && scored == old(scored)
      ensures EntryDone(old(Now()), Now(), cur, calibration, noBits, trim, stopSoon)
      ensures if old(queue[cur].calFailed) == 0 && trim.Interrupted?
              then && queue == old(queue)[cur := old(queue)[cur].(len := trim.len)]
                   && (Valid() <==> StillBeaten(old(queue), old(topRated[..]), old(hits), cur, trim.len))
              else Valid()
    {
      var ready := Prepare(cur, calibration, noBits, stopSoon);
      ghost var prepared := queue;
      FinishEntry(cur, ready, trim, stopSoon);
      OthersStayTwice(old(queue), prepared, queue, cur);
    }

    /** The part of `fuzz_one` after the calibration. */
    method FinishEntry(cur: nat, ready: bool, trim: TrimOutcome, stopSoon: bool)
      requires Valid() && cur < |queue| && (ready ==> queue[cur].calFailed == 0)
      requires ready && trim.Trimmed? ==> && trim.len <= queue[cur].len && |trim.trace| == topRated.Length
                                          && HitSet(trim.trace) == hits[cur]
      requires ready && trim.Interrupted? ==> stopSoon && trim.len <= queue[cur].len
      modifies this`queue, this`pendingNotFuzzed, this`pendingFavored, this`scoreChanged, topRated
      ensures OthersStay(old(queue), queue, cur) && queue[cur].calFailed == old(queue[cur].calFailed)
      ensures queue[cur].len == if ready && !trim.Unchanged? then trim.len else old(queue[cur].len)
      ensures if ready && trim.Interrupted?
              then && queue == old(queue)[cur := old(queue)[cur].(len := trim.len)] && ValidButRatings()
                   && (Valid() <==> StillBeaten(old(queue), old(topRated[..]), hits, cur, trim.len))
              else && Valid()
                   && (queue[cur].wasFuzzed <==> old(queue[cur].wasFuzzed) || (!stopSoon && queue[cur].calFailed == 0))
    {
      if ready && trim.Trimmed? {
        ApplyTrim(cur, trim.len, trim.trace);
      }
      if ready && trim.Interrupted? {
        InterruptTrim(cur, trim.len);
        return;
      }
      AbandonEntry(cur, stopSoon);
    }
  }

  // ----- whole runs -----

  datatype Op =
    | NewCase(len: nat, result: Option<(nat, Trace)>)
    | Fuzz(cur: nat, calibration: Option<(nat, Trace)>, noBits: bool, trim: TrimOutcome, stopSoon: bool)
    | Cull

  /** Every execution of entry `e` hits exactly the tuples `tuples(e)`, and traces have the size of the map. */
  ghost predicate Steady(tuples: nat -> set<nat>, n: nat, e: nat, run: Option<(nat, Trace)>) {
    run.Some? ==> |run.value.1| == n && HitSet(run.value.1) == tuples(e)
  }

  /** The number of entries queued by the first `k` operations. */
  function Queued(ops: seq<Op>, k: nat): nat
    requires k <= |ops|
  {
    if k == 0 then 0 else Queued(ops, k - 1) + if ops[k - 1].NewCase? then 1 else 0
  }

  ghost predicate SteadyOp(tuples: nat -> set<nat>, n: nat, queued: nat, op: Op) {
    match op
    case NewCase(_, result) => Steady(tuples, n, queued, result)
    case Fuzz(cur, calibration, _, trim, stopSoon) =>
      && Steady(tuples, n, cur, calibration)
      && (trim.Trimmed? ==> |trim.trace| == n && HitSet(trim.trace) == tuples(cur))
      && (trim.Interrupted? ==> stopSoon)
    case Cull => true
  }

  ghost predicate SteadyRun(tuples: nat -> set<nat>, n: nat, ops: seq<Op>) {
    forall k :: 0 <= k < |ops| ==> SteadyOp(tuples, n, Queued(ops, k), ops[k])
  }

  /** The tuples recorded for the scored entries are the stable ones. */
  ghost predicate Records(hits: seq<set<nat>>, scored: set<nat>, tuples: nat -> set<nat>) {
    forall e :: e in scored ==> e < |hits| && hits[e] == tuples(e)
  }

  /** The operation is for an entry that exists, and a trim does not grow it. */
  predicate Applies(op: Op, queue: seq<Entry>) {
    op.Fuzz? ==>
      && op.cur < |queue|
      && (op.trim.Trimmed? ==> op.trim.len <= queue[op.cur].len)
      && (op.trim.Interrupted? ==> op.trim.len <= queue[op.cur].len)
  }

  /** What the operations work on: the entries, the winners, the tuples that the entries hit, those that were
      calibrated, and whether the winners have changed since the last cull. */
  datatype Snap = Snap(queue: seq<Entry>, top: Winners, hits: seq<set<nat>>, scored: set<nat>, changed: bool)

  /** A case was queued and calibrated; if that succeeded, it has competed for the tuples of its trace. */
  ghost predicate CaseQueued(a: Snap, b: Snap, len: nat, result: Option<(nat, Trace)>) {
    var q, added := |a.queue|, a.queue + [Entry(len, 0, 0, false, false, 0, None)];
    match result
    case None =>
      && b.queue == added[q := added[q].(calFailed := 1)] && b.top == a.top
      && b.hits == a.hits + [{}] && b.scored == a.scored
    case Some((us, trace)) =>
      var entered := added[q := added[q].(execUs := us)];
      && SameButRefs(entered, b.queue) && Competed(entered, a.top, b.top, trace, q, |trace|)
      && b.hits == a.hits + [HitSet(trace)] && b.scored == a.scored + {q}
  }

  /** An entry was fuzzed: it may have been calibrated again and trimmed, and counts as fuzzed unless interrupted. */
  ghost predicate EntryDone(a: Snap, b: Snap, cur: nat, calibration: Option<(nat, Trace)>, noBits: bool,
                            trim: TrimOutcome, stopSoon: bool)
    requires cur < |a.queue|
  {
    var e := a.queue[cur];
    && OthersStay(a.queue, b.queue, cur) && |a.hits| == |a.queue|
    && (b.queue[cur].wasFuzzed <==> e.wasFuzzed || (!stopSoon && b.queue[cur].calFailed == 0))
    && b.queue[cur].len == (if GoesOn(e.calFailed, calibration, noBits, stopSoon) && !trim.Unchanged? then trim.len
                            else e.len)
    && if 0 < e.calFailed < 3 && calibration.Some?
       then b.hits == a.hits[cur := HitSet(calibration.value.1)] && b.scored == a.scored + {cur}
       else b.hits == a.hits && b.scored == a.scored
  }

  /** The favored entries were chosen anew if anything had changed. */
  ghost predicate Culled(dumbMode: bool, a: Snap, b: Snap) {
    if dumbMode || !a.changed then b == a
    else
      && SameButFavored(a.queue, b.queue) && b == a.(queue := b.queue, changed := false)
      && exists picks :: ArePicks(a.top, a.hits, picks) && ArePicked(b.queue, a.top, picks)
  }

  /** What an operation does; those that do not apply are passed over. */
  ghost predicate Does(op: Op, dumbMode: bool, a: Snap, b: Snap) {
    match op
    case NewCase(len, result) => CaseQueued(a, b, len, result)
    case Fuzz(cur, calibration, noBits, trim, stopSoon) =>
      if Applies(op, a.queue) then EntryDone(a, b, cur, calibration, noBits, trim, stopSoon) else b == a
    case Cull => Culled(dumbMode, a, b)
  }

  /** One operation. */
  method Perform(s: Scheduler, op: Op, ghost tuples: nat -> set<nat>)
    requires s.Valid() && Records(s.hits, s.scored, tuples) && SteadyOp(tuples, s.topRated.Length, |s.queue|, op)
    modifies s, s.topRated
    ensures s.ValidButRatings() && Records(s.hits, s.scored, tuples)
    ensures Does(op, s.dumbMode, old(s.Now()), s.Now())
    ensures |s.queue| == |old(s.queue)| + if op.NewCase? then 1 else 0
    ensures if Breaks(op, old(s.queue))
            then s.Valid() <==> StillBeaten(old(s.queue), old(s.topRated[..]), old(s.hits), op.cur, op.trim.len)
            else s.Valid()
  {
    match op
    case NewCase(len, result) =>
      s.QueueCase(len, result);
    case Fuzz(cur, calibration, noBits, trim, stopSoon) =>
      if Applies(op, s.queue) {
        s.FuzzOne(cur, calibration, noBits, trim, stopSoon);
      }
    case Cull =>
      s.CullQueue();
  }

  /** The operation interrupts the trimming of a calibrated entry. */
  predicate Breaks(op: Op, queue: seq<Entry>) {
    op.Fuzz? && op.trim.Interrupted? && Applies(op, queue) && queue[op.cur].calFailed == 0
  }

  /** The operation comes with an interruption, which ends the main loop. */
  predicate Stops(op: Op) {
    op.Fuzz? && op.stopSoon
  }

  /** The first `n` operations are those up to the first interruption. */
  ghost predicate UpToStop(ops: seq<Op>, n: nat) {
    && n <= |ops| && (n < |ops| ==> n > 0 && Stops(ops[n - 1]))
    && forall k :: 0 <= k < n - 1 ==> !Stops(ops[k])
  }

  /** The main loop is about to perform operation `n`. */
  ghost predicate Ready(s: Scheduler, ops: seq<Op>, n: nat, tuples: nat -> set<nat>)
    reads s, s.topRated
  {
    && n <= |ops| && s.Valid() && |s.queue| == Queued(ops, n) && Records(s.hits, s.scored, tuples)
    && forall k :: 0 <= k < n ==> !Stops(ops[k])
  }

  /** The main loop has ended after `n` operations: references, counters and cover are in order, and the whole invariant
      holds unless the last operation interrupted a trim. */
  ghost predicate Ended(s: Scheduler, ops: seq<Op>, n: nat, tuples: nat -> set<nat>)
    reads s, s.topRated
  {
    && UpToStop(ops, n) && |s.queue| == Queued(ops, n) && Records(s.hits, s.scored, tuples)
    && s.ValidButRatings()
    && (n == 0 || !ops[n - 1].Fuzz? || !ops[n - 1].trim.Interrupted? ==> s.Valid())
  }

  /** The main loop has performed `n` operations, the last of which ended it if `stop` is set. */
  ghost predicate Performed(s: Scheduler, ops: seq<Op>, n: nat, stop: bool, tuples: nat -> set<nat>)
    reads s, s.topRated
  {
    if stop then Ended(s, ops, n, tuples) else Ready(s, ops, n, tuples)
  }

  lemma EndedInOrder(s: Scheduler, ops: seq<Op>, n: nat, stop: bool, tuples: nat -> set<nat>)
    requires Performed(s, ops, n, stop, tuples) && (stop || n == |ops|)
    ensures Ended(s, ops, n, tuples)
  {
  }

  /** Turn `n` of the main loop. */
  method Turn(s: Scheduler, ops: seq<Op>, n: nat, ghost tuples: nat -> set<nat>) returns (stop: bool)
    requires n < |ops| && Ready(s, ops, n, tuples) && SteadyRun(tuples, s.topRated.Length, ops)
    modifies s, s.topRated
    ensures Performed(s, ops, n + 1, stop, tuples) && Does(ops[n], s.dumbMode, old(s.Now()), s.Now())
  {
    assert SteadyOp(tuples, s.topRated.Length, Queued(ops, n), ops[n]);
    PerformOp(s, ops[n], tuples);
    stop := Stops(ops[n]);
    OneMoreOp(ops, n);
  }

  /** An operation other than an interrupted trim keeps the whole invariant. */
  method PerformOp(s: Scheduler, op: Op, ghost tuples: nat -> set<nat>)
    requires s.Valid() && Records(s.hits, s.scored, tuples) && SteadyOp(tuples, s.topRated.Length, |s.queue|, op)
    modifies s, s.topRated
    ensures s.ValidButRatings() && Records(s.hits, s.scored, tuples)
    ensures Does(op, s.dumbMode, old(s.Now()), s.Now())
    ensures |s.queue| == |old(s.queue)| + if op.NewCase? then 1 else 0
    ensures !op.Fuzz? || !op.trim.Interrupted? || !op.stopSoon ==> s.Valid()
  {
    Perform(s, op, tuples);
  }

  lemma OneMoreOp(ops: seq<Op>, n: nat)
    requires n < |ops| && forall k :: 0 <= k < n ==> !Stops(ops[k])
    ensures Queued(ops, n + 1) == Queued(ops, n) + if ops[n].NewCase? then 1 else 0
    ensures if Stops(ops[n]) then UpToStop(ops, n + 1) else forall k :: 0 <= k < n + 1 ==> !Stops(ops[k])
  {
  }

  /** The states between the first `n` operations, each of which does what it should. */
  ghost predicate AreSnaps(ops: seq<Op>, n: nat, dumbMode: bool, snaps: seq<Snap>, first: Snap, last: Snap) {
    && n <= |ops| && |snaps| == n + 1 && snaps[0] == first && snaps[n] == last
    && forall k :: 0 <= k < n ==> Does(ops[k], dumbMode, snaps[k], snaps[k + 1])
  }

  lemma NextSnap(ops: seq<Op>, n: nat, dumbMode: bool, snaps: seq<Snap>, first: Snap, last: Snap, next: Snap)
    requires n < |ops| && AreSnaps(ops, n, dumbMode, snaps, first, last) && Does(ops[n], dumbMode, last, next)
    ensures AreSnaps(ops, n + 1, dumbMode, snaps + [next], first, next)
  {
    var snaps' := snaps + [next];
    forall k | 0 <= k < n + 1
      ensures Does(ops[k], dumbMode, snaps'[k], snaps'[k + 1])
    {
      if k < n {
        assert Does(ops[k], dumbMode, snaps[k], snaps[k + 1]);
      }
    }
  }

  /** The main loop. */
  method RunOps(s: Scheduler, ops: seq<Op>, ghost tuples: nat -> set<nat>) returns (n: nat, ghost snaps: seq<Snap>)
    requires Ready(s, ops, 0, tuples) && SteadyRun(tuples, s.topRated.Length, ops)
    modifies s, s.topRated
    ensures Ended(s, ops, n, tuples) && AreSnaps(ops, n, s.dumbMode, snaps, old(s.Now()), s.Now())
  {
    n, snaps := 0, [s.Now()];
    var stop := false;
    while n < |ops| && !stop
      invariant n <= |ops| && Performed(s, ops, n, stop, tuples)
      invariant AreSnaps(ops, n, s.dumbMode, snaps, old(s.Now()), s.Now())
    {
      stop := Turn(s, ops, n, tuples);
      NextSnap(ops, n, s.dumbMode, snaps, old(s.Now()), snaps[n], s.Now());
      n, snaps := n + 1, snaps + [s.Now()];
    }
    EndedInOrder(s, ops, n, stop, tuples);
  }

  /** Any sequence of operations from an empty queue on, each entry's set of hit tuples being stable: every operation
      does what it should. References, counters and the favored entries are in order at the end of every run, and the
      whole invariant holds at the end of every run whose last operation did not interrupt a trim. */
  method Campaign(mapSize: nat, dumbMode: bool, ops: seq<Op>, ghost tuples: nat -> set<nat>)
    returns (s: Scheduler, n: nat, ghost snaps: seq<Snap>)
    requires mapSize % 8 == 0 && SteadyRun(tuples, mapSize, ops)
    ensures fresh(s) && Ended(s, ops, n, tuples)
    ensures AreSnaps(ops, n, dumbMode, snaps, Snap([], seq(mapSize, _ => None), [], {}, false), s.Now())
  {
    s := new Scheduler(mapSize, dumbMode);
    n, snaps := RunOps(s, ops, tuples);
  }
}
