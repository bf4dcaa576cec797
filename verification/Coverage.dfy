/** Words of four and eight map cells. */
module CellWords {
  import opened Bytes

  function Word32(b0: Cell, b1: Cell, b2: Cell, b3: Cell): bv32 {
    (b0 as bv32) | ((b1 as bv32) << 8) | ((b2 as bv32) << 16) | ((b3 as bv32) << 24)
  }

  function Low(w: bv32): Cell {
    (w & 0xff) as Cell
  }

  function Word64(lo: bv32, hi: bv32): bv64 {
    (lo as bv64) | ((hi as bv64) << 32)
  }

  function Half(w: bv64): bv32 {
    (w & 0xffff_ffff) as bv32
  }

  /** Some of four cells shares a bit with its virgin cell. */
  predicate Shared(v0: Cell, v1: Cell, v2: Cell, v3: Cell, t0: Cell, t1: Cell, t2: Cell, t3: Cell) {
    t0 & v0 != 0 || t1 & v1 != 0 || t2 & v2 != 0 || t3 & v3 != 0
  }

  /** The guard `*current && (*current & *virgin)` on a word: one of four cells shares a bit with its virgin cell. */
  method Test32(v0: Cell, v1: Cell, v2: Cell, v3: Cell, t0: Cell, t1: Cell, t2: Cell, t3: Cell) returns (hit: bool)
    ensures hit == Shared(v0, v1, v2, v3, t0, t1, t2, t3)
  {
    var virgin, current := Word32(v0, v1, v2, v3), Word32(t0, t1, t2, t3);
    hit := current != 0 && current & virgin != 0;
  }

  /** The same for eight cells. */
  method Test64(v0: Cell, v1: Cell, v2: Cell, v3: Cell, v4: Cell, v5: Cell, v6: Cell, v7: Cell,
                t0: Cell, t1: Cell, t2: Cell, t3: Cell, t4: Cell, t5: Cell, t6: Cell, t7: Cell)
    returns (hit: bool, ghost lo: bool, ghost hi: bool)
    ensures hit <==> lo || hi
    ensures lo == Shared(v0, v1, v2, v3, t0, t1, t2, t3) && hi == Shared(v4, v5, v6, v7, t4, t5, t6, t7)
  {
    lo, hi := Shared(v0, v1, v2, v3, t0, t1, t2, t3), Shared(v4, v5, v6, v7, t4, t5, t6, t7);
    var virgin := Word64(Word32(v0, v1, v2, v3), Word32(v4, v5, v6, v7));
    var current := Word64(Word32(t0, t1, t2, t3), Word32(t4, t5, t6, t7));
    hit := current != 0 && current & virgin != 0;
  }

  /** A word is zero exactly if all its cells are. */
  method IsZero32(t0: Cell, t1: Cell, t2: Cell, t3: Cell) returns (zero: bool)
    ensures zero <==> t0 == 0 && t1 == 0 && t2 == 0 && t3 == 0
  {
    zero := Word32(t0, t1, t2, t3) == 0;
  }

  method IsZero64(t0: Cell, t1: Cell, t2: Cell, t3: Cell, t4: Cell, t5: Cell, t6: Cell, t7: Cell) returns (zero: bool)
    ensures zero <==> t0 == 0 && t1 == 0 && t2 == 0 && t3 == 0 && t4 == 0 && t5 == 0 && t6 == 0 && t7 == 0
  {
    zero := Word64(Word32(t0, t1, t2, t3), Word32(t4, t5, t6, t7)) == 0;
  }

  /** The cells of the constant 0x01010101. */
  method Ones32() returns (cells: Trace)
    ensures cells == [1, 1, 1, 1]
  {
    var w: bv32 := 0x0101_0101;
    cells := [Low(w), Low(w >> 8), Low(w >> 16), Low(w >> 24)];
  }

  /** The cells of the constant 0x0101010101010101. */
  method Ones64() returns (cells: Trace)
    ensures cells == [1, 1, 1, 1, 1, 1, 1, 1]
  {
    var w: bv64 := 0x0101_0101_0101_0101;
    var lo, hi := Half(w), Half(w >> 32);
    cells := [Low(lo), Low(lo >> 8), Low(lo >> 16), Low(lo >> 24), Low(hi), Low(hi >> 8), Low(hi >> 16), Low(hi >> 24)];
  }

  /** `*virgin &= ~*current` on a word clears the four cells one by one. */
  method Clear32(v0: Cell, v1: Cell, v2: Cell, v3: Cell, t0: Cell, t1: Cell, t2: Cell, t3: Cell)
    returns (c0: Cell, c1: Cell, c2: Cell, c3: Cell)
    ensures c0 == v0 & !t0 && c1 == v1 & !t1 && c2 == v2 & !t2 && c3 == v3 & !t3
  {
    var w := Word32(v0, v1, v2, v3) & !Word32(t0, t1, t2, t3);
    c0, c1, c2, c3 := Low(w), Low(w >> 8), Low(w >> 16), Low(w >> 24);
  }

  /** The same for eight cells. */
  method Clear64(v0: Cell, v1: Cell, v2: Cell, v3: Cell, v4: Cell, v5: Cell, v6: Cell, v7: Cell,
                 t0: Cell, t1: Cell, t2: Cell, t3: Cell, t4: Cell, t5: Cell, t6: Cell, t7: Cell)
    returns (c0: Cell, c1: Cell, c2: Cell, c3: Cell, c4: Cell, c5: Cell, c6: Cell, c7: Cell)
    ensures c0 == v0 & !t0 && c1 == v1 & !t1 && c2 == v2 & !t2 && c3 == v3 & !t3
    ensures c4 == v4 & !t4 && c5 == v5 & !t5 && c6 == v6 & !t6 && c7 == v7 & !t7
  {
    var virgin := Word64(Word32(v0, v1, v2, v3), Word32(v4, v5, v6, v7));
    var current := Word64(Word32(t0, t1, t2, t3), Word32(t4, t5, t6, t7));
    var w := virgin & !current;
    var lo, hi := Half(w), Half(w >> 32);
    c0, c1, c2, c3 := Low(lo), Low(lo >> 8), Low(lo >> 16), Low(lo >> 24);
    c4, c5, c6, c7 := Low(hi), Low(hi >> 8), Low(hi >> 16), Low(hi >> 24);
  }
}

/** Coverage maps of afl-fuzz: virgin bits, novelty of a trace, simplified traces. */
module Coverage {
  import opened Bytes
  import opened CellWords

  // ----- what the maps mean -----

  /** The virgin map after `t` has been seen on top of it. */
  function Clear(virgin: Trace, t: Trace): (r: Trace)
    requires |virgin| == |t|
    ensures |r| == |virgin|
  {
    seq(|virgin|, i requires 0 <= i < |virgin| => virgin[i] & !t[i])
  }

  /** `has_new_bits`, byte by byte: 2 for a cell never hit before, 1 for a new hit count, 0 otherwise. */
  ghost function Novelty(virgin: Trace, t: Trace): (r: int)
    requires |virgin| == |t|
    ensures 0 <= r <= 2
  {
    if exists i :: 0 <= i < |t| && t[i] != 0 && virgin[i] == 0xff then 2
    else if exists i :: 0 <= i < |t| && t[i] & virgin[i] != 0 then 1
    else 0
  }

  ghost predicate SameSize(n: nat, ts: seq<Trace>) {
    forall k :: 0 <= k < |ts| ==> |ts[k]| == n
  }

  /** The virgin map after a history of traces, starting all ones. */
  ghost function VirginAfter(n: nat, ts: seq<Trace>): (v: Trace)
    requires SameSize(n, ts)
    ensures |v| == n
  {
    if ts == [] then seq(n, _ => 0xff) else Clear(VirginAfter(n, ts[..|ts| - 1]), ts[|ts| - 1])
  }

  /** Everything that any trace of the history recorded in cell `i`. */
  ghost function UnionAt(n: nat, ts: seq<Trace>, i: nat): Cell
    requires SameSize(n, ts) && i < n
  {
    if ts == [] then 0 else UnionAt(n, ts[..|ts| - 1], i) | ts[|ts| - 1][i]
  }

  /** The virgin map is the complement of the union of all traces seen. */
  lemma {:induction false} VirginIsComplement(n: nat, ts: seq<Trace>, i: nat)
    requires SameSize(n, ts) && i < n
    ensures VirginAfter(n, ts)[i] == !UnionAt(n, ts, i)
  {
    if ts != [] {
      VirginIsComplement(n, ts[..|ts| - 1], i);
    }
  }

  /** A cell of the virgin map is pristine exactly when no trace ever hit it. */
  lemma {:induction false} PristineMeansNeverHit(n: nat, ts: seq<Trace>, i: nat)
    requires SameSize(n, ts) && i < n
    ensures VirginAfter(n, ts)[i] == 0xff <==> forall k :: 0 <= k < |ts| ==> ts[k][i] == 0
  {
    if ts != [] {
      var prefix, last := ts[..|ts| - 1], ts[|ts| - 1];
      PristineMeansNeverHit(n, prefix, i);
      VirginIsComplement(n, prefix, i);
      assert (VirginAfter(n, prefix)[i] & !last[i] == 0xff) <==> VirginAfter(n, prefix)[i] == 0xff && last[i] == 0;
      assert ts == prefix + [last];
      assert forall k :: 0 <= k < |prefix| ==> ts[k][i] == prefix[k][i];
    }
  }

  /** Cell `i` of `t` is hit and no earlier trace hit it. */
  ghost predicate NewCell(ts: seq<Trace>, t: Trace, i: nat)
    requires i < |t| && SameSize(|t|, ts)
  {
    t[i] != 0 && forall k :: 0 <= k < |ts| ==> ts[k][i] == 0
  }

  /** Cell `i` of `t` has a bit that no earlier trace had there. */
  ghost predicate NewBits(ts: seq<Trace>, t: Trace, i: nat)
    requires i < |t| && SameSize(|t|, ts)
  {
    t[i] & !UnionAt(|t|, ts, i) != 0
  }

  /** What `has_new_bits` answers after any history: 2 exactly when some cell is hit for the first time ever,
      and at least 1 exactly when some bit is set for the first time ever. */
  lemma {:induction false} NoveltyAgainstHistory(ts: seq<Trace>, t: Trace)
    requires SameSize(|t|, ts)
    ensures Novelty(VirginAfter(|t|, ts), t) == 2 <==> exists i :: 0 <= i < |t| && NewCell(ts, t, i)
    ensures Novelty(VirginAfter(|t|, ts), t) >= 1 <==> exists i :: 0 <= i < |t| && NewBits(ts, t, i)
  {
    var v := VirginAfter(|t|, ts);
    PristineIsHit(v, t);
    forall i | 0 <= i < |t|
      ensures t[i] != 0 && v[i] == 0xff <==> NewCell(ts, t, i)
      ensures t[i] & v[i] != 0 <==> NewBits(ts, t, i)
    {
      FirstHit(ts, t, i);
      FirstBits(ts, t, i);
    }
  }

  lemma {:induction false} FirstHit(ts: seq<Trace>, t: Trace, i: nat)
    requires SameSize(|t|, ts) && i < |t|
    ensures t[i] != 0 && VirginAfter(|t|, ts)[i] == 0xff <==> NewCell(ts, t, i)
  {
    PristineMeansNeverHit(|t|, ts, i);
  }

  lemma {:induction false} FirstBits(ts: seq<Trace>, t: Trace, i: nat)
    requires SameSize(|t|, ts) && i < |t|
    ensures t[i] & VirginAfter(|t|, ts)[i] != 0 <==> NewBits(ts, t, i)
  {
    VirginIsComplement(|t|, ts, i);
  }

  /** A trace that is not novel leaves the virgin map alone. */
  lemma NotNovelIsNoChange(virgin: Trace, t: Trace)
    requires |virgin| == |t|
    ensures Novelty(virgin, t) == 0 <==> Clear(virgin, t) == virgin
  {
    forall i | 0 <= i < |t|
      ensures t[i] & virgin[i] == 0 <==> Clear(virgin, t)[i] == virgin[i]
      ensures t[i] != 0 && virgin[i] == 0xff ==> t[i] & virgin[i] != 0
    {
    }
  }

  // ----- word-at-a-time code -----

  /** The number of words in a map of `n` cells. */
  method WordCount(n: nat, w: nat) returns (i: nat)
    requires (w == 4 || w == 8) && n % 8 == 0
    ensures if w == 8 then 8 * i == n else 4 * i == n
  {
    i := if w == 8 then n / 8 else n / 4;
  }

  /** Stores consecutive cells into the map. */
  method StoreCells(a: array<Cell>, at: nat, cells: Trace)
    requires at + |cells| <= a.Length
    modifies a
    ensures a[..] == old(a[..at]) + cells + old(a[at + |cells|..])
  {
    for k := 0 to |cells|
      invariant forall j :: 0 <= j < a.Length ==> a[j] == if at <= j < at + k then cells[j - at] else old(a[j])
    {
      a[at + k] := cells[k];
    }
  }

  ghost predicate Hits(virgin: Trace, t: Trace, lo: nat, hi: nat)
    requires |virgin| == |t| && hi <= |t|
  {
    exists k :: lo <= k < hi && t[k] & virgin[k] != 0
  }

  ghost predicate HitsPristine(virgin: Trace, t: Trace, lo: nat, hi: nat)
    requires |virgin| == |t| && hi <= |t|
  {
    exists k :: lo <= k < hi && t[k] != 0 && virgin[k] == 0xff
  }

  /** The guard on four cells, as a statement about the maps. */
  lemma HitsInFour(virgin: Trace, t: Trace, at: nat)
    requires |virgin| == |t| && at + 4 <= |t|
    ensures Hits(virgin, t, at, at + 4)
         == Shared(virgin[at], virgin[at + 1], virgin[at + 2], virgin[at + 3], t[at], t[at + 1], t[at + 2], t[at + 3])
  {
    if k :| at <= k < at + 4 && t[k] & virgin[k] != 0 {
      HitIsShared(virgin, t, at, k);
    }
  }

  lemma HitIsShared(virgin: Trace, t: Trace, at: nat, k: nat)
    requires |virgin| == |t| && at + 4 <= |t| && at <= k < at + 4 && t[k] & virgin[k] != 0
    ensures Shared(virgin[at], virgin[at + 1], virgin[at + 2], virgin[at + 3], t[at], t[at + 1], t[at + 2], t[at + 3])
  {
    if k == at {
    } else if k == at + 1 {
    } else if k == at + 2 {
    }
  }

  lemma HitsInEight(virgin: Trace, t: Trace, at: nat)
    requires |virgin| == |t| && at + 8 <= |t|
    ensures Hits(virgin, t, at, at + 8) <==> Hits(virgin, t, at, at + 4) || Hits(virgin, t, at + 4, at + 8)
  {
  }

  method TestFour(virgin: Trace, t: Trace, at: nat) returns (hit: bool)
    requires |virgin| == |t| && at + 4 <= |t|
    ensures hit == Hits(virgin, t, at, at + 4)
  {
    hit := Test32(virgin[at], virgin[at + 1], virgin[at + 2], virgin[at + 3], t[at], t[at + 1], t[at + 2], t[at + 3]);
    HitsInFour(virgin, t, at);
  }

  method TestEight(virgin: Trace, t: Trace, at: nat) returns (hit: bool)
    requires |virgin| == |t| && at + 8 <= |t|
    ensures hit == Hits(virgin, t, at, at + 8)
  {
    ghost var lo, hi;
    hit, lo, hi := Test64(
      virgin[at], virgin[at + 1], virgin[at + 2], virgin[at + 3],
      virgin[at + 4], virgin[at + 5], virgin[at + 6], virgin[at + 7],
      t[at], t[at + 1], t[at + 2], t[at + 3], t[at + 4], t[at + 5], t[at + 6], t[at + 7]);
    HitsInFour(virgin, t, at);
    HitsInFour(virgin, t, at + 4);
    HitsInEight(virgin, t, at);
  }

  /** The guard `*current && (*current & *virgin)`. */
  method TestWord(virgin: Trace, t: Trace, at: nat, w: nat) returns (hit: bool)
    requires w == 4 || w == 8
    requires |virgin| == |t| && at + w <= |t|
    ensures hit == Hits(virgin, t, at, at + w)
  {
    if w == 8 {
      hit := TestEight(virgin, t, at);
    } else {
      hit := TestFour(virgin, t, at);
    }
  }

  lemma FourOf<T>(s: seq<T>, at: nat)
    requires at + 4 <= |s|
    ensures s[at..at + 4] == [s[at], s[at + 1], s[at + 2], s[at + 3]]
  {
  }

  lemma EightOf<T>(s: seq<T>, at: nat)
    requires at + 8 <= |s|
    ensures s[at..at + 8] == [s[at], s[at + 1], s[at + 2], s[at + 3], s[at + 4], s[at + 5], s[at + 6], s[at + 7]]
  {
  }

  /** The word `*virgin & ~*current`, cell by cell. */
  method ClearedWord(virgin: Trace, t: Trace, at: nat, w: nat) returns (cells: Trace)
    requires w == 4 || w == 8
    requires |virgin| == |t| && at + w <= |t|
    ensures cells == Clear(virgin, t)[at..at + w]
  {
    var c0, c1, c2, c3;
    if w == 8 {
      var c4, c5, c6, c7;
      c0, c1, c2, c3, c4, c5, c6, c7 := Clear64(
        virgin[at], virgin[at + 1], virgin[at + 2], virgin[at + 3],
        virgin[at + 4], virgin[at + 5], virgin[at + 6], virgin[at + 7],
        t[at], t[at + 1], t[at + 2], t[at + 3], t[at + 4], t[at + 5], t[at + 6], t[at + 7]);
      cells := [c0, c1, c2, c3, c4, c5, c6, c7];
      EightOf(Clear(virgin, t), at);
    } else {
      c0, c1, c2, c3 := Clear32(virgin[at], virgin[at + 1], virgin[at + 2], virgin[at + 3],
                                          t[at], t[at + 1], t[at + 2], t[at + 3]);
      cells := [c0, c1, c2, c3];
      FourOf(Clear(virgin, t), at);
    }
  }

  /** The first `n` cells are cleared, the others untouched. */
  ghost predicate ClearedUpTo(before: Trace, t: Trace, now: Trace, n: nat) {
    |before| == |t| == |now| && n <= |t| && now == Clear(before, t)[..n] + before[n..]
  }

  lemma ClearNextCells(before: Trace, t: Trace, now: Trace, next: Trace, n: nat, w: nat)
    requires ClearedUpTo(before, t, now, n) && n + w <= |t|
    requires if Hits(now, t, n, n + w) then next == now[..n] + Clear(now, t)[n..n + w] + now[n + w..] else next == now
    ensures ClearedUpTo(before, t, next, n + w)
    ensures Hits(now, t, n, n + w) <==> Hits(before, t, n, n + w)
    ensures HitsPristine(now, t, n, n + w) <==> HitsPristine(before, t, n, n + w)
  {
    CellsSoFar(before, t, now, n);
    SameCellsSameHits(now, before, t, n, n + w);
    var goal := Clear(before, t)[..n + w] + before[n + w..];
    assert |next| == |goal|;
    forall k | 0 <= k < |t|
      ensures next[k] == goal[k]
    {
      NextCellIs(before, t, now, next, n, w, k);
    }
  }

  lemma CellsSoFar(before: Trace, t: Trace, now: Trace, n: nat)
    requires ClearedUpTo(before, t, now, n)
    ensures forall k :: n <= k < |t| ==> now[k] == before[k]
    ensures forall k :: 0 <= k < n ==> now[k] == Clear(before, t)[k]
  {
  }

  lemma SameCellsSameHits(a: Trace, b: Trace, t: Trace, lo: nat, hi: nat)
    requires |a| == |b| == |t| && hi <= |t| && forall k :: lo <= k < hi ==> a[k] == b[k]
    ensures Hits(a, t, lo, hi) <==> Hits(b, t, lo, hi)
    ensures HitsPristine(a, t, lo, hi) <==> HitsPristine(b, t, lo, hi)
  {
  }

  lemma NextCellIs(before: Trace, t: Trace, now: Trace, next: Trace, n: nat, w: nat, k: nat)
    requires ClearedUpTo(before, t, now, n) && n + w <= |t| && k < |t|
    requires if Hits(now, t, n, n + w) then next == now[..n] + Clear(now, t)[n..n + w] + now[n + w..] else next == now
    ensures |next| == |t| && next[k] == if k < n + w then Clear(before, t)[k] else before[k]
  {
    CellsSoFar(before, t, now, n);
    if n <= k < n + w {
      NextCellInWord(before, t, now, next, n, w, k);
    }
  }

  lemma PatchedAt<T>(s: seq<T>, patch: seq<T>, n: nat, w: nat, k: nat)
    requires |s| == |patch| && n <= k < n + w <= |s|
    ensures (s[..n] + patch[n..n + w] + s[n + w..])[k] == patch[k]
  {
  }

  lemma NextCellInWord(before: Trace, t: Trace, now: Trace, next: Trace, n: nat, w: nat, k: nat)
    requires |before| == |t| == |now| && n <= k < n + w <= |t| && now[k] == before[k]
    requires if Hits(now, t, n, n + w) then next == now[..n] + Clear(now, t)[n..n + w] + now[n + w..] else next == now
    ensures |next| == |t| && next[k] == Clear(before, t)[k]
  {
    if Hits(now, t, n, n + w) {
      PatchedAt(now, Clear(now, t), n, w, k);
    } else {
      NoHit(now, t, n, n + w, k);
      NothingToClear(now[k], t[k]);
    }
  }

  lemma NoHit(virgin: Trace, t: Trace, lo: nat, hi: nat, k: nat)
    requires |virgin| == |t| && hi <= |t| && !Hits(virgin, t, lo, hi) && lo <= k < hi
    ensures t[k] & virgin[k] == 0
  {
  }

  lemma NothingToClear(v: Cell, c: Cell)
    requires c & v == 0
    ensures v & !c == v
  {
  }

  ghost function NoveltyUpTo(virgin: Trace, t: Trace, n: nat): int
    requires |virgin| == |t| && n <= |t|
  {
    if HitsPristine(virgin, t, 0, n) then 2 else if Hits(virgin, t, 0, n) then 1 else 0
  }

  /** What one step of the loop makes of the verdict so far. */
  ghost function NextVerdict(virgin: Trace, t: Trace, at: nat, w: nat, ret: int): int
    requires |virgin| == |t| && at + w <= |t|
  {
    if !Hits(virgin, t, at, at + w) || ret >= 2 then ret
    else if HitsPristine(virgin, t, at, at + w) then 2 else 1
  }

  lemma VerdictStep(virgin: Trace, t: Trace, at: nat, w: nat)
    requires |virgin| == |t| && at + w <= |t|
    ensures NextVerdict(virgin, t, at, w, NoveltyUpTo(virgin, t, at)) == NoveltyUpTo(virgin, t, at + w)
  {
    PristineIsHit(virgin, t);
    assert Hits(virgin, t, 0, at + w) <==> Hits(virgin, t, 0, at) || Hits(virgin, t, at, at + w);
    assert HitsPristine(virgin, t, 0, at + w)
           <==> HitsPristine(virgin, t, 0, at) || HitsPristine(virgin, t, at, at + w);
  }

  lemma PristineIsHit(virgin: Trace, t: Trace)
    requires |virgin| == |t|
    ensures forall k :: 0 <= k < |t| && t[k] != 0 && virgin[k] == 0xff ==> t[k] & virgin[k] != 0
  {
  }

  /** What the loop has established when it reaches cell `n`. The loop itself need not look into it; `Unfold` marks the
      lemmas that do. */
  ghost predicate WalkedTo(before: Trace, t: Trace, now: Trace, ret: int, n: nat) {
    forall m {:trigger Unfold(m)} :: m == n ==> ClearedUpTo(before, t, now, m) && ret == NoveltyUpTo(before, t, m)
  }

  ghost predicate Unfold(n: nat) {
    true
  }

  lemma WalkStart(before: Trace, t: Trace)
    requires |before| == |t|
    ensures WalkedTo(before, t, before, 0, 0)
  {
    assert Clear(before, t)[..0] + before[0..] == before;
    forall m: nat | m == 0
      ensures ClearedUpTo(before, t, before, m) && 0 == NoveltyUpTo(before, t, m)
    {
    }
  }

  lemma WalkStep(before: Trace, t: Trace, now: Trace, ret: int, n: nat, w: nat)
    requires |now| == |t| && WalkedTo(before, t, now, ret, n) && n + w <= |t|
    ensures WalkedTo(before, t, NextMap(now, t, n, w), NextVerdict(now, t, n, w, ret), n + w)
  {
    assert Unfold(n);
    ClearNextCells(before, t, now, NextMap(now, t, n, w), n, w);
    VerdictStep(before, t, n, w);
  }

  lemma WalkEnd(before: Trace, t: Trace, now: Trace, ret: int)
    requires |before| == |t| && WalkedTo(before, t, now, ret, |t|)
    ensures now == Clear(before, t) && ret == Novelty(before, t)
  {
    assert Unfold(|t|);
  }

  /** The map after one step of the loop. */
  ghost function NextMap(virgin: Trace, t: Trace, at: nat, w: nat): Trace
    requires |virgin| == |t| && at + w <= |t|
  {
    if Hits(virgin, t, at, at + w) then virgin[..at] + Clear(virgin, t)[at..at + w] + virgin[at + w..] else virgin
  }

  /** The body of the loop of `has_new_bits` for a word of `w` cells. */
  method WordStep(t: Trace, virgin: array<Cell>, at: nat, w: nat, ret: int) returns (r: int)
    requires w == 4 || w == 8
    requires |t| == virgin.Length && at + w <= |t|
    modifies virgin
    ensures virgin[..] == NextMap(old(virgin[..]), t, at, w)
    ensures r == NextVerdict(old(virgin[..]), t, at, w, ret)
  {
    r := ret;
    var now := virgin[..];
    var hit := TestWord(now, t, at, w);
    if hit {
      if ret < 2 {
        r := if exists k :: at <= k < at + w && t[k] != 0 && now[k] == 0xff then 2 else 1;
      }
      var cells := ClearedWord(now, t, at, w);
      StoreCells(virgin, at, cells);
    }
  }

  /** The loop moves on by one word. */
  method NextWord(ghost before: Trace, t: Trace, virgin: array<Cell>, at: nat, w: nat, ret: int) returns (r: int)
    requires w == 4 || w == 8
    requires |t| == virgin.Length && at + w <= |t| && WalkedTo(before, t, virgin[..], ret, at)
    modifies virgin
    ensures WalkedTo(before, t, virgin[..], r, at + w)
  {
    WalkStep(before, t, virgin[..], ret, at, w);
    r := WordStep(t, virgin, at, w, ret);
  }

  /** `has_new_bits`; the map is walked in words of `w` cells, 8 on 64-bit machines and 4 on others. */
  method HasNewBits(current: array<Cell>, virgin: array<Cell>, w: nat) returns (ret: int)
    requires w == 4 || w == 8
    requires current != virgin && current.Length == virgin.Length && current.Length % 8 == 0
    modifies virgin
    ensures virgin[..] == Clear(old(virgin[..]), current[..])
    ensures ret == Novelty(old(virgin[..]), current[..])
  {
    ghost var before := virgin[..];
    var t := current[..];
    ret := 0;
    var at: nat := 0;
    var i := WordCount(current.Length, w);
    WalkStart(before, t);
    while i > 0
      invariant if w == 8 then at + 8 * i == current.Length else at + 4 * i == current.Length
      invariant WalkedTo(before, t, virgin[..], ret, at)
    {
      ret := NextWord(before, t, virgin, at, w, ret);
      at, i := at + w, i - 1;
    }
    WalkEnd(before, t, virgin[..], ret);
  }

  // ----- simplified traces -----

  /** `simplify_lookup`: 1 for a cell that is not hit, 128 for one that is. */
  function SimplifyCell(c: Cell): Cell {
    if c == 0 then 1 else 128
  }

  function Simplify(t: Trace): (r: Trace)
    ensures |r| == |t|
  {
    seq(|t|, i requires 0 <= i < |t| => SimplifyCell(t[i]))
  }

  /** The test for a zero word. */
  method IsZeroWord(t: Trace, at: nat, w: nat) returns (zero: bool)
    requires w == 4 || w == 8
    requires at + w <= |t|
    ensures zero <==> forall k :: at <= k < at + w ==> t[k] == 0
  {
    if w == 8 {
      zero := IsZero64(t[at], t[at + 1], t[at + 2], t[at + 3], t[at + 4], t[at + 5], t[at + 6], t[at + 7]);
      ZerosInFour(t, at);
      ZerosInFour(t, at + 4);
    } else {
      zero := IsZero32(t[at], t[at + 1], t[at + 2], t[at + 3]);
      ZerosInFour(t, at);
    }
  }

  lemma ZerosInFour(t: Trace, at: nat)
    requires at + 4 <= |t|
    ensures (forall k :: at <= k < at + 4 ==> t[k] == 0)
       <==> t[at] == 0 && t[at + 1] == 0 && t[at + 2] == 0 && t[at + 3] == 0
  {
    forall k | at <= k < at + 4 && t[at] == 0 && t[at + 1] == 0 && t[at + 2] == 0 && t[at + 3] == 0
      ensures t[k] == 0
    {
      assert k == at || k == at + 1 || k == at + 2 || k == at + 3;
    }
  }

  /** The cells that one step of `simplify_trace` stores: the constant word 0x01..01 for a zero word. */
  method SimplifiedWord(t: Trace, at: nat, w: nat) returns (cells: Trace)
    requires w == 4 || w == 8
    requires at + w <= |t|
    ensures cells == Simplify(t)[at..at + w]
  {
    var zero := IsZeroWord(t, at, w);
    if zero {
      if w == 8 {
        cells := Ones64();
      } else {
        cells := Ones32();
      }
      ZerosBecomeOnes(t, at, w, cells);
    } else {
      cells := seq(w, k requires 0 <= k < w => SimplifyCell(t[at + k]));
      SimplifiedCells(t, at, w, cells);
    }
  }

  lemma ZerosBecomeOnes(t: Trace, at: nat, w: nat, cells: Trace)
    requires at + w <= |t| && |cells| == w && (forall k :: at <= k < at + w ==> t[k] == 0)
    requires forall k :: 0 <= k < w ==> cells[k] == 1
    ensures cells == Simplify(t)[at..at + w]
  {
    forall k | 0 <= k < w
      ensures cells[k] == SimplifyCell(t[at + k])
    {
      assert t[at + k] == 0;
    }
    SimplifiedCells(t, at, w, cells);
  }

  lemma SimplifiedCells(t: Trace, at: nat, w: nat, cells: Trace)
    requires at + w <= |t| && |cells| == w && forall k :: 0 <= k < w ==> cells[k] == SimplifyCell(t[at + k])
    ensures cells == Simplify(t)[at..at + w]
  {
  }

  ghost predicate SimplifiedUpTo(before: Trace, now: Trace, n: nat) {
    && |now| == |before| && n <= |before|
    && forall k :: 0 <= k < |now| ==> now[k] == if k < n then SimplifyCell(before[k]) else before[k]
  }

  lemma SimplifyNextCells(before: Trace, now: Trace, next: Trace, n: nat, w: nat)
    requires SimplifiedUpTo(before, now, n) && n + w <= |now|
    requires next == now[..n] + Simplify(now)[n..n + w] + now[n + w..]
    ensures SimplifiedUpTo(before, next, n + w)
  {
  }

  /** `simplify_trace`, in words of `w` cells. */
  method SimplifyTrace(mem: array<Cell>, w: nat)
    requires w == 4 || w == 8
    requires mem.Length % 8 == 0
    modifies mem
    ensures mem[..] == Simplify(old(mem[..]))
    ensures forall k :: 0 <= k < mem.Length ==> mem[k] == if old(mem[k]) == 0 then 1 else 128
  {
    ghost var before := mem[..];
    var at: nat := 0;
    var i := WordCount(mem.Length, w);
    while i > 0
      invariant if w == 8 then at + 8 * i == mem.Length else at + 4 * i == mem.Length
      invariant SimplifiedUpTo(before, mem[..], at)
    {
      var now := mem[..];
      var cells := SimplifiedWord(now, at, w);
      StoreCells(mem, at, cells);
      SimplifyNextCells(before, now, mem[..], at, w);
      at, i := at + w, i - 1;
    }
    assert mem[..] == Simplify(before);
  }

  ghost function SimplifyAll(ts: seq<Trace>): (r: seq<Trace>)
    ensures |r| == |ts|
  {
    seq(|ts|, k requires 0 <= k < |ts| => Simplify(ts[k]))
  }

  /** In cell `i`, trace `t` shows something no earlier trace showed: a first hit, or a first miss. */
  ghost predicate NewOutcome(ts: seq<Trace>, t: Trace, i: nat)
    requires i < |t| && SameSize(|t|, ts)
  {
    || (t[i] != 0 && forall k :: 0 <= k < |ts| ==> ts[k][i] == 0)
    || (t[i] == 0 && forall k :: 0 <= k < |ts| ==> ts[k][i] != 0)
  }

  ghost predicate EverMissed(ts: seq<Trace>, n: nat, i: nat)
    requires SameSize(n, ts) && i < n
  {
    exists k :: 0 <= k < |ts| && ts[k][i] == 0
  }

  ghost predicate EverHit(ts: seq<Trace>, n: nat, i: nat)
    requires SameSize(n, ts) && i < n
  {
    exists k :: 0 <= k < |ts| && ts[k][i] != 0
  }

  lemma OneMoreOutcome(ts: seq<Trace>, last: Trace, n: nat, i: nat)
    requires SameSize(n, ts) && |last| == n && i < n
    ensures SameSize(n, ts + [last])
    ensures EverMissed(ts + [last], n, i) <==> EverMissed(ts, n, i) || last[i] == 0
    ensures EverHit(ts + [last], n, i) <==> EverHit(ts, n, i) || last[i] != 0
  {
    var all := ts + [last];
    assert all[|ts|] == last;
    assert forall k :: 0 <= k < |ts| ==> all[k] == ts[k];
  }

  lemma {:induction false} OneMoreSimplified(ts: seq<Trace>, last: Trace, n: nat, i: nat)
    requires SameSize(n, ts) && |last| == n && i < n
    ensures SameSize(n, SimplifyAll(ts)) && SameSize(n, SimplifyAll(ts + [last]))
    ensures UnionAt(n, SimplifyAll(ts + [last]), i) == UnionAt(n, SimplifyAll(ts), i) | SimplifyCell(last[i])
  {
    assert SimplifyAll(ts + [last]) == SimplifyAll(ts) + [Simplify(last)];
  }

  lemma {:induction false} SimplifiedUnion(ts: seq<Trace>, n: nat, i: nat)
    requires SameSize(n, ts) && i < n
    ensures SameSize(n, SimplifyAll(ts))
    ensures UnionAt(n, SimplifyAll(ts), i) & 1 != 0 <==> EverMissed(ts, n, i)
    ensures UnionAt(n, SimplifyAll(ts), i) & 128 != 0 <==> EverHit(ts, n, i)
  {
    if ts != [] {
      var prefix, last := ts[..|ts| - 1], ts[|ts| - 1];
      assert ts == prefix + [last];
      SimplifiedUnion(prefix, n, i);
      OneMoreOutcome(prefix, last, n, i);
      OneMoreSimplified(prefix, last, n, i);
      SimplifiedCell(UnionAt(n, SimplifyAll(prefix), i), last[i]);
    }
  }

  lemma SimplifiedCell(u: Cell, c: Cell)
    ensures (u | SimplifyCell(c)) & 1 != 0 <==> u & 1 != 0 || c == 0
    ensures (u | SimplifyCell(c)) & 128 != 0 <==> u & 128 != 0 || c != 0
    ensures SimplifyCell(c) & !u != 0 <==> if c == 0 then u & 1 == 0 else u & 128 == 0
  {
  }

  /** A simplified trace is new to the crash (or hang) map exactly when it hits a tuple that no earlier checked trace
      hit, or misses one that all of them hit. */
  lemma {:induction false} UniqueMeansNewOutcome(ts: seq<Trace>, t: Trace)
    requires SameSize(|t|, ts)
    ensures SameSize(|t|, SimplifyAll(ts))
    ensures Novelty(VirginAfter(|t|, SimplifyAll(ts)), Simplify(t)) != 0
            <==> exists i :: 0 <= i < |t| && NewOutcome(ts, t, i)
  {
    NoveltyAgainstHistory(SimplifyAll(ts), Simplify(t));
    forall i | 0 <= i < |t|
      ensures NewBits(SimplifyAll(ts), Simplify(t), i) <==> NewOutcome(ts, t, i)
    {
      SimplifiedUnion(ts, |t|, i);
      SimplifiedCell(UnionAt(|t|, SimplifyAll(ts), i), t[i]);
    }
  }
}
