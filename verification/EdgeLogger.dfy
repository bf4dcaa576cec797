/** The machine words of the instrumentation payload. */
module Words {

  function Edge32(loc: bv32, prev: bv32): bv32 {
    loc ^ prev
  }

  function Half32(loc: bv32): bv32 {
    loc >> 1
  }

  function Edge64(loc: bv64, prev: bv64): bv64 {
    loc ^ prev
  }

  function Half64(loc: bv64): bv64 {
    loc >> 1
  }

  /** The register part of the 32-bit payload: a scratch register takes the edge. */
  method Registers32(loc: bv32, prevLoc: bv32) returns (edi: bv32, prevLoc': bv32)
    ensures edi == loc ^ prevLoc && prevLoc' == loc >> 1
  {
    var ecx := loc;
    edi := prevLoc;
    edi := edi ^ ecx;
    ecx := ecx >> 1;
    prevLoc' := ecx;
  }

  /** The register part of the 64-bit payload: the double-xor form, which needs no scratch register. */
  method Registers64(loc: bv64, prevLoc: bv64) returns (rcx: bv64, prevLoc': bv64)
    ensures rcx == loc ^ prevLoc && prevLoc' == loc >> 1
  {
    rcx := loc;
    prevLoc' := prevLoc;
    rcx := rcx ^ prevLoc';
    prevLoc' := prevLoc' ^ rcx;
    prevLoc' := prevLoc' >> 1;
  }

  method Index32(loc: bv32, prevLoc: bv32) returns (index: bv32, next: bv32)
    ensures index == Edge32(loc, prevLoc) && next == Half32(loc)
  {
    index, next := Registers32(loc, prevLoc);
  }

  method Index64(loc: bv64, prevLoc: bv64) returns (index: bv64, next: bv64)
    ensures index == Edge64(loc, prevLoc) && next == Half64(loc)
  {
    index, next := Registers64(loc, prevLoc);
  }

  function Wide(x: bv32): bv64 {
    x as bv64
  }

  lemma WideXor(a: bv32, b: bv32)
    ensures Edge64(Wide(a), Wide(b)) == Wide(Edge32(a, b))
  {
  }

  lemma WideHalf(a: bv32)
    ensures Half64(Wide(a)) == Wide(Half32(a))
  {
    ShiftWidened(a);
    calc {
      Half64(Wide(a));
      Half64(a as bv64);
      (a as bv64) >> 1;
      (a >> 1) as bv64;
      Wide(a >> 1);
      Wide(Half32(a));
    }
  }

  lemma ShiftWidened(a: bv32)
    ensures (a as bv64) >> 1 == (a >> 1) as bv64
  {
  }

  /** A map size is a power of two; `mask` is that size minus one. */
  predicate IsMask(mask: bv64) {
    mask & (mask + 1) == 0
  }

  lemma EdgeBelow(a: bv64, b: bv64, mask: bv64)
    requires IsMask(mask) && Below(a, mask) && Below(b, mask)
    ensures Below(Edge64(a, b), mask) && Below(Half64(a), mask)
  {
  }

  predicate Below(a: bv64, mask: bv64) {
    a <= mask
  }

  lemma BelowZero(mask: bv64)
    ensures Below(0, mask)
  {
  }
}

/** The instrumentation payload: `__afl_store` in its 32-bit and 64-bit forms. */
module EdgeLogger {
  import opened Bytes
  import opened Words

  // ----- what the log means, for words of any width -----

  /** How an edge and the next previous-location word are formed from machine words. */
  datatype Machine<!T> = Machine(edge: (T, T) -> T, half: T -> T)

  /** The cells of the edges that a sequence of locations walks. */
  function Walk<T>(m: Machine<T>, locs: seq<T>, prev: T): (cells: seq<T>)
    ensures |cells| == |locs|
  {
    if locs == [] then [] else [m.edge(locs[0], prev)] + Walk(m, locs[1..], m.half(locs[0]))
  }

  /** The previous-location word after the walk. */
  function LastLoc<T>(m: Machine<T>, locs: seq<T>, prev: T): T {
    if locs == [] then prev else m.half(locs[|locs| - 1])
  }

  /** How often `c` occurs. */
  function Count<T(==)>(cells: seq<T>, c: T): nat {
    if cells == [] then 0 else Count(cells[..|cells| - 1], c) + if cells[|cells| - 1] == c then 1 else 0
  }

  /** The shared map, by offset from `__afl_area_ptr`; cells start at zero. */
  type Area<T> = map<T, Byte>

  function CellAt<T>(area: Area<T>, c: T): Byte {
    if c in area then area[c] else 0
  }

  /** `incb (area, c)`. */
  function Bump<T>(area: Area<T>, c: T): Area<T> {
    area[c := (CellAt(area, c) + 1) % 256]
  }

  /** The log of a walk: each cell is the number of times its edge was walked, modulo 256, and no other cell is
      touched. */
  ghost predicate Logs<T(!new)>(area: Area<T>, cells: seq<T>) {
    && (forall c :: CellAt(area, c) == Count(cells, c) % 256)
    && (forall c :: c in area ==> c in cells)
  }

  lemma {:induction false} WalkGrows<T>(m: Machine<T>, locs: seq<T>, loc: T, prev: T)
    ensures Walk(m, locs + [loc], prev) == Walk(m, locs, prev) + [m.edge(loc, LastLoc(m, locs, prev))]
    ensures LastLoc(m, locs + [loc], prev) == m.half(loc)
  {
    if locs == [] {
      assert locs + [loc] == [loc];
      assert [loc][1..] == [];
    } else {
      assert (locs + [loc])[1..] == locs[1..] + [loc];
      WalkGrows(m, locs[1..], loc, m.half(locs[0]));
      assert LastLoc(m, locs, prev) == LastLoc(m, locs[1..], m.half(locs[0]));
    }
  }

  lemma OneMoreModulo(n: nat)
    ensures (n % 256 + 1) % 256 == (n + 1) % 256
  {
  }

  /** One increment counts one more occurrence. */
  lemma BumpLogs<T(!new)>(area: Area<T>, cells: seq<T>, c: T)
    requires Logs(area, cells)
    ensures Logs(Bump(area, c), cells + [c])
  {
    assert (cells + [c])[..|cells|] == cells;
    forall d
      ensures CellAt(Bump(area, c), d) == Count(cells + [c], d) % 256
    {
      assert CellAt(area, d) == Count(cells, d) % 256;
      OneMoreModulo(Count(cells, d));
      assert Count(cells + [c], d) == Count(cells, d) + if c == d then 1 else 0;
    }
  }

  function Map<S, T>(h: S -> T, xs: seq<S>): (r: seq<T>)
    ensures |r| == |xs| && forall k :: 0 <= k < |xs| ==> r[k] == h(xs[k])
  {
    seq(|xs|, k requires 0 <= k < |xs| => h(xs[k]))
  }

  /** `h` takes the words of one machine to those of another, respecting what both do. */
  ghost predicate Embeds<S(!new), T(!new)>(h: S -> T, m: Machine<S>, n: Machine<T>) {
    && (forall a, b :: n.edge(h(a), h(b)) == h(m.edge(a, b)))
    && (forall a :: n.half(h(a)) == h(m.half(a)))
    && (forall a, b :: h(a) == h(b) ==> a == b)
  }

  lemma {:induction false} WalkEmbeds<S(!new), T(!new)>(h: S -> T, m: Machine<S>, n: Machine<T>, locs: seq<S>, prev: S)
    requires Embeds(h, m, n)
    ensures Walk(n, Map(h, locs), h(prev)) == Map(h, Walk(m, locs, prev))
    ensures LastLoc(n, Map(h, locs), h(prev)) == h(LastLoc(m, locs, prev))
  {
    if locs != [] {
      assert Map(h, locs)[1..] == Map(h, locs[1..]);
      WalkEmbeds(h, m, n, locs[1..], m.half(locs[0]));
    }
  }

  lemma {:induction false} CountEmbeds<S(!new), T>(h: S -> T, cells: seq<S>, c: S)
    requires forall a, b :: h(a) == h(b) ==> a == b
    ensures Count(Map(h, cells), h(c)) == Count(cells, c)
  {
    if cells != [] {
      assert Map(h, cells)[..|cells| - 1] == Map(h, cells[..|cells| - 1]);
      CountEmbeds(h, cells[..|cells| - 1], c);
    }
  }

  // ----- the two payloads -----

  const MACHINE32: Machine<bv32> := Machine(Edge32, Half32)
  const MACHINE64: Machine<bv64> := Machine(Edge64, Half64)

  /** `__afl_store` for 32-bit targets. */
  class Payload32 {
    var prevLoc: bv32
    var area: Area<bv32>

    constructor ()
      ensures prevLoc == 0 && area == map[]
    {
      prevLoc, area := 0, map[];
    }

    method Store(loc: bv32)
      modifies this
      ensures prevLoc == Half32(loc)
      ensures area == Bump(old(area), Edge32(loc, old(prevLoc)))
    {
      var edi, next := Index32(loc, prevLoc);
      area, prevLoc := Bump(area, edi), next;
    }

    /** The target walks through a sequence of instrumented locations. */
    method Run(locs: seq<bv32>, ghost seen: seq<bv32>)
      requires Logs(area, Walk(MACHINE32, seen, 0)) && prevLoc == LastLoc(MACHINE32, seen, 0)
      modifies this
      ensures Logs(area, Walk(MACHINE32, seen + locs, 0)) && prevLoc == LastLoc(MACHINE32, seen + locs, 0)
    {
      assert seen + locs[..0] == seen;
      for k := 0 to |locs|
        invariant Logs(area, Walk(MACHINE32, seen + locs[..k], 0)) && prevLoc == LastLoc(MACHINE32, seen + locs[..k], 0)
      {
        assert seen + locs[..k + 1] == seen + locs[..k] + [locs[k]];
        WalkGrows(MACHINE32, seen + locs[..k], locs[k], 0);
        BumpLogs(area, Walk(MACHINE32, seen + locs[..k], 0), Edge32(locs[k], prevLoc));
        Store(locs[k]);
      }
      assert locs[..|locs|] == locs;
    }
  }

  /** `__afl_store` for 64-bit targets. */
  class Payload64 {
    var prevLoc: bv64
    var area: Area<bv64>

    constructor ()
      ensures prevLoc == 0 && area == map[]
    {
      prevLoc, area := 0, map[];
    }

    method Store(loc: bv64)
      modifies this
      ensures prevLoc == Half64(loc)
      ensures area == Bump(old(area), Edge64(loc, old(prevLoc)))
    {
      var rcx, next := Index64(loc, prevLoc);
      area, prevLoc := Bump(area, rcx), next;
    }

    method Run(locs: seq<bv64>, ghost seen: seq<bv64>)
      requires Logs(area, Walk(MACHINE64, seen, 0)) && prevLoc == LastLoc(MACHINE64, seen, 0)
      modifies this
      ensures Logs(area, Walk(MACHINE64, seen + locs, 0)) && prevLoc == LastLoc(MACHINE64, seen + locs, 0)
    {
      assert seen + locs[..0] == seen;
      for k := 0 to |locs|
        invariant Logs(area, Walk(MACHINE64, seen + locs[..k], 0)) && prevLoc == LastLoc(MACHINE64, seen + locs[..k], 0)
      {
        assert seen + locs[..k + 1] == seen + locs[..k] + [locs[k]];
        WalkGrows(MACHINE64, seen + locs[..k], locs[k], 0);
        BumpLogs(area, Walk(MACHINE64, seen + locs[..k], 0), Edge64(locs[k], prevLoc));
        Store(locs[k]);
      }
      assert locs[..|locs|] == locs;
    }
  }

  lemma WideEmbeds()
    ensures Embeds(Wide, MACHINE32, MACHINE64)
  {
    forall a: bv32, b: bv32
      ensures MACHINE64.edge(Wide(a), Wide(b)) == Wide(MACHINE32.edge(a, b))
    {
      WideXor(a, b);
    }
    forall a: bv32
      ensures MACHINE64.half(Wide(a)) == Wide(MACHINE32.half(a))
    {
      WideHalf(a);
    }
  }

  /** The two payloads, run over the same locations, leave the same previous-location word and, cell for cell, the
      same map; the 64-bit one touches no cell that the 32-bit one cannot address. */
  lemma {:induction false} PayloadsAgree(locs: seq<bv32>, area32: Area<bv32>, area64: Area<bv64>)
    requires Logs(area32, Walk(MACHINE32, locs, 0)) && Logs(area64, Walk(MACHINE64, Map(Wide, locs), 0))
    ensures LastLoc(MACHINE64, Map(Wide, locs), 0) == Wide(LastLoc(MACHINE32, locs, 0))
    ensures forall c: bv32 :: CellAt(area64, Wide(c)) == CellAt(area32, c)
    ensures forall d :: d in area64 ==> exists c: bv32 :: d == Wide(c)
  {
    WideEmbeds();
    assert Wide(0) == 0;
    WalkEmbeds(Wide, MACHINE32, MACHINE64, locs, 0);
    var cells := Walk(MACHINE32, locs, 0);
    forall c: bv32
      ensures CellAt(area64, Wide(c)) == CellAt(area32, c)
    {
      CountEmbeds(Wide, cells, c);
    }
    forall d | d in area64
      ensures exists c: bv32 :: d == Wide(c)
    {
      var k :| 0 <= k < |cells| && Map(Wide, cells)[k] == d;
      assert d == Wide(cells[k]);
    }
  }

  lemma {:induction false} WalkStaysBelow(locs: seq<bv64>, prev: bv64, mask: bv64)
    requires IsMask(mask) && Below(prev, mask) && forall k :: 0 <= k < |locs| ==> Below(locs[k], mask)
    ensures forall k :: 0 <= k < |locs| ==> Below(Walk(MACHINE64, locs, prev)[k], mask)
  {
    if locs != [] {
      EdgeBelow(locs[0], prev, mask);
      WalkStaysBelow(locs[1..], Half64(locs[0]), mask);
    }
  }

  /** With location ids below the map size, every cell that is touched lies in the map. */
  lemma {:induction false} OnlyMapIsTouched(area: Area<bv64>, locs: seq<bv64>, mask: bv64)
    requires IsMask(mask) && Logs(area, Walk(MACHINE64, locs, 0))
    requires forall k :: 0 <= k < |locs| ==> Below(locs[k], mask)
    ensures forall c :: c in area ==> Below(c, mask)
  {
    BelowZero(mask);
    WalkStaysBelow(locs, 0, mask);
  }
}
