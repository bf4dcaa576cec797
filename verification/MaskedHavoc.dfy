/** FairFuzz: positions that a byte mask allows to modify, and the masked havoc stage. */
module MaskedHavoc {
  import opened Bytes
  import opened Mutators

  const OVERWRITE: Cell := 1
  const DELETE: Cell := 2
  const INSERT: Cell := 4

  predicate Allows(c: Cell, kind: Cell) {
    c & kind != 0
  }

  /** Neither overwriting nor deleting is allowed here. */
  predicate Protected(c: Cell) {
    c & 3 == 0
  }

  lemma AllowedIsUnprotected(c: Cell)
    ensures Allows(c, OVERWRITE) || Allows(c, DELETE) ==> !Protected(c)
  {
  }

  // ----- candidate positions -----

  /** Every cell of the window of `w` cells at `j` allows `kind`. */
  ghost predicate Window(mask: seq<Cell>, kind: Cell, j: int, w: nat) {
    0 <= j && j + w <= |mask| && forall k :: j <= k < j + w ==> Allows(mask[k], kind)
  }

  /** The starts of allowed windows that end at or before `n`, in order. */
  ghost function Starts(mask: seq<Cell>, kind: Cell, n: nat, w: nat): seq<int>
    requires n <= |mask| && w > 0
  {
    if n < w then []
    else Starts(mask, kind, n - 1, w) + if Window(mask, kind, n - w, w) then [n - w] else []
  }

  lemma {:induction false} StartsAreExact(mask: seq<Cell>, kind: Cell, n: nat, w: nat)
    requires n <= |mask| && w > 0
    ensures forall j :: j in Starts(mask, kind, n, w) <==> 0 <= j && j + w <= n && Window(mask, kind, j, w)
  {
    if n >= w {
      StartsAreExact(mask, kind, n - 1, w);
    }
  }

  lemma {:induction false} StartsAreFew(mask: seq<Cell>, kind: Cell, n: nat, w: nat)
    requires n <= |mask| && w > 0
    ensures |Starts(mask, kind, n, w)| <= n
  {
    if n >= w {
      StartsAreFew(mask, kind, n - 1, w);
    }
  }

  function Range(lo: int, hi: int): (r: seq<int>)
    ensures |r| == if lo < hi then hi - lo else 0
    decreases hi - lo
  {
    if lo >= hi then [] else Range(lo, hi - 1) + [hi - 1]
  }

  /** A run of allowed cells from `start` on, which begins the mask or follows a cell that is not allowed. */
  ghost predicate RunFrom(mask: seq<Cell>, kind: Cell, start: int, i: nat) {
    && 0 <= start <= i <= |mask| && (start > 0 ==> !Allows(mask[start - 1], kind))
    && forall k :: start <= k < i ==> Allows(mask[k], kind)
  }

  /** A run adds exactly the windows that lie inside it. */
  lemma {:induction false} RunAddsWindows(mask: seq<Cell>, kind: Cell, start: int, i: nat, w: nat)
    requires RunFrom(mask, kind, start, i) && w > 0
    ensures Starts(mask, kind, i, w) == Starts(mask, kind, start, w) + Range(start, i - w + 1)
    decreases i
  {
    if i == start {
      assert Range(start, i - w + 1) == [];
    } else {
      RunAddsWindows(mask, kind, start, i - 1, w);
      if i - w >= start {
        assert Window(mask, kind, i - w, w);
      } else {
        assert Range(start, i - w + 1) == [];
        assert i >= w ==> !Window(mask, kind, i - w, w);
      }
    }
  }

  /** Appends `lo`, `lo + 1`, ... up to `hi - 1` to the position map. */
  method AppendRange(positionMap: array<nat>, count: nat, lo: nat, hi: int) returns (count': nat)
    requires count + |Range(lo, hi)| <= positionMap.Length
    modifies positionMap
    ensures count' == count + |Range(lo, hi)| && positionMap[..count'] == old(positionMap[..count]) + Range(lo, hi)
  {
    count' := count;
    var j: int := lo;
    while j < hi
      invariant lo <= j <= Max(lo, hi)
      invariant count' == count + |Range(lo, j)| && positionMap[..count'] == old(positionMap[..count]) + Range(lo, j)
      decreases hi - j
    {
      assert Range(lo, j + 1) == Range(lo, j) + [j];
      positionMap[count'] := j;
      count' := count' + 1;
      j := j + 1;
    }
  }

  /** What the scan for runs has collected when it reaches cell `i`: the windows up to the current run. */
  ghost predicate Collected(mask: seq<Cell>, kind: Cell, w: nat, i: nat, inZeroBlock: bool, start: int,
                            found: seq<int>) {
    && w > 0 && i <= |mask|
    && if inZeroBlock then (i > 0 ==> !Allows(mask[i - 1], kind)) && found == Starts(mask, kind, i, w)
       else start < i && RunFrom(mask, kind, start, i) && found == Starts(mask, kind, start, w)
  }

  lemma AllowedCell(mask: seq<Cell>, kind: Cell, w: nat, i: nat, inZeroBlock: bool, start: int, found: seq<int>)
    requires Collected(mask, kind, w, i, inZeroBlock, start, found) && i < |mask| && Allows(mask[i], kind)
    ensures Collected(mask, kind, w, i + 1, false, if inZeroBlock then i else start, found)
  {
  }

  lemma {:induction false} ForbiddenCell(mask: seq<Cell>, kind: Cell, w: nat, i: nat, inZeroBlock: bool, start: int,
                                         found: seq<int>)
    requires Collected(mask, kind, w, i, inZeroBlock, start, found) && i < |mask| && !Allows(mask[i], kind)
    ensures Collected(mask, kind, w, i + 1, true, start, if inZeroBlock then found else found + Range(start, i - w + 1))
  {
    if !inZeroBlock {
      RunAddsWindows(mask, kind, start, i, w);
    }
    assert i + 1 >= w ==> !Window(mask, kind, i + 1 - w, w);
  }

  ghost predicate CollectedIn(mask: seq<Cell>, kind: Cell, w: nat, i: nat, inZeroBlock: bool, start: int,
                              positionMap: array<nat>, count: nat)
    reads positionMap
  {
    count <= positionMap.Length && Collected(mask, kind, w, i, inZeroBlock, start, positionMap[..count])
  }

  /** A run ends at cell `i`. */
  method CloseRun(mask: seq<Cell>, kind: Cell, w: nat, i: nat, start: int, positionMap: array<nat>, count: nat)
    returns (count': nat)
    requires CollectedIn(mask, kind, w, i, false, start, positionMap, count) && i < |mask| && !Allows(mask[i], kind)
             && i < positionMap.Length
    modifies positionMap
    ensures CollectedIn(mask, kind, w, i + 1, true, start, positionMap, count')
  {
    ForbiddenCell(mask, kind, w, i, false, start, positionMap[..count]);
    StartsAreFew(mask, kind, i + 1, w);
    count' := AppendRange(positionMap, count, start, i - w + 1);
  }

  /** The mask ends inside a run. */
  method LastRun(mask: seq<Cell>, kind: Cell, w: nat, i: nat, start: int, positionMap: array<nat>, count: nat)
    returns (count': nat)
    requires CollectedIn(mask, kind, w, i, false, start, positionMap, count) && i <= |mask| && i <= positionMap.Length
    modifies positionMap
    ensures count' <= positionMap.Length && positionMap[..count'] == Starts(mask, kind, i, w)
  {
    RunAddsWindows(mask, kind, start, i, w);
    StartsAreFew(mask, kind, i, w);
    count' := AppendRange(positionMap, count, start, i - w + 1);
  }

  /** The candidate list of `get_random_modifiable_posn`: exactly the starts of the windows of `w` bytes that the mask
      allows, collected run by run. */
  method CollectPositions(mask: seq<Cell>, kind: Cell, mapLen: nat, w: nat, positionMap: array<nat>)
    returns (count: nat)
    requires mapLen <= |mask| && 0 < w <= mapLen && positionMap.Length >= mapLen
    modifies positionMap
    ensures count <= positionMap.Length && positionMap[..count] == Starts(mask, kind, mapLen, w)
  {
    var prevStart, inZeroBlock := -1, true;
    count := 0;
    for i := 0 to mapLen
      invariant CollectedIn(mask, kind, w, i, inZeroBlock, prevStart, positionMap, count)
    {
      if Allows(mask[i], kind) {
        AllowedCell(mask, kind, w, i, inZeroBlock, prevStart, positionMap[..count]);
        if inZeroBlock {
          prevStart, inZeroBlock := i, false;
        }
      } else {
        if !inZeroBlock && prevStart != -1 {
          count := CloseRun(mask, kind, w, i, prevStart, positionMap, count);
        } else {
          ForbiddenCell(mask, kind, w, i, inZeroBlock, prevStart, positionMap[..count]);
        }
        inZeroBlock := true;
      }
    }
    if !inZeroBlock {
      count := LastRun(mask, kind, w, mapLen, prevStart, positionMap, count);
    }
  }

  /** `get_random_modifiable_posn` for whole bytes: some allowed window, or none exactly if there is none. */
  method GetRandomModifiablePosn(w: nat, kind: Cell, mapLen: nat, mask: seq<Cell>, positionMap: array<nat>)
    returns (posn: Option<nat>)
    requires mapLen <= |mask| && 0 < w <= mapLen && positionMap.Length >= mapLen
    modifies positionMap
    ensures posn.Some? ==> posn.value + w <= mapLen && Window(mask, kind, posn.value, w)
    ensures posn.None? <==> forall j :: 0 <= j && j + w <= mapLen ==> !Window(mask, kind, j, w)
  {
    var count := CollectPositions(mask, kind, mapLen, w, positionMap);
    StartsAreExact(mask, kind, mapLen, w);
    if count == 0 {
      return None;
    }
    var k := UR(count);
    assert positionMap[..count][k] in Starts(mask, kind, mapLen, w);
    return Some(positionMap[k]);
  }

  /** `get_random_insert_posn`: some position that allows insertion, or the end if there is none. */
  method GetRandomInsertPosn(mapLen: nat, mask: seq<Cell>, positionMap: array<nat>) returns (posn: nat)
    requires mapLen < |mask| && positionMap.Length >= mapLen + 1
    modifies positionMap
    ensures posn <= mapLen
    ensures Allows(mask[posn], INSERT) || (posn == mapLen && forall j :: 0 <= j <= mapLen ==> !Allows(mask[j], INSERT))
  {
    var count := 0;
    for i := 0 to mapLen + 1
      invariant count <= i
      invariant forall k :: 0 <= k < count ==> positionMap[k] < i && Allows(mask[positionMap[k]], INSERT)
      invariant count == 0 ==> forall j :: 0 <= j < i ==> !Allows(mask[j], INSERT)
    {
      if Allows(mask[i], INSERT) {
        positionMap[count] := i;
        count := count + 1;
      }
    }
    posn := mapLen;
    if count > 0 {
      var k := UR(count);
      posn := positionMap[k];
    }
  }

  // ----- what survives -----

  /** The bytes of a buffer that are flagged, in order. */
  function Survivors(buf: Input, flags: seq<bool>): Input
    requires |flags| == |buf|
  {
    if buf == [] then [] else (if flags[0] then [buf[0]] else []) + Survivors(buf[1..], flags[1..])
  }

  lemma {:induction false} SurvivorsConcat(a: Input, b: Input, fa: seq<bool>, fb: seq<bool>)
    requires |a| == |fa| && |b| == |fb|
    ensures Survivors(a + b, fa + fb) == Survivors(a, fa) + Survivors(b, fb)
  {
    if a == [] {
      assert a + b == b && fa + fb == fb;
    } else {
      assert (a + b)[1..] == a[1..] + b && (fa + fb)[1..] == fa[1..] + fb;
      SurvivorsConcat(a[1..], b, fa[1..], fb);
      var head := if fa[0] then [a[0]] else [];
      assert Survivors(a + b, fa + fb) == head + Survivors(a[1..] + b, fa[1..] + fb);
      assert head + (Survivors(a[1..], fa[1..]) + Survivors(b, fb))
             == head + Survivors(a[1..], fa[1..]) + Survivors(b, fb);
    }
  }

  lemma {:induction false} NoSurvivors(buf: Input, flags: seq<bool>)
    requires |flags| == |buf| && forall k :: 0 <= k < |flags| ==> !flags[k]
    ensures Survivors(buf, flags) == []
  {
    if buf != [] {
      NoSurvivors(buf[1..], flags[1..]);
    }
  }

  lemma {:induction false} ThreeParts(a: Input, b: Input, c: Input, fa: seq<bool>, fb: seq<bool>, fc: seq<bool>)
    requires |a| == |fa| && |b| == |fb| && |c| == |fc|
    ensures Survivors(a + b + c, fa + fb + fc) == Survivors(a, fa) + Survivors(b, fb) + Survivors(c, fc)
  {
    SurvivorsConcat(a + b, c, fa + fb, fc);
    SurvivorsConcat(a, b, fa, fb);
  }

  /** A buffer cut at `at` and at `at + n`. */
  lemma {:induction false} CutInThree(buf: Input, flags: seq<bool>, at: nat, n: nat)
    requires |flags| == |buf| && at + n <= |buf|
    ensures Survivors(buf, flags) ==
            Survivors(buf[..at], flags[..at]) + Survivors(buf[at..at + n], flags[at..at + n])
              + Survivors(buf[at + n..], flags[at + n..])
  {
    assert buf == buf[..at] + buf[at..at + n] + buf[at + n..];
    assert flags == flags[..at] + flags[at..at + n] + flags[at + n..];
    ThreeParts(buf[..at], buf[at..at + n], buf[at + n..], flags[..at], flags[at..at + n], flags[at + n..]);
  }

  lemma {:induction false} OverwriteSurvivors(buf: Input, flags: seq<bool>, at: nat, block: Input)
    requires |flags| == |buf| && at + |block| <= |buf| && forall k :: at <= k < at + |block| ==> !flags[k]
    ensures Survivors(Overwrite(buf, at, block), flags) == Survivors(buf, flags)
  {
    var n := |block|;
    var r := Overwrite(buf, at, block);
    CutInThree(buf, flags, at, n);
    CutInThree(r, flags, at, n);
    assert r[..at] == buf[..at] && r[at + n..] == buf[at + n..];
    NoSurvivors(buf[at..at + n], flags[at..at + n]);
    NoSurvivors(r[at..at + n], flags[at..at + n]);
  }

  lemma {:induction false} DeleteSurvivors(buf: Input, flags: seq<bool>, at: nat, n: nat)
    requires |flags| == |buf| && at + n <= |buf| && forall k :: at <= k < at + n ==> !flags[k]
    ensures Survivors(Without(buf, at, n), Without(flags, at, n)) == Survivors(buf, flags)
  {
    CutInThree(buf, flags, at, n);
    NoSurvivors(buf[at..at + n], flags[at..at + n]);
    EmptyMiddle(Survivors(buf[..at], flags[..at]), Survivors(buf[at + n..], flags[at + n..]));
    SurvivorsConcat(buf[..at], buf[at + n..], flags[..at], flags[at + n..]);
  }

  lemma EmptyMiddle(a: Input, c: Input)
    ensures a + [] + c == a + c
  {
  }

  lemma {:induction false} InsertSurvivors(buf: Input, flags: seq<bool>, at: nat, block: Input, added: seq<bool>)
    requires |flags| == |buf| && at <= |buf| && |added| == |block| && forall k :: 0 <= k < |added| ==> !added[k]
    ensures Survivors(Insert(buf, at, block), Insert(flags, at, added)) == Survivors(buf, flags)
  {
    InsertBetween(buf[..at], block, buf[at..], flags[..at], added, flags[at..]);
    assert buf == buf[..at] + buf[at..] && flags == flags[..at] + flags[at..];
  }

  lemma {:induction false} InsertBetween(a: Input, block: Input, c: Input, fa: seq<bool>, added: seq<bool>,
                                         fc: seq<bool>)
    requires |a| == |fa| && |c| == |fc| && |added| == |block| && forall k :: 0 <= k < |added| ==> !added[k]
    ensures Survivors(a + block + c, fa + added + fc) == Survivors(a + c, fa + fc)
  {
    ThreeParts(a, block, c, fa, added, fc);
    NoSurvivors(block, added);
    EmptyMiddle(Survivors(a, fa), Survivors(c, fc));
    SurvivorsConcat(a, c, fa, fc);
  }

  lemma OneSurvivor(b: Byte, flag: bool)
    ensures Survivors([b], [flag]) == if flag then [b] else []
  {
    assert [b][1..] == [] && [flag][1..] == [];
  }

  /** Changing one byte keeps the survivors exactly if that byte is none. */
  lemma OneByteSurvivors(buf: Input, flags: seq<bool>, at: nat, b: Byte)
    requires |flags| == |buf| && at < |buf| && b != buf[at]
    ensures Survivors(buf[at := b], flags) == Survivors(buf, flags) <==> !flags[at]
  {
    var r := buf[at := b];
    CutInThree(buf, flags, at, 1);
    CutInThree(r, flags, at, 1);
    assert r[..at] == buf[..at] && r[at + 1..] == buf[at + 1..];
    var head, tail := Survivors(buf[..at], flags[..at]), Survivors(buf[at + 1..], flags[at + 1..]);
    assert buf[at..at + 1] == [buf[at]] && r[at..at + 1] == [b] && flags[at..at + 1] == [flags[at]];
    OneSurvivor(buf[at], flags[at]);
    OneSurvivor(b, flags[at]);
    if flags[at] {
      assert (head + [buf[at]] + tail)[|head|] == buf[at];
      assert (head + [b] + tail)[|head|] == b;
    }
  }

  /** The bytes that the mask protects. The mask is one cell longer than the buffer; its last cell is for insertion at
      the end. */
  ghost function Kept(buf: Input, mask: seq<Cell>): Input
    requires |mask| == |buf| + 1
  {
    Survivors(buf, Flags(mask)[..|buf|])
  }

  function Flags(mask: seq<Cell>): (flags: seq<bool>)
    ensures |flags| == |mask| && forall k :: 0 <= k < |mask| ==> flags[k] == Protected(mask[k])
  {
    seq(|mask|, k requires 0 <= k < |mask| => Protected(mask[k]))
  }

  lemma WindowIsUnprotected(mask: seq<Cell>, kind: Cell, at: nat, n: nat)
    requires Window(mask, kind, at, n) && (kind == OVERWRITE || kind == DELETE)
    ensures forall k :: at <= k < at + n ==> !Flags(mask)[k]
  {
    forall k | at <= k < at + n
      ensures !Flags(mask)[k]
    {
      AllowedIsUnprotected(mask[k]);
    }
  }

  lemma OverwriteKeeps(buf: Input, mask: seq<Cell>, at: nat, block: Input)
    requires |mask| == |buf| + 1 && at + |block| <= |buf| && Window(mask, OVERWRITE, at, |block|)
    ensures Kept(Overwrite(buf, at, block), mask) == Kept(buf, mask)
  {
    WindowIsUnprotected(mask, OVERWRITE, at, |block|);
    OverwriteSurvivors(buf, Flags(mask)[..|buf|], at, block);
  }

  lemma DeleteKeeps(buf: Input, mask: seq<Cell>, at: nat, n: nat)
    requires |mask| == |buf| + 1 && at + n <= |buf| && Window(mask, DELETE, at, n)
    ensures |Without(mask, at, n)| == |Without(buf, at, n)| + 1
    ensures Kept(Without(buf, at, n), Without(mask, at, n)) == Kept(buf, mask)
  {
    WindowIsUnprotected(mask, DELETE, at, n);
    DeleteSurvivors(buf, Flags(mask)[..|buf|], at, n);
    assert Flags(Without(mask, at, n))[..|buf| - n] == Without(Flags(mask)[..|buf|], at, n);
  }

  /** The inserted part of a mask that `alloc_branch_mask` made: everything is allowed. */
  function AllAllowed(n: nat): (cells: seq<Cell>)
    ensures |cells| == n
    ensures forall k :: 0 <= k < n ==>
              Allows(cells[k], OVERWRITE) && Allows(cells[k], DELETE) && Allows(cells[k], INSERT)
  {
    seq(n, _ => 7)
  }

  lemma InsertKeeps(buf: Input, mask: seq<Cell>, at: nat, block: Input)
    requires |mask| == |buf| + 1 && at <= |buf|
    ensures Kept(Insert(buf, at, block), Insert(mask, at, AllAllowed(|block|))) == Kept(buf, mask)
  {
    var added := Flags(AllAllowed(|block|));
    assert !Protected(7);
    InsertSurvivors(buf, Flags(mask)[..|buf|], at, block, added);
    assert Flags(Insert(mask, at, AllAllowed(|block|)))[..|buf| + |block|] == Insert(Flags(mask)[..|buf|], at, added);
  }

  ghost predicate HasWindow(mask: seq<Cell>, kind: Cell, len: nat, w: nat) {
    exists j :: 0 <= j && j + w <= len && Window(mask, kind, j, w)
  }

  /** The number at `at`, which the mask allows to overwrite, and nothing else, has been tweaked. */
  ghost predicate TweakedAt(c: nat, mask: seq<Cell>, before: Input, after: Input, at: nat) {
    var w := WidthOf(c);
    && |after| == |before| && at + w <= |before| && Window(mask, OVERWRITE, at, w)
    && IsTweakOf(c, before[at..at + w], after[at..at + w])
    && after == Overwrite(before, at, after[at..at + w])
  }

  /** A block that the mask allows to delete has been cut out of the buffer and of the mask alike. */
  ghost predicate DeletedAt(cfg: Setup, mask: seq<Cell>, before: Input, mask': seq<Cell>, after: Input, at: nat,
                            n: nat) {
    && |mask| == |before| + 1 && |before| >= 2 && IsBlockLen(n, |before| - 1, cfg)
    && at + n <= |before| && Window(mask, DELETE, at, n)
    && after == Without(before, at, n) && mask' == Without(mask, at, n)
  }

  /** A block has been put into the buffer, and as many cells that allow everything into the mask, in front of a place
      that allows insertion, or at the end if there is none. */
  ghost predicate InsertedAt(mask: seq<Cell>, before: Input, mask': seq<Cell>, after: Input, at: nat, block: Input) {
    && |mask| == |before| + 1 && at <= |before|
    && (Allows(mask[at], INSERT) || (at == |before| && forall j :: 0 <= j <= |before| ==> !Allows(mask[j], INSERT)))
    && after == Insert(before, at, block) && mask' == Insert(mask, at, AllAllowed(|block|))
  }

  /** A block that the mask allows to overwrite has been overwritten. */
  ghost predicate OverwrittenAt(mask: seq<Cell>, before: Input, after: Input, at: nat, block: Input) {
    at + |block| <= |before| && Window(mask, OVERWRITE, at, |block|) && after == Overwrite(before, at, block)
  }

  /** What cases 1 to 10 do. */
  ghost predicate NumberTweaked(c: nat, mask: seq<Cell>, before: Input, after: Input) {
    if HasWindow(mask, OVERWRITE, |before|, WidthOf(c)) then exists at :: TweakedAt(c, mask, before, after, at)
    else after == before
  }

  /** A length that the block cases may draw, for which the mask has no window. */
  ghost predicate LacksWindow(cfg: Setup, mask: seq<Cell>, kind: Cell, len: nat, n: nat) {
    len >= 2 && IsBlockLen(n, len - 1, cfg) && !HasWindow(mask, kind, len, n)
  }

  /** What cases 11 and 12 do; they do nothing only if there is a block length for which the mask has no window. */
  ghost predicate BlockDeleted(cfg: Setup, mask: seq<Cell>, before: Input, mask': seq<Cell>, after: Input) {
    || (exists at, n :: DeletedAt(cfg, mask, before, mask', after, at, n))
    || (after == before && mask' == mask && (|before| < 2 || exists n :: LacksWindow(cfg, mask, DELETE, |before|, n)))
  }

  /** What case 13 does. */
  ghost predicate BlockCloned(cfg: Setup, mask: seq<Cell>, before: Input, mask': seq<Cell>, after: Input) {
    if |before| + 32768 < MAX_FILE
    then exists at, block :: InsertedAt(mask, before, mask', after, at, block) && IsClone(block, before, 1500, cfg)
    else after == before && mask' == mask
  }

  /** What case 14 does; it does nothing only if there is a block length for which the mask has no window. */
  ghost predicate BlockCopied(cfg: Setup, mask: seq<Cell>, before: Input, after: Input) {
    || (exists at, block :: OverwrittenAt(mask, before, after, at, block) && IsCopy(block, before, cfg))
    || (after == before && (|before| < 2 || exists n :: LacksWindow(cfg, mask, OVERWRITE, |before|, n)))
  }

  /** What case 15 does; it does nothing only if some token does not fit. */
  ghost predicate TokenWritten(cfg: Setup, mask: seq<Cell>, before: Input, after: Input) {
    || (exists at, token :: OverwrittenAt(mask, before, after, at, token) && IsToken(cfg.dict, token))
    || (&& after == before
        && exists token ::
             IsToken(cfg.dict, token) && (|token| > |before| || !HasWindow(mask, OVERWRITE, |before|, |token|)))
  }

  /** What case 16 does; it does nothing only if some token would make the file too large. */
  ghost predicate TokenInserted(cfg: Setup, mask: seq<Cell>, before: Input, mask': seq<Cell>, after: Input) {
    || (exists at, token :: InsertedAt(mask, before, mask', after, at, token) && IsToken(cfg.dict, token))
    || (after == before && mask' == mask && exists token :: IsToken(cfg.dict, token) && |before| + |token| >= MAX_FILE)
  }

  /** What the case of number `c` does. */
  ghost predicate Effect(cfg: Setup, c: nat, mask: seq<Cell>, before: Input, mask': seq<Cell>, after: Input) {
    if c == 0 then mask' == mask && |before| <= |mask| && BitFlipped(mask, before, after)
    else if c <= 10 then mask' == mask && NumberTweaked(c, mask, before, after)
    else if c <= 12 then BlockDeleted(cfg, mask, before, mask', after)
    else if c == 13 then BlockCloned(cfg, mask, before, mask', after)
    else if c == 14 then mask' == mask && BlockCopied(cfg, mask, before, after)
    else if c == 15 then mask' == mask && TokenWritten(cfg, mask, before, after)
    else TokenInserted(cfg, mask, before, mask', after)
  }

  // ----- the single-bit flip -----

  /** The flip may draw bit number `bit`: a byte position that may be overwritten, plus 0..7. */
  ghost predicate CanDraw(mask: seq<Cell>, len: nat, bit: nat)
    requires len <= |mask|
  {
    exists j :: 0 <= j < len && Allows(mask[j], OVERWRITE) && j <= bit < j + 8
  }

  /** No bit number that may be drawn falls into a protected byte. */
  ghost predicate FlipIsSafe(mask: seq<Cell>, len: nat)
    requires len <= |mask|
  {
    forall bit: nat :: CanDraw(mask, len, bit) ==> bit / 8 < len && !Protected(mask[bit / 8])
  }

  lemma DrawIsInBuffer(mask: seq<Cell>, len: nat, bit: nat)
    requires len <= |mask| && CanDraw(mask, len, bit)
    ensures bit / 8 < len
  {
  }

  /** The buffer with bit number `bit` flipped. */
  function Flipped(buf: Input, bit: nat): (r: Input)
    requires bit / 8 < |buf|
    ensures |r| == |buf|
  {
    buf[bit / 8 := FlipBit(buf[bit / 8], bit % 8)]
  }

  /** A flip keeps the protected bytes exactly if the byte that it hits is not one of them. */
  lemma FlipKeeps(buf: Input, mask: seq<Cell>, bit: nat)
    requires |mask| == |buf| + 1 && bit / 8 < |buf|
    ensures Kept(Flipped(buf, bit), mask) == Kept(buf, mask) <==> !Protected(mask[bit / 8])
  {
    OneByteSurvivors(buf, Flags(mask)[..|buf|], bit / 8, FlipBit(buf[bit / 8], bit % 8));
  }

  /** Whatever the flip draws, it keeps the protected bytes: this holds exactly for the masks that are safe, whatever
      the buffer holds. */
  lemma FlipKeepsIffSafe(buf: Input, mask: seq<Cell>)
    requires |mask| == |buf| + 1
    ensures FlipIsSafe(mask, |buf|)
            <==> forall bit: nat :: CanDraw(mask, |buf|, bit) ==>
                   bit / 8 < |buf| && Kept(Flipped(buf, bit), mask) == Kept(buf, mask)
  {
    forall bit: nat | CanDraw(mask, |buf|, bit)
      ensures bit / 8 < |buf| && (Kept(Flipped(buf, bit), mask) == Kept(buf, mask) <==> !Protected(mask[bit / 8]))
    {
      DrawIsInBuffer(mask, |buf|, bit);
      FlipKeeps(buf, mask, bit);
    }
  }

  /** What case 0 does. */
  ghost predicate BitFlipped(mask: seq<Cell>, before: Input, after: Input)
    requires |before| <= |mask|
  {
    || (after == before && forall bit: nat :: !CanDraw(mask, |before|, bit))
    || exists bit: nat :: CanDraw(mask, |before|, bit) && bit / 8 < |before| && after == Flipped(before, bit)
  }

  // ----- the havoc stage -----

  /** The buffer, its mask and the scratch list of the havoc stage of afl-rb. */
  class Havoc {
    const cfg: Setup
    var outBuf: Input
    var mask: seq<Cell>
    var positionMap: array<nat>

    ghost predicate Valid()
      reads this
    {
      && 1 <= |outBuf| <= MAX_FILE && |mask| == |outBuf| + 1
      && positionMap.Length >= |outBuf| + 1
      && IsSetup(cfg)
    }

    constructor (buf: Input, mask: seq<Cell>, cfg: Setup)
      requires 1 <= |buf| <= MAX_FILE && |mask| == |buf| + 1 && IsSetup(cfg)
      ensures Valid() && outBuf == buf && this.mask == mask && fresh(positionMap)
    {
      outBuf, this.mask := buf, mask;
      this.cfg := cfg;
      positionMap := new nat[|buf| + 1];
    }

    /** Cases 1 to 10: replace a number somewhere the mask allows overwriting. */
    method TweakSomeNumber(c: nat)
      requires Valid() && 1 <= c <= 10
      modifies this`outBuf, positionMap
      ensures Valid() && |outBuf| == |old(outBuf)| && Kept(outBuf, mask) == old(Kept(outBuf, mask))
      ensures NumberTweaked(c, mask, old(outBuf), outBuf)
    {
      var w := WidthOf(c);
      if |outBuf| < w {
        return;
      }
      var posn := GetRandomModifiablePosn(w, OVERWRITE, |outBuf|, mask, positionMap);
      if posn.Some? {
        var block := TweakNumber(c, outBuf[posn.value..posn.value + w]);
        OverwriteKeeps(outBuf, mask, posn.value, block);
        outBuf := Overwrite(outBuf, posn.value, block);
        assert outBuf[posn.value..posn.value + w] == block;
        assert TweakedAt(c, mask, old(outBuf), outBuf, posn.value);
      }
    }

    /** Cases 11 and 12: delete a block that the mask allows to delete. */
    method DeleteBlock()
      requires Valid()
      modifies this`outBuf, this`mask, positionMap
      ensures Valid() && Kept(outBuf, mask) == old(Kept(outBuf, mask))
      ensures BlockDeleted(cfg, old(mask), old(outBuf), mask, outBuf)
    {
      if |outBuf| < 2 {
        return;
      }
      var delLen := ChooseBlockLen(|outBuf| - 1, cfg);
      var delFrom := GetRandomModifiablePosn(delLen, DELETE, |outBuf|, mask, positionMap);
      assert delFrom.None? ==> LacksWindow(cfg, mask, DELETE, |outBuf|, delLen);
      if delFrom.Some? {
        DeleteKeeps(outBuf, mask, delFrom.value, delLen);
        outBuf, mask := Without(outBuf, delFrom.value, delLen), Without(mask, delFrom.value, delLen);
        assert DeletedAt(cfg, old(mask), old(outBuf), mask, outBuf, delFrom.value, delLen);
      }
    }

    /** Puts a block in front of position `at`; the new cells allow everything. */
    method InsertBlock(at: nat, block: Input)
      requires Valid() && at <= |outBuf| && |outBuf| + |block| <= MAX_FILE
      modifies this`outBuf, this`mask, this`positionMap
      ensures Valid() && Kept(outBuf, mask) == old(Kept(outBuf, mask)) && fresh(positionMap)
      ensures outBuf == Insert(old(outBuf), at, block) && mask == Insert(old(mask), at, AllAllowed(|block|))
      ensures forall k :: at <= k < at + |block| ==>
                Allows(mask[k], OVERWRITE) && Allows(mask[k], DELETE) && Allows(mask[k], INSERT)
    {
      InsertKeeps(outBuf, mask, at, block);
      outBuf, mask := Insert(outBuf, at, block), Insert(mask, at, AllAllowed(|block|));
      positionMap := new nat[|outBuf| + 1];
    }

    /** Case 13: clone a block of the buffer, or insert a constant block, where the mask allows insertion. */
    method CloneBlock()
      requires Valid()
      modifies this`outBuf, this`mask, this`positionMap, positionMap
      ensures Valid() && Kept(outBuf, mask) == old(Kept(outBuf, mask))
      ensures BlockCloned(cfg, old(mask), old(outBuf), mask, outBuf)
      ensures positionMap == old(positionMap) || fresh(positionMap)
    {
      if |outBuf| + HAVOC_BLK_XL < MAX_FILE {
        var actuallyClone := UR(4);
        var block;
        if actuallyClone != 0 {
          var cloneLen := ChooseBlockLen(|outBuf|, cfg);
          var cloneFrom := UR(|outBuf| - cloneLen + 1);
          block := outBuf[cloneFrom..cloneFrom + cloneLen];
          assert IsPartAt(block, outBuf, cloneFrom);
        } else {
          var cloneLen := ChooseBlockLen(HAVOC_BLK_LARGE, cfg);
          block := ConstantBlock(outBuf, cloneLen);
        }
        var cloneTo := GetRandomInsertPosn(|outBuf|, mask, positionMap);
        InsertBlock(cloneTo, block);
        assert InsertedAt(old(mask), old(outBuf), mask, outBuf, cloneTo, block);
      }
    }

    /** Case 14: overwrite a block the mask allows to overwrite, with another block of the buffer or a constant. */
    method OverwriteBlock()
      requires Valid()
      modifies this`outBuf, positionMap
      ensures Valid() && |outBuf| == |old(outBuf)| && Kept(outBuf, mask) == old(Kept(outBuf, mask))
      ensures BlockCopied(cfg, mask, old(outBuf), outBuf)
    {
      if |outBuf| < 2 {
        return;
      }
      var copyLen := ChooseBlockLen(|outBuf| - 1, cfg);
      var copyFrom := UR(|outBuf| - copyLen + 1);
      var copyTo := GetRandomModifiablePosn(copyLen, OVERWRITE, |outBuf|, mask, positionMap);
      assert copyTo.None? ==> LacksWindow(cfg, mask, OVERWRITE, |outBuf|, copyLen);
      if copyTo.Some? {
        var block := outBuf[copyFrom..copyFrom + copyLen];
        assert IsPartAt(block, outBuf, copyFrom);
        var dice := UR(4);
        if dice == 0 {
          block := ConstantBlock(outBuf, copyLen);
        }
        OverwriteKeeps(outBuf, mask, copyTo.value, block);
        outBuf := Overwrite(outBuf, copyTo.value, block);
        assert OverwrittenAt(mask, old(outBuf), outBuf, copyTo.value, block);
      }
    }

    /** Case 15: overwrite with a token. */
    method OverwriteToken()
      requires Valid() && |cfg.dict.extras| + |cfg.dict.autoExtras| > 0
      modifies this`outBuf, positionMap
      ensures Valid() && |outBuf| == |old(outBuf)| && Kept(outBuf, mask) == old(Kept(outBuf, mask))
      ensures TokenWritten(cfg, mask, old(outBuf), outBuf)
    {
      var token := PickToken(cfg.dict);
      assert IsToken(cfg.dict, token);
      if |token| > |outBuf| {
        return;
      }
      var insertAt := GetRandomModifiablePosn(|token|, OVERWRITE, |outBuf|, mask, positionMap);
      if insertAt.Some? {
        OverwriteKeeps(outBuf, mask, insertAt.value, token);
        outBuf := Overwrite(outBuf, insertAt.value, token);
        assert OverwrittenAt(mask, old(outBuf), outBuf, insertAt.value, token);
      }
    }

    /** Case 16: insert a token where the mask allows insertion. */
    method InsertToken()
      requires Valid() && |cfg.dict.extras| + |cfg.dict.autoExtras| > 0
      modifies this`outBuf, this`mask, this`positionMap, positionMap
      ensures Valid() && Kept(outBuf, mask) == old(Kept(outBuf, mask))
      ensures TokenInserted(cfg, old(mask), old(outBuf), mask, outBuf)
      ensures positionMap == old(positionMap) || fresh(positionMap)
    {
      var insertAt := GetRandomInsertPosn(|outBuf|, mask, positionMap);
      var token := PickToken(cfg.dict);
      assert IsToken(cfg.dict, token);
      if |outBuf| + |token| < MAX_FILE {
        InsertBlock(insertAt, token);
        assert InsertedAt(old(mask), old(outBuf), mask, outBuf, insertAt, token);
      }
    }

    /** Case 0, the single-bit flip. The position it draws is a byte position plus 0..7, but it is used as a bit number,
        so the byte that changes is not the one the mask was asked about. The protected bytes survive every draw exactly
        if the mask is safe for flips. */
    method FlipSomeBit()
      requires Valid()
      modifies this`outBuf, positionMap
      ensures Valid() && |outBuf| == |old(outBuf)|
      ensures BitFlipped(mask, old(outBuf), outBuf)
      ensures FlipIsSafe(mask, |outBuf|) ==> Kept(outBuf, mask) == old(Kept(outBuf, mask))
    {
      var posn := GetRandomModifiablePosn(1, OVERWRITE, |outBuf|, mask, positionMap);
      if posn.Some? {
        var dice := UR(8);
        var bit := posn.value + dice;
        assert Allows(mask[posn.value], OVERWRITE);
        assert CanDraw(mask, |outBuf|, bit);
        FlipKeeps(outBuf, mask, bit);
        outBuf := outBuf[bit / 8 := FlipBit(outBuf[bit / 8], bit % 8)];
        assert outBuf == Flipped(old(outBuf), bit);
      } else {
        forall j | 0 <= j < |outBuf|
          ensures !Allows(mask[j], OVERWRITE)
        {
          assert !Window(mask, OVERWRITE, j, 1);
        }
      }
    }

    /** One tweak of the masked havoc stage. */
    method Tweak(c: nat)
      requires Valid() && c < 15 + (if |cfg.dict.extras| + |cfg.dict.autoExtras| > 0 then 2 else 0)
      modifies this`outBuf, this`mask, this`positionMap, positionMap
      ensures Valid() && Effect(cfg, c, old(mask), old(outBuf), mask, outBuf)
      ensures c != 0 || FlipIsSafe(old(mask), |old(outBuf)|) ==> Kept(outBuf, mask) == old(Kept(outBuf, mask))
      ensures positionMap == old(positionMap) || fresh(positionMap)
    {
      if c == 0 {
        FlipSomeBit();
      } else if c <= 10 {
        TweakSomeNumber(c);
      } else if c <= 12 {
        DeleteBlock();
      } else if c == 13 {
        CloneBlock();
      } else if c == 14 {
        OverwriteBlock();
      } else if c == 15 {
        OverwriteToken();
      } else {
        InsertToken();
      }
    }

    /** Any stack of tweaks, each with the effect that its number says: the mask stays one longer than the buffer, and
        the buffer stays between one byte and the file limit. The protected bytes survive in order with their values, if
        every bit flip meets a mask that is safe for flips. `bufs` and `masks` are what the stack goes through. */
    method Stack(cases: seq<nat>) returns (ghost bufs: seq<Input>, ghost masks: seq<seq<Cell>>)
      requires Valid()
      requires forall k :: 0 <= k < |cases| ==>
                 cases[k] < 15 + (if |cfg.dict.extras| + |cfg.dict.autoExtras| > 0 then 2 else 0)
      modifies this`outBuf, this`mask, this`positionMap, positionMap
      ensures Valid() && IsStack(cfg, cases, masks, bufs)
      ensures bufs[0] == old(outBuf) && masks[0] == old(mask) && bufs[|cases|] == outBuf && masks[|cases|] == mask
      ensures FlipsAreSafe(cases, masks, bufs) ==> Kept(outBuf, mask) == old(Kept(outBuf, mask))
    {
      bufs, masks := [outBuf], [mask];
      for k := 0 to |cases|
        invariant Valid() && IsStack(cfg, cases[..k], masks, bufs)
        invariant bufs[0] == old(outBuf) && masks[0] == old(mask) && bufs[k] == outBuf && masks[k] == mask
        invariant FlipsAreSafe(cases[..k], masks, bufs) ==> Kept(outBuf, mask) == old(Kept(outBuf, mask))
        invariant positionMap == old(positionMap) || fresh(positionMap)
      {
        Tweak(cases[k]);
        StackGrows(cfg, cases, masks, bufs, k, mask, outBuf);
        bufs, masks := bufs + [outBuf], masks + [mask];
      }
      assert cases[..|cases|] == cases;
    }
  }

  /** A stack of tweaks goes through these buffers and masks. */
  ghost predicate IsStack(cfg: Setup, cases: seq<nat>, masks: seq<seq<Cell>>, bufs: seq<Input>) {
    && |bufs| == |masks| == |cases| + 1
    && (forall k :: 0 <= k < |bufs| ==> |masks[k]| == |bufs[k]| + 1)
    && forall k :: 0 <= k < |cases| ==> Effect(cfg, cases[k], masks[k], bufs[k], masks[k + 1], bufs[k + 1])
  }

  /** Every bit flip of the stack meets a mask that is safe for flips. */
  ghost predicate FlipsAreSafe(cases: seq<nat>, masks: seq<seq<Cell>>, bufs: seq<Input>)
    requires |bufs| == |masks| == |cases| + 1 && forall k :: 0 <= k < |bufs| ==> |masks[k]| == |bufs[k]| + 1
  {
    forall k :: 0 <= k < |cases| && cases[k] == 0 ==> FlipIsSafe(masks[k], |bufs[k]|)
  }

  lemma StackGrows(cfg: Setup, cases: seq<nat>, masks: seq<seq<Cell>>, bufs: seq<Input>, k: nat,
                   mask: seq<Cell>, buf: Input)
    requires k < |cases| && IsStack(cfg, cases[..k], masks, bufs) && |mask| == |buf| + 1
    requires Effect(cfg, cases[k], masks[k], bufs[k], mask, buf)
    ensures IsStack(cfg, cases[..k + 1], masks + [mask], bufs + [buf])
    ensures FlipsAreSafe(cases[..k + 1], masks + [mask], bufs + [buf])
       <==> FlipsAreSafe(cases[..k], masks, bufs) && (cases[k] == 0 ==> FlipIsSafe(masks[k], |bufs[k]|))
  {
    var cases', masks', bufs' := cases[..k + 1], masks + [mask], bufs + [buf];
    forall j | 0 <= j <= k
      ensures masks'[j] == masks[j] && bufs'[j] == bufs[j]
      ensures Effect(cfg, cases'[j], masks'[j], bufs'[j], masks'[j + 1], bufs'[j + 1])
    {
      if j < k {
        assert cases'[j] == cases[..k][j];
        assert Effect(cfg, cases[..k][j], masks[j], bufs[j], masks[j + 1], bufs[j + 1]);
      }
    }
    SafeFlipsGrow(cases, masks, bufs, k, mask, buf);
  }

  lemma SafeFlipsGrow(cases: seq<nat>, masks: seq<seq<Cell>>, bufs: seq<Input>, k: nat, mask: seq<Cell>, buf: Input)
    requires k < |cases| && |bufs| == |masks| == k + 1 && |mask| == |buf| + 1
    requires forall j :: 0 <= j < |bufs| ==> |masks[j]| == |bufs[j]| + 1
    ensures FlipsAreSafe(cases[..k + 1], masks + [mask], bufs + [buf])
       <==> FlipsAreSafe(cases[..k], masks, bufs) && (cases[k] == 0 ==> FlipIsSafe(masks[k], |bufs[k]|))
  {
    var cases', masks', bufs' := cases[..k + 1], masks + [mask], bufs + [buf];
    assert forall j :: 0 <= j <= k ==> masks'[j] == masks[j] && bufs'[j] == bufs[j] && cases'[j] == cases[j];
    assert forall j :: 0 <= j < k ==> cases[..k][j] == cases[j];
    assert cases'[k] == cases[k];
  }

  /** Not every mask is safe: with two bytes of which only the second may be overwritten, drawing position 1 and offset
      0 flips a bit of the first, and the protected bytes of every such buffer change. */
  lemma FlipCanHitProtected(buf: Input)
    requires |buf| == 2
    ensures var mask: seq<Cell> := [0, 1, 4];
            !FlipIsSafe(mask, 2) && CanDraw(mask, 2, 1) && Kept(Flipped(buf, 1), mask) != Kept(buf, mask)
  {
    var mask: seq<Cell> := [0, 1, 4];
    assert Protected(mask[0]) && Allows(mask[1], OVERWRITE);
    assert CanDraw(mask, 2, 1);
    FlipKeeps(buf, mask, 1);
  }
}
