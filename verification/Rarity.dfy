/** Rare branches of FairFuzz: which branches count as rare, and the blacklist. */
module Rarity {
  import opened Bytes

  const MAX_RARE_BRANCHES := 256

  /** The exponent of the highest bit of a positive hit count. */
  function Log2(hits: nat): (e: nat)
    requires hits > 0
    ensures Pow2(e) <= hits < 2 * Pow2(e)
  {
    if hits == 1 then 0 else 1 + Log2(hits / 2)
  }

  method HighestOrderBit(hits: nat) returns (e: nat)
    requires hits > 0
    ensures e == Log2(hits)
  {
    var curHits := hits / 2;
    e := 0;
    while curHits > 0
      invariant if curHits > 0 then e + 1 + Log2(curHits) == Log2(hits) else e == Log2(hits)
    {
      e, curHits := e + 1, curHits / 2;
    }
  }

  /** The blacklist: an array of ids closed by -1, doubled when it is full. */
  class Blacklist {
    var ids: array<int>
    var pos: nat

    ghost predicate Valid()
      reads this, ids
    {
      pos < ids.Length && ids[pos] == -1 && forall k :: 0 <= k < pos ==> ids[k] >= 0
    }

    ghost function Contents(): seq<int>
      requires pos <= ids.Length
      reads this, ids
    {
      ids[..pos]
    }

    constructor ()
      ensures Valid() && Contents() == [] && fresh(ids)
    {
      ids, pos := new int[1024](_ => -1), 0;
    }

    /** `contains_id`. */
    method Contains(id: int) returns (found: bool)
      requires Valid() && id >= 0
      ensures found == (id in Contents())
    {
      var i := 0;
      while ids[i] != -1
        invariant i <= pos && id !in ids[..i]
        decreases pos - i
      {
        if ids[i] == id {
          return true;
        }
        i := i + 1;
      }
      return false;
    }

    method Add(id: int)
      requires Valid() && id >= 0
      modifies this, ids
      ensures Valid() && Contents() == old(Contents()) + [id]
      ensures ids == old(ids) || fresh(ids)
    {
      if pos >= ids.Length - 1 {
        var bigger := new int[2 * ids.Length](k requires 0 <= k reads this, ids =>
          if k < ids.Length then ids[k] else -1);
        ids := bigger;
      }
      ids[pos] := id;
      pos := pos + 1;
      ids[pos] := -1;
    }
  }

  /** Branch `i` has been hit and is not blacklisted. */
  ghost predicate Live(hits: seq<nat>, black: seq<int>, i: int) {
    0 <= i < |hits| && hits[i] > 0 && i !in black
  }

  /** The live branches below `n` whose hit count has its highest bit at `level`, in order. */
  ghost function AtLevel(hits: seq<nat>, black: seq<int>, n: nat, level: int): seq<int>
    requires n <= |hits|
  {
    if n == 0 then []
    else
      AtLevel(hits, black, n - 1, level)
      + if Live(hits, black, n - 1) && Log2(hits[n - 1]) == level then [n - 1] else []
  }

  lemma {:induction false} AtLevelIsExact(hits: seq<nat>, black: seq<int>, n: nat, level: int)
    requires n <= |hits|
    ensures forall i ::
              i in AtLevel(hits, black, n, level) <==> 0 <= i < n && Live(hits, black, i) && Log2(hits[i]) == level
    ensures Rising(AtLevel(hits, black, n, level))
  {
    if n > 0 {
      AtLevelIsExact(hits, black, n - 1, level);
      RisingGrows(AtLevel(hits, black, n - 1, level), n - 1);
    }
  }

  ghost predicate Rising(s: seq<int>) {
    forall j, k :: 0 <= j < k < |s| ==> s[j] < s[k]
  }

  lemma RisingGrows(s: seq<int>, n: int)
    requires Rising(s) && forall i :: i in s ==> i < n
    ensures Rising(s + [n])
  {
    forall j | 0 <= j < |s|
      ensures s[j] < n
    {
      assert s[j] in s;
    }
  }

  /** Some live branch lies below the exponent. */
  ghost predicate HasRare(hits: seq<nat>, black: seq<int>, exp: int) {
    exists i :: 0 <= i < |hits| && Live(hits, black, i) && Log2(hits[i]) < exp
  }

  /** `low` is the least level of a live branch below `n`, if there is one. */
  ghost predicate LeastLevel(hits: seq<nat>, black: seq<int>, n: nat, low: Option<nat>) {
    && n <= |hits|
    && (forall i :: 0 <= i < n && Live(hits, black, i) ==> low.Some? && Log2(hits[i]) >= low.value)
    && (low.Some? ==> exists i :: 0 <= i < n && Live(hits, black, i) && Log2(hits[i]) == low.value)
  }

  lemma {:induction false} NoneBelowLeast(hits: seq<nat>, black: seq<int>, n: nat, level: int)
    requires n <= |hits| && forall i :: 0 <= i < n && Live(hits, black, i) ==> Log2(hits[i]) > level
    ensures AtLevel(hits, black, n, level) == []
  {
    if n > 0 {
      NoneBelowLeast(hits, black, n - 1, level);
    }
  }

  /** What the scan has found when it reaches branch `n`. */
  ghost predicate Scanned(hits: seq<nat>, black: seq<int>, n: nat, exp0: int, exp: int, low: Option<nat>,
                          ids: seq<int>) {
    && n <= |hits| && LeastLevel(hits, black, n, low)
    && exp == (if low.Some? && low.value + 1 < exp0 then low.value + 1 else exp0)
    && ids == AtLevel(hits, black, n, exp - 1)
  }

  lemma ScanSkip(hits: seq<nat>, black: seq<int>, n: nat, exp0: int, exp: int, low: Option<nat>, ids: seq<int>)
    requires Scanned(hits, black, n, exp0, exp, low, ids) && n < |hits| && !Live(hits, black, n)
    ensures Scanned(hits, black, n + 1, exp0, exp, low, ids)
  {
    if low.Some? {
      var i :| 0 <= i < n && Live(hits, black, i) && Log2(hits[i]) == low.value;
    }
  }

  /** A live branch: it may lower the least level, reset the list, or join it. */
  lemma ScanLive(hits: seq<nat>, black: seq<int>, n: nat, exp0: int, exp: int, low: Option<nat>, ids: seq<int>)
    requires Scanned(hits, black, n, exp0, exp, low, ids) && n < |hits| && Live(hits, black, n)
    ensures var hob := Log2(hits[n]);
            var low' := if low.None? || hob < low.value then Some(hob) else low;
            var exp' := if hob < exp - 1 then hob + 1 else exp;
            var kept := if hob < exp - 1 then [] else ids;
            Scanned(hits, black, n + 1, exp0, exp', low', if hob < exp then kept + [n] else kept)
  {
    var hob := Log2(hits[n]);
    LeastGrows(hits, black, n, low, hob);
    ListGrows(hits, black, n, exp, hob);
  }

  lemma ListGrows(hits: seq<nat>, black: seq<int>, n: nat, exp: int, hob: nat)
    requires n < |hits| && Live(hits, black, n) && hob == Log2(hits[n])
    requires forall i :: 0 <= i < n && Live(hits, black, i) ==> Log2(hits[i]) >= exp - 1
    ensures AtLevel(hits, black, n + 1, if hob < exp - 1 then hob else exp - 1)
         == (if hob < exp - 1 then [] else AtLevel(hits, black, n, exp - 1)) + if hob < exp then [n] else []
  {
    if hob < exp - 1 {
      NoneBelowLeast(hits, black, n, hob);
    }
  }

  lemma LeastGrows(hits: seq<nat>, black: seq<int>, n: nat, low: Option<nat>, hob: nat)
    requires n < |hits| && LeastLevel(hits, black, n, low) && Live(hits, black, n) && hob == Log2(hits[n])
    ensures LeastLevel(hits, black, n + 1, if low.None? || hob < low.value then Some(hob) else low)
  {
    if low.Some? {
      var i :| 0 <= i < n && Live(hits, black, i) && Log2(hits[i]) == low.value;
    }
  }

  class RareBranches {
    const hitBits: array<nat>
    const blacklist: Blacklist
    var rareBranchExp: int

    ghost predicate Valid()
      reads this, blacklist, blacklist.ids
    {
      blacklist.Valid()
    }

    ghost function Black(): seq<int>
      requires Valid()
      reads this, blacklist, blacklist.ids
    {
      blacklist.Contents()
    }

    constructor (hits: seq<nat>)
      ensures Valid() && hitBits[..] == hits && Black() == [] && rareBranchExp == 4 && fresh(blacklist)
              && fresh(blacklist.ids)
    {
      hitBits := new nat[|hits|](k requires 0 <= k < |hits| => hits[k]);
      blacklist := new Blacklist();
      rareBranchExp := 4;
    }

    /** Whether branch `i` is hit and not blacklisted. */
    method IsLive(i: nat) returns (live: bool)
      requires Valid() && i < hitBits.Length
      ensures live == Live(hitBits[..], Black(), i)
    {
      live := hitBits[i] > 0;
      if live {
        var listed := blacklist.Contains(i);
        live := !listed;
      }
    }

    /** The body of the scan. */
    method ScanStep(i: nat, ids: seq<int>, low: Option<nat>, ghost exp0: int)
      returns (ids': seq<int>, low': Option<nat>)
      requires Valid() && i < hitBits.Length
      requires Scanned(hitBits[..], Black(), i, exp0, rareBranchExp, low, ids)
      modifies this`rareBranchExp
      ensures Scanned(hitBits[..], Black(), i + 1, exp0, rareBranchExp, low', ids') && |ids'| <= |ids| + 1
    {
      ids', low' := ids, low;
      var live := IsLive(i);
      if !live {
        ScanSkip(hitBits[..], Black(), i, exp0, rareBranchExp, low, ids);
        return;
      }
      ScanLive(hitBits[..], Black(), i, exp0, rareBranchExp, low, ids);
      var hob := HighestOrderBit(hitBits[i]);
      low' := if low.None? || hob < low.value then Some(hob) else low;
      if hob < rareBranchExp {
        if hob < rareBranchExp - 1 {
          rareBranchExp := hob + 1;
          ids' := [];
        }
        ids' := ids' + [i];
      }
    }

    /** The scan over the map, which stops when the list is full. */
    method Scan() returns (ids: seq<int>, low: Option<nat>, ghost n: nat)
      requires Valid()
      modifies this`rareBranchExp
      ensures Scanned(hitBits[..], Black(), n, old(rareBranchExp), rareBranchExp, low, ids)
      ensures |ids| < MAX_RARE_BRANCHES && (n == hitBits.Length || |ids| == MAX_RARE_BRANCHES - 1)
    {
      ids, low := [], None;
      var i := 0;
      while i < hitBits.Length && |ids| < MAX_RARE_BRANCHES - 1
        invariant Scanned(hitBits[..], Black(), i, old(rareBranchExp), rareBranchExp, low, ids)
                  && |ids| < MAX_RARE_BRANCHES
      {
        ids, low := ScanStep(i, ids, low, old(rareBranchExp));
        i := i + 1;
      }
      n := i;
    }

    /** `get_lowest_hit_branch_ids`: over the part of the map that was scanned, all of it unless the list is full,
        exactly the live branches at the least level, whatever the exponent was before. The exponent ends one above
        that level; the function calls itself at most once. */
    method GetLowestHitBranchIds() returns (ids: seq<int>, ghost n: nat)
      requires Valid()
      modifies this`rareBranchExp
      ensures IsAnswer(hitBits[..], Black(), n, old(rareBranchExp), rareBranchExp, ids)
      decreases if HasRare(hitBits[..], Black(), rareBranchExp) then 0 else 1
    {
      var low;
      ids, low, n := Scan();
      ScanResult(hitBits[..], Black(), n, old(rareBranchExp), rareBranchExp, low, ids);
      if ids == [] && low.Some? {
        rareBranchExp := low.value + 1;
        ghost var exp := rareBranchExp;
        RetryTerminates(hitBits[..], Black(), n, low, old(rareBranchExp));
        ids, n := GetLowestHitBranchIds();
        RetryAnswers(hitBits[..], Black(), n, exp, old(rareBranchExp), rareBranchExp, ids);
      }
    }
  }

  /** The list holds exactly the live branches at the least level among the first `n`, which are all unless it is
      full. */
  ghost predicate IsAnswer(hits: seq<nat>, black: seq<int>, n: nat, exp0: int, exp: int, ids: seq<int>) {
    && n <= |hits| && |ids| < MAX_RARE_BRANCHES && (n == |hits| || |ids| == MAX_RARE_BRANCHES - 1)
    && ids == AtLevel(hits, black, n, exp - 1)
    && if ids != [] then exp > 0 && LeastLevel(hits, black, n, Some(exp - 1))
       else LeastLevel(hits, black, n, None) && exp == exp0
  }

  lemma RetryTerminates(hits: seq<nat>, black: seq<int>, n: nat, low: Option<nat>, exp0: int)
    requires LeastLevel(hits, black, n, low) && low.Some? && n == |hits| && low.value >= exp0
    ensures !HasRare(hits, black, exp0) && HasRare(hits, black, low.value + 1)
  {
  }

  lemma RetryAnswers(hits: seq<nat>, black: seq<int>, n: nat, exp0: int, exp0': int, exp: int, ids: seq<int>)
    requires IsAnswer(hits, black, n, exp0, exp, ids) && HasRare(hits, black, exp0)
    ensures IsAnswer(hits, black, n, exp0', exp, ids)
  {
  }

  /** A scan returns something exactly if some live branch it saw lies below the incoming exponent; then the exponent is
      one above the least level. */
  lemma ScanResult(hits: seq<nat>, black: seq<int>, n: nat, exp0: int, exp: int, low: Option<nat>, ids: seq<int>)
    requires Scanned(hits, black, n, exp0, exp, low, ids)
    ensures ids != [] <==> low.Some? && low.value < exp0
    ensures ids != [] ==> low == Some(exp - 1)
    ensures ids == [] ==> exp == exp0
  {
    if low.Some? && low.value < exp0 {
      var i :| 0 <= i < n && Live(hits, black, i) && Log2(hits[i]) == low.value;
      AtLevelIsExact(hits, black, n, exp - 1);
      assert i in ids;
    } else {
      NoneBelowLeast(hits, black, n, exp - 1);
    }
  }

  /** Branch `i` is live and no live branch of the map has a lower level. */
  ghost predicate Rarest(hits: seq<nat>, black: seq<int>, i: int) {
    Live(hits, black, i) && forall j :: 0 <= j < |hits| && Live(hits, black, j) ==> Log2(hits[i]) <= Log2(hits[j])
  }

  /** The list holds exactly the rarest live branches of the whole map if and only if the part that was not scanned
      holds no live branch at or below the level of the list. */
  lemma ExactIffNothingMissed(hits: seq<nat>, black: seq<int>, n: nat, exp0: int, exp: int, ids: seq<int>)
    requires IsAnswer(hits, black, n, exp0, exp, ids)
    ensures (forall i :: i in ids <==> Rarest(hits, black, i)) <==>
            (forall j :: n <= j < |hits| && Live(hits, black, j) ==> Log2(hits[j]) >= exp)
    ensures |ids| < MAX_RARE_BRANCHES - 1 ==> forall i :: i in ids <==> Rarest(hits, black, i)
  {
    AtLevelIsExact(hits, black, n, exp - 1);
    if ids != [] {
      var k :| 0 <= k < n && Live(hits, black, k) && Log2(hits[k]) == exp - 1;
      assert k in ids;
      if forall i :: i in ids <==> Rarest(hits, black, i) {
        forall j | n <= j < |hits| && Live(hits, black, j)
          ensures Log2(hits[j]) >= exp
        {
          assert Rarest(hits, black, k) && j !in ids;
        }
      }
    }
  }
}
