/** The filters of the interesting-value stages: which values would only repeat a flip, an arithmetic step, or a
    narrower value. */
module Interest {
  import opened Bytes
  import opened Mutators
  import opened Arith

  /** `n` is `o` with value `v` written at `at`, `w` bytes wide. */
  ghost predicate IsPlacedAt(o: Input, n: Input, at: nat, w: nat, v: int, e: Endian) {
    at + w <= |o| && n == Overwrite(o, at, EncAs(v, w, e))
  }

  /** `n` is `o` with one of the values written somewhere. */
  ghost predicate IsPlaced(o: Input, n: Input, w: nat, vals: seq<int>, e: Endian) {
    exists at, v :: v in vals && IsPlacedAt(o, n, at, w, v, e)
  }

  /** What `could_be_interest` looks for: an interesting byte anywhere; in four bytes, or if the little-endian attempt
      has already been made, an interesting half anywhere, in four bytes also a big-endian one; and in that case, in
      four bytes, an interesting whole. */
  ghost predicate LooksInteresting(o: Input, n: Input, checkLe: bool) {
    || o == n
    || IsPlaced(o, n, 1, INTERESTING_8, Little)
    || ((|o| != 2 || checkLe) && IsPlaced(o, n, 2, INTERESTING_16, Little))
    || (|o| > 2 && IsPlaced(o, n, 2, INTERESTING_16, Big))
    || (|o| == 4 && checkLe && IsPlaced(o, n, 4, INTERESTING_32, Little))
  }

  /** Looks for a value of `w` bytes at offset `at`. */
  method FindValue(o: Input, n: Input, at: nat, w: nat, vals: seq<int>, e: Endian) returns (found: bool)
    requires at + w <= |o|
    ensures found <==> exists v :: v in vals && IsPlacedAt(o, n, at, w, v, e)
  {
    found := false;
    for j := 0 to |vals|
      invariant found <==> exists k :: 0 <= k < j && IsPlacedAt(o, n, at, w, vals[k], e)
    {
      if n == Overwrite(o, at, EncAs(vals[j], w, e)) {
        assert IsPlacedAt(o, n, at, w, vals[j], e);
        found := true;
      }
    }
  }

  /** Looks for a value of `w` bytes anywhere. */
  method FindPlaced(o: Input, n: Input, w: nat, vals: seq<int>, e: Endian) returns (found: bool)
    ensures found <==> IsPlaced(o, n, w, vals, e)
  {
    found := false;
    var at := 0;
    while at + w <= |o|
      invariant at <= |o| + 1
      invariant found <==> exists i: nat, v :: i < at && v in vals && IsPlacedAt(o, n, i, w, v, e)
    {
      var here := FindValue(o, n, at, w, vals, e);
      found := found || here;
      at := at + 1;
    }
    assert forall i: nat, v :: IsPlacedAt(o, n, i, w, v, e) ==> i < at;
  }

  /** `could_be_interest`. */
  method CouldBeInterest(o: Input, n: Input, checkLe: bool) returns (r: bool)
    ensures r <==> LooksInteresting(o, n, checkLe)
  {
    if o == n {
      return true;
    }
    r := FindPlaced(o, n, 1, INTERESTING_8, Little);
    if r {
      return;
    }
    if |o| == 2 && !checkLe {
      return false;
    }
    r := FindPlaced(o, n, 2, INTERESTING_16, Little);
    if !r && |o| > 2 {
      r := FindPlaced(o, n, 2, INTERESTING_16, Big);
    }
    if !r && |o| == 4 && checkLe {
      r := FindPlaced(o, n, 4, INTERESTING_32, Little);
    }
  }

  /** A value that the stages skip: its change looks like a flip or an arithmetic step, or, for more than one byte, like
      a narrower interesting value. */
  ghost predicate LooksTried(o: Input, n: Input, e: Endian) {
    || LooksFlipped(Xor(Dec(o), Dec(n), |o|)) || o == n || OneStep(o, n)
    || (|o| > 1 && LooksInteresting(o, n, e == Big))
  }

  /** The three filters together. */
  method CheckTried(o: Input, n: Input, e: Endian) returns (tried: bool)
    requires IsWidth(|o|) && |n| == |o|
    ensures tried <==> LooksTried(o, n, e)
  {
    tried := CouldBeBitflip(Xor(Dec(o), Dec(n), |o|));
    if tried {
      return;
    }
    NumbersFit(o, Little);
    NumbersFit(n, Little);
    EncDec(o);
    EncDec(n);
    SameNumberSameBytes(o, n, Little);
    tried := CouldBeArith(Dec(o), Dec(n), |o|);
    if !tried && |o| > 1 {
      tried := CouldBeInterest(o, n, e == Big);
    }
  }
}
