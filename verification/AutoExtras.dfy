/** Automatic dictionary tokens: what the single-bit flip stage of `fuzz_one` collects while it flips the lowest bit of
    each byte. */
module AutoExtras {
  import opened Bytes

  const MIN_AUTO_EXTRA := 3
  const MAX_AUTO_EXTRA := 32

  /** The bytes from `p` up to `q` all give the same checksum, which is not that of the unmodified input. */
  ghost predicate IsRun(cks: seq<int>, exec: int, p: nat, q: nat) {
    p < q <= |cks| && cks[p] != exec && forall k :: p <= k < q ==> cks[k] == cks[p]
  }

  /** A run that cannot be extended on either side. */
  ghost predicate IsMaximalRun(cks: seq<int>, exec: int, p: nat, q: nat) {
    IsRun(cks, exec, p, q) && (p > 0 ==> cks[p - 1] != cks[p]) && (q < |cks| ==> cks[q] != cks[p])
  }

  ghost predicate GoodLength(n: int) {
    MIN_AUTO_EXTRA <= n <= MAX_AUTO_EXTRA
  }

  /** The token at `p..q` is offered: a maximal run of 3 to 32 bytes that ends before `n`. */
  ghost predicate IsToken(buf: Input, cks: seq<int>, exec: int, n: nat, p: nat, q: nat, token: Input) {
    |cks| == |buf| && IsMaximalRun(cks, exec, p, q) && q < n && GoodLength(q - p) && token == buf[p..q]
  }

  /** The tokens offered are exactly those of the maximal runs that end before `n`. */
  ghost predicate Offers(buf: Input, cks: seq<int>, exec: int, n: nat, tokens: seq<Input>) {
    && (forall t :: t in tokens ==> exists p, q :: IsToken(buf, cks, exec, n, p, q, t))
    && (forall p, q, t :: IsToken(buf, cks, exec, n, p, q, t) ==> t in tokens)
  }

  /** The collection before byte `pos`: `a_len` bytes back, the current run began; the first 32 of them are in
      `a_collect`. */
  ghost predicate Collecting(buf: Input, cks: seq<int>, exec: int, pos: nat, prev: int, aLen: nat, collect: Input) {
    && |cks| == |buf| && pos <= |buf| && aLen <= pos
    && prev == (if pos == 0 then exec else cks[pos - 1])
    && (aLen == 0 <==> prev == exec)
    && (aLen > 0 ==> IsRun(cks, exec, pos - aLen, pos) && (pos - aLen > 0 ==> cks[pos - aLen - 1] != prev))
    && collect == buf[pos - aLen..pos - aLen + Min(aLen, MAX_AUTO_EXTRA)]
  }

  /** Two maximal runs that end at the same place are the same. */
  lemma SameEndSameRun(cks: seq<int>, exec: int, p: nat, p': nat, q: nat)
    requires IsMaximalRun(cks, exec, p, q) && IsMaximalRun(cks, exec, p', q)
    ensures p == p'
  {
    assert cks[q - 1] == cks[p] == cks[p'];
  }

  /** No run ends where the checksum is that of the input, or stays the same. */
  lemma NoRunEnds(cks: seq<int>, exec: int, n: nat)
    requires n <= |cks| && (n == 0 || cks[n - 1] == exec || (n < |cks| && cks[n] == cks[n - 1]))
    ensures forall p: nat :: !IsMaximalRun(cks, exec, p, n)
  {
    forall p: nat
      ensures !IsMaximalRun(cks, exec, p, n)
    {
      assert IsRun(cks, exec, p, n) ==> cks[n - 1] == cks[p];
    }
  }

  /** No run of a good length ends at `n`, so there is nothing to offer. */
  lemma OfferNothing(buf: Input, cks: seq<int>, exec: int, n: nat, tokens: seq<Input>)
    requires Offers(buf, cks, exec, n, tokens)
    requires forall p: nat :: IsMaximalRun(cks, exec, p, n) ==> !GoodLength(n - p)
    ensures Offers(buf, cks, exec, n + 1, tokens)
  {
    var m := n + 1;
    forall p: nat, q: nat, t: Input
      ensures IsToken(buf, cks, exec, m, p, q, t) <==> IsToken(buf, cks, exec, n, p, q, t)
    {
    }
  }

  /** The run that ends at `n` is offered. */
  lemma OfferRun(buf: Input, cks: seq<int>, exec: int, p: nat, n: nat, tokens: seq<Input>)
    requires |cks| == |buf| && Offers(buf, cks, exec, n, tokens) && IsMaximalRun(cks, exec, p, n) && GoodLength(n - p)
    ensures Offers(buf, cks, exec, n + 1, tokens + [buf[p..n]])
  {
    var m, all := n + 1, tokens + [buf[p..n]];
    forall t | t in all
      ensures exists p', q :: IsToken(buf, cks, exec, m, p', q, t)
    {
      if t in tokens {
        var p', q :| IsToken(buf, cks, exec, n, p', q, t);
        assert IsToken(buf, cks, exec, m, p', q, t);
      } else {
        assert IsToken(buf, cks, exec, m, p, n, t);
      }
    }
    forall p', q, t | IsToken(buf, cks, exec, m, p', q, t)
      ensures t in all
    {
      if q == n {
        SameEndSameRun(cks, exec, p, p', n);
      } else {
        assert IsToken(buf, cks, exec, n, p', q, t);
      }
    }
  }

  /** The current run ends at `pos` when the checksum changes there, or when the input ends; it is offered if its length
      is right. */
  method Offer(buf: Input, cks: seq<int>, exec: int, pos: nat, prev: int, aLen: nat, collect: Input, tokens: seq<Input>)
    returns (tokens': seq<Input>)
    requires Collecting(buf, cks, exec, pos, prev, aLen, collect) && Offers(buf, cks, exec, pos, tokens)
    requires pos < |buf| ==> cks[pos] != prev
    ensures Offers(buf, cks, exec, pos + 1, tokens')
  {
    tokens' := tokens;
    forall p: nat | IsMaximalRun(cks, exec, p, pos)
      ensures aLen > 0 && p == pos - aLen
    {
      assert cks[pos - 1] == cks[p];
      assert prev != exec;
      SameEndSameRun(cks, exec, p, pos - aLen, pos);
    }
    if MIN_AUTO_EXTRA <= aLen <= MAX_AUTO_EXTRA {
      assert collect == buf[pos - aLen..pos];
      OfferRun(buf, cks, exec, pos - aLen, pos, tokens);
      tokens' := tokens + [collect[..aLen]];
      assert collect[..aLen] == collect;
    } else {
      OfferNothing(buf, cks, exec, pos, tokens);
    }
  }

  /** One more byte of the current run. */
  method Collect(buf: Input, pos: nat, aLen: nat, collect: Input) returns (aLen': nat, collect': Input)
    requires pos < |buf| && aLen <= pos && collect == buf[pos - aLen..pos - aLen + Min(aLen, MAX_AUTO_EXTRA)]
    ensures aLen' == aLen + 1 && collect' == buf[pos - aLen..pos - aLen + Min(aLen + 1, MAX_AUTO_EXTRA)]
  {
    aLen', collect' := aLen + 1, collect;
    if aLen < MAX_AUTO_EXTRA {
      collect' := collect + [buf[pos]];
    }
  }

  /** What happens after byte `pos`, other than at the end of the input. */
  method Step(buf: Input, cks: seq<int>, exec: int, pos: nat, prev: int, aLen: nat, collect: Input, tokens: seq<Input>)
    returns (prev': int, aLen': nat, collect': Input, tokens': seq<Input>)
    requires pos < |buf| && Collecting(buf, cks, exec, pos, prev, aLen, collect) && Offers(buf, cks, exec, pos, tokens)
    ensures Collecting(buf, cks, exec, pos + 1, prev', aLen', collect') && Offers(buf, cks, exec, pos + 1, tokens')
    ensures cks[pos] != prev ==> aLen' <= 1
  {
    if cks[pos] != prev {
      tokens' := Offer(buf, cks, exec, pos, prev, aLen, collect, tokens);
    } else {
      tokens' := tokens;
      NoRunEnds(cks, exec, pos);
      OfferNothing(buf, cks, exec, pos, tokens);
    }
    prev', aLen', collect' := Advance(buf, cks, exec, pos, prev, aLen, collect);
  }

  lemma RunContinues(buf: Input, cks: seq<int>, exec: int, pos: nat, prev: int, aLen: nat, collect: Input)
    requires pos < |buf| && Collecting(buf, cks, exec, pos, prev, aLen, collect) && cks[pos] == prev && prev != exec
    ensures var start := pos - aLen;
            Collecting(buf, cks, exec, pos + 1, prev, aLen + 1, buf[start..start + Min(aLen + 1, MAX_AUTO_EXTRA)])
  {
    assert IsRun(cks, exec, pos - aLen, pos + 1);
  }

  lemma RunStarts(buf: Input, cks: seq<int>, exec: int, pos: nat, prev: int, aLen: nat, collect: Input)
    requires pos < |buf| && Collecting(buf, cks, exec, pos, prev, aLen, collect)
             && (cks[pos] != prev || cks[pos] == exec)
    ensures cks[pos] != exec ==> Collecting(buf, cks, exec, pos + 1, cks[pos], 1, buf[pos..pos + 1])
    ensures cks[pos] == exec ==> Collecting(buf, cks, exec, pos + 1, cks[pos], 0, [])
  {
  }

  /** The collection moves on to the next byte, and starts anew when the checksum changes. */
  method Advance(buf: Input, cks: seq<int>, exec: int, pos: nat, prev: int, aLen: nat, collect: Input)
    returns (prev': int, aLen': nat, collect': Input)
    requires pos < |buf| && Collecting(buf, cks, exec, pos, prev, aLen, collect)
    ensures Collecting(buf, cks, exec, pos + 1, prev', aLen', collect') && (cks[pos] != prev ==> aLen' <= 1)
  {
    prev', aLen', collect' := prev, aLen, collect;
    if cks[pos] != prev {
      aLen', collect', prev' := 0, [], cks[pos];
      RunStarts(buf, cks, exec, pos, prev, aLen, collect);
    } else if cks[pos] != exec {
      RunContinues(buf, cks, exec, pos, prev, aLen, collect);
    } else {
      RunStarts(buf, cks, exec, pos, prev, aLen, collect);
    }
    if cks[pos] != exec {
      aLen', collect' := Collect(buf, pos, aLen', collect');
    }
  }

  /** The last byte, when it continues the current run: it is collected, and the run is offered. */
  method LastStep(buf: Input, cks: seq<int>, exec: int, pos: nat, prev: int, aLen: nat, collect: Input,
                  tokens: seq<Input>)
    returns (tokens': seq<Input>)
    requires pos == |buf| - 1 && Collecting(buf, cks, exec, pos, prev, aLen, collect)
             && Offers(buf, cks, exec, pos, tokens)
    requires cks[pos] == prev
    ensures Offers(buf, cks, exec, |buf| + 1, tokens')
  {
    NoRunEnds(cks, exec, pos);
    OfferNothing(buf, cks, exec, pos, tokens);
    var aLen', collect' := Collect(buf, pos, aLen, collect);
    if prev != exec {
      tokens' := Offer(buf, cks, exec, |buf|, prev, aLen', collect', tokens);
    } else {
      tokens' := tokens;
      NoRunEnds(cks, exec, |buf|);
      OfferNothing(buf, cks, exec, |buf|, tokens);
    }
  }

  /** A run of at most one byte at the end of the input is not offered. */
  lemma NothingAtEnd(buf: Input, cks: seq<int>, exec: int, prev: int, aLen: nat, collect: Input, tokens: seq<Input>)
    requires Collecting(buf, cks, exec, |buf|, prev, aLen, collect) && aLen <= 1
             && Offers(buf, cks, exec, |buf|, tokens)
    ensures Offers(buf, cks, exec, |buf| + 1, tokens)
  {
    forall p: nat | IsMaximalRun(cks, exec, p, |buf|)
      ensures !GoodLength(|buf| - p)
    {
      assert cks[|buf| - 1] == cks[p];
      SameEndSameRun(cks, exec, p, |buf| - aLen, |buf|);
    }
    OfferNothing(buf, cks, exec, |buf|, tokens);
  }

  /** The collection of tokens over a whole stage: `cks` are the checksums after flipping the lowest bit of each byte,
      and `exec` is that of the input. What is offered are exactly the maximal runs of 3 to 32 bytes with one checksum,
      other than `exec`. */
  method AutoTokens(buf: Input, cks: seq<int>, exec: int) returns (tokens: seq<Input>)
    requires |cks| == |buf| > 0
    ensures forall t :: t in tokens ==> exists p: nat, q: nat ::
              IsMaximalRun(cks, exec, p, q) && GoodLength(q - p) && t == buf[p..q]
    ensures forall p: nat, q: nat :: IsMaximalRun(cks, exec, p, q) && GoodLength(q - p) ==> buf[p..q] in tokens
  {
    var prev, aLen, collect := exec, 0, [];
    tokens := [];
    for pos := 0 to |buf|
      invariant pos < |buf| ==>
                  Collecting(buf, cks, exec, pos, prev, aLen, collect) && Offers(buf, cks, exec, pos, tokens)
      invariant pos == |buf| ==> Offers(buf, cks, exec, |buf| + 1, tokens)
    {
      if pos == |buf| - 1 && cks[pos] == prev {
        tokens := LastStep(buf, cks, exec, pos, prev, aLen, collect, tokens);
      } else {
        prev, aLen, collect, tokens := Step(buf, cks, exec, pos, prev, aLen, collect, tokens);
        if pos == |buf| - 1 {
          NothingAtEnd(buf, cks, exec, prev, aLen, collect, tokens);
        }
      }
    }
    OffersAll(buf, cks, exec, tokens);
  }

  lemma OffersAll(buf: Input, cks: seq<int>, exec: int, tokens: seq<Input>)
    requires |cks| == |buf| && Offers(buf, cks, exec, |buf| + 1, tokens)
    ensures forall t :: t in tokens ==> exists p: nat, q: nat ::
              IsMaximalRun(cks, exec, p, q) && GoodLength(q - p) && t == buf[p..q]
    ensures forall p: nat, q: nat :: IsMaximalRun(cks, exec, p, q) && GoodLength(q - p) ==> buf[p..q] in tokens
  {
    var m := |buf| + 1;
    forall t | t in tokens
      ensures exists p: nat, q: nat :: IsMaximalRun(cks, exec, p, q) && GoodLength(q - p) && t == buf[p..q]
    {
      var p, q :| IsToken(buf, cks, exec, m, p, q, t);
    }
    forall p: nat, q: nat | IsMaximalRun(cks, exec, p, q) && GoodLength(q - p)
      ensures buf[p..q] in tokens
    {
      assert IsToken(buf, cks, exec, m, p, q, buf[p..q]);
    }
  }
}
