/** The linked queue of afl-fuzz with its `next_100` skip pointers, and the search for a splicing target. */
module QueueLinks {
  import opened Bytes

  class QueueEntry {
    var len: nat
    var next: QueueEntry?
    var next100: QueueEntry?

    constructor (len: nat)
      ensures this.len == len && next == null && next100 == null
    {
      this.len, next, next100 := len, null, null;
    }
  }

  /** The last multiple of 100 before entry number `n` moves only when `n` is one. */
  lemma StrideStarts(n: nat)
    ensures n > 0 ==> (n - 1) / 100 * 100 == if n % 100 == 0 then n - 100 else n / 100 * 100
  {
  }

  class Queue {
    var queue: QueueEntry?
    var queueTop: QueueEntry?
    var qPrev100: QueueEntry?
    var queuedPaths: nat
    ghost var nodes: seq<QueueEntry> // the entries in order

    /** Entry number `k`, or null past the end. */
    ghost function At(k: nat): QueueEntry?
      reads this
    {
      if k < |nodes| then nodes[k] else null
    }

    /** The entries are distinct and chained from `queue` to `queueTop`. */
    ghost predicate Chained()
      reads this, nodes
    {
      && queuedPaths == |nodes|
      && (forall i, j :: 0 <= i < j < |nodes| ==> nodes[i] != nodes[j])
      && (if nodes == [] then queue == null && queueTop == null
          else queue == nodes[0] && queueTop == nodes[|nodes| - 1])
      && (forall i {:trigger nodes[i].next} :: 0 <= i < |nodes| ==> nodes[i].next == At(i + 1))
    }

    /** Among the first `n` entries, every 100th one knows the next of its kind, and `qPrev100` is the last. */
    ghost predicate Strided(n: nat)
      reads this, nodes
    {
      && n <= |nodes|
      && (n > 0 ==> qPrev100 == nodes[(n - 1) / 100 * 100])
      && (forall i {:trigger nodes[i].next100} :: 0 <= i < n && i % 100 == 0 ==>
            nodes[i].next100 == if i + 100 < n then nodes[i + 100] else null)
    }

    ghost predicate Valid()
      reads this, nodes
    {
      Chained() && Strided(|nodes|)
    }

    constructor ()
      ensures Valid() && nodes == []
    {
      queue, queueTop, qPrev100, queuedPaths := null, null, null, 0;
      nodes := [];
    }

    /** Puts an entry at the end of the chain. */
    method Append(q: QueueEntry)
      requires Valid() && q !in nodes && q.next == null && q.next100 == null
      modifies this, nodes`next
      ensures Chained() && nodes == old(nodes) + [q] && Strided(|nodes| - 1) && (|nodes| == 1 ==> qPrev100 == q)
    {
      if queueTop != null {
        queueTop.next := q;
        queueTop := q;
      } else {
        qPrev100, queue, queueTop := q, q, q;
      }
      queuedPaths := queuedPaths + 1;
      nodes := nodes + [q];
    }

    /** Every 100th entry is linked from the one 100 before. */
    method MarkStride(q: QueueEntry)
      requires Chained() && nodes != [] && q == nodes[|nodes| - 1] && q.next100 == null && Strided(|nodes| - 1)
      requires |nodes| == 1 ==> qPrev100 == q
      modifies this`qPrev100, nodes`next100
      ensures Valid()
    {
      ghost var n := |nodes| - 1;
      StrideStarts(n);
      if (queuedPaths - 1) % 100 == 0 && queuedPaths > 1 {
        assert qPrev100 == nodes[n - 100];
        qPrev100.next100 := q;
        qPrev100 := q;
      }
    }

    /** `add_to_queue`, its linking part: every 100th entry is reachable from the one 100 before. */
    method AddToQueue(len: nat) returns (q: QueueEntry)
      requires Valid()
      modifies this, nodes
      ensures Valid() && fresh(q) && q.len == len
      ensures nodes == old(nodes) + [q]
      ensures forall e :: e in old(nodes) ==> e.len == old(e.len)
    {
      q := new QueueEntry(len);
      Append(q);
      MarkStride(q);
    }

    /** One stride of 100 entries. */
    method Stride(cur: QueueEntry, ghost strides: nat) returns (next: QueueEntry)
      requires Valid() && 100 * (strides + 1) < |nodes| && cur == nodes[100 * strides]
      ensures next == nodes[100 * (strides + 1)]
    {
      assert nodes[100 * strides].next100 == At(100 * strides + 100);
      next := cur.next100;
    }

    method Follow(cur: QueueEntry, ghost at: nat) returns (next: QueueEntry)
      requires Valid() && at + 1 < |nodes| && cur == nodes[at]
      ensures next == nodes[at + 1]
    {
      assert nodes[at].next == At(at + 1);
      next := cur.next;
    }

    /** Follow `next_100` while at least 100 entries are to go. */
    method SeekStrides(tid: nat) returns (target: QueueEntry, rest: nat)
      requires Valid() && tid < queuedPaths
      ensures rest < 100 && rest <= tid && target == nodes[tid - rest]
    {
      rest, target := tid, queue;
      ghost var strides := 0;
      while rest >= 100
        invariant 100 * strides + rest == tid && target == nodes[100 * strides]
      {
        target := Stride(target, strides);
        rest, strides := rest - 100, strides + 1;
      }
    }

    /** Seek to entry number `tid`, in strides of 100 and then one by one. */
    method Seek(tid: nat) returns (target: QueueEntry)
      requires Valid() && tid < queuedPaths
      ensures target == nodes[tid]
    {
      var rest: nat;
      target, rest := SeekStrides(tid);
      while rest > 0
        invariant rest <= tid && target == nodes[tid - rest]
      {
        target := Follow(target, tid - rest);
        rest := rest - 1;
      }
    }

    /** The choice of a splicing target: from entry `tid` on, the first one that has at least two bytes and is not the
        current entry. `splicingWith` is its number; there is no target if the queue ends first. */
    method PickSpliceTarget(tid: nat, queueCur: QueueEntry) returns (target: QueueEntry?, splicingWith: nat)
      requires Valid() && tid < queuedPaths
      ensures tid <= splicingWith <= |nodes|
      ensures target == At(splicingWith)
      ensures target != null ==> target.len >= 2 && target != queueCur
      ensures forall i :: tid <= i < splicingWith ==> nodes[i].len < 2 || nodes[i] == queueCur
    {
      splicingWith := tid;
      target := Seek(tid);
      while target != null && (target.len < 2 || target == queueCur)
        invariant tid <= splicingWith <= |nodes|
        invariant target == At(splicingWith)
        invariant forall i :: tid <= i < splicingWith ==> nodes[i].len < 2 || nodes[i] == queueCur
        decreases |nodes| - splicingWith
      {
        assert target == nodes[splicingWith];
        target := target.next;
        splicingWith := splicingWith + 1;
      }
    }
  }

  /** After any number of additions, seeking to `tid` finds the very entry that was added as number `tid`. */
  method BuildAndSeek(lens: seq<nat>, tid: nat) returns (target: QueueEntry, added: seq<QueueEntry>)
    requires tid < |lens|
    ensures |added| == |lens| && forall i, j :: 0 <= i < j < |added| ==> added[i] != added[j]
    ensures forall i :: 0 <= i < |added| ==> added[i].len == lens[i]
    ensures target == added[tid]
  {
    var q := new Queue();
    added := [];
    for k := 0 to |lens|
      invariant fresh(q) && fresh(q.nodes) && q.Valid() && q.nodes == added && |added| == k
      invariant forall i :: 0 <= i < k ==> added[i].len == lens[i]
    {
      var entry := q.AddToQueue(lens[k]);
      added := added + [entry];
    }
    target := q.Seek(tid);
  }
}
