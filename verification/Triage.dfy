/** What afl-fuzz does with the outcome of one execution: `save_if_interesting`. */
module Triage {
  import opened Bytes
  import opened Coverage

  const KEEP_UNIQUE_HANG := 500
  const KEEP_UNIQUE_CRASH := 5000

  datatype Fault = NoFault | Timeout | Crash | ExecError

  /** The answer to the caller; `Fatal` ends the fuzzer. */
  datatype Verdict = Fatal | Keeping(yes: bool)

  /** The trace shows a bit that no trace in the log showed. */
  ghost predicate Novel(log: seq<Trace>, t: Trace)
    requires SameSize(|t|, log)
  {
    exists i :: 0 <= i < |t| && NewBits(log, t, i)
  }

  /** The trace hits a tuple no trace in the log hit, or misses one that all of them hit. */
  ghost predicate Unique(log: seq<Trace>, t: Trace)
    requires SameSize(|t|, log)
  {
    exists i :: 0 <= i < |t| && NewOutcome(log, t, i)
  }

  lemma {:induction false} LogGrows(n: nat, log: seq<Trace>, t: Trace)
    requires SameSize(n, log) && |t| == n
    ensures SameSize(n, log + [t]) && VirginAfter(n, log + [t]) == Clear(VirginAfter(n, log), t)
  {
    assert (log + [t])[..|log|] == log;
  }

  lemma {:induction false} SimplifiedLogGrows(n: nat, log: seq<Trace>, t: Trace)
    requires SameSize(n, log) && |t| == n
    ensures SameSize(n, log + [t]) && SameSize(n, SimplifyAll(log)) && SameSize(n, SimplifyAll(log + [t]))
    ensures VirginAfter(n, SimplifyAll(log + [t])) == Clear(VirginAfter(n, SimplifyAll(log)), Simplify(t))
  {
    assert SimplifyAll(log + [t]) == SimplifyAll(log) + [Simplify(t)];
    LogGrows(n, SimplifyAll(log), Simplify(t));
  }

  /** The map is what a log of simplified traces leaves of an all-ones map. */
  ghost predicate RecordsSimplified(cells: Trace, log: seq<Trace>) {
    SameSize(|cells|, log) && SameSize(|cells|, SimplifyAll(log)) && cells == VirginAfter(|cells|, SimplifyAll(log))
  }

  /** `simplify_trace` followed by `has_new_bits` on the crash or hang map. */
  method CheckUnique(traceBits: array<Cell>, virgin: array<Cell>, w: nat, ghost log: seq<Trace>) returns (isNew: bool)
    requires (w == 4 || w == 8) && traceBits != virgin
    requires traceBits.Length == virgin.Length && virgin.Length % 8 == 0
    requires RecordsSimplified(virgin[..], log)
    modifies traceBits, virgin
    ensures RecordsSimplified(virgin[..], log + [old(traceBits[..])])
    ensures SameSize(traceBits.Length, log) && isNew == Unique(log, old(traceBits[..]))
  {
    ghost var t := traceBits[..];
    SimplifyTrace(traceBits, w);
    var hnb := HasNewBits(traceBits, virgin, w);
    isNew := hnb != 0;
    UniqueMeansNewOutcome(log, t);
    SimplifiedLogGrows(|t|, log, t);
  }

  /** What the crash branch makes of the saved crashes and of the record of checked ones. */
  ghost predicate CrashKept(dumbMode: bool, mem: Input, t: Trace, crashes: seq<Input>, log: seq<Trace>,
                            crashes': seq<Input>, log': seq<Trace>)
    requires SameSize(|t|, log)
  {
    if |crashes| >= 5000 then crashes' == crashes && log' == log
    else if dumbMode then crashes' == crashes + [mem] && log' == log
    else log' == log + [t] && crashes' == crashes + if Unique(log, t) then [mem] else []
  }

  /** Below the cap, a hang is new if it is unique among those checked, or if nothing is checked. */
  ghost predicate IsNewHang(dumbMode: bool, hangs: seq<Input>, log: seq<Trace>, t: Trace)
    requires SameSize(|t|, log)
  {
    |hangs| < 500 && (dumbMode || Unique(log, t))
  }

  /** Below the cap, and unless nothing is checked, the trace is put on record. */
  ghost function Checked(dumbMode: bool, hangs: seq<Input>, t: Trace): seq<Trace> {
    if |hangs| < 500 && !dumbMode then [t] else []
  }

  class Fuzzer {
    const wordSize: nat
    const crashMode: bool // explore crashes instead of normal exits
    const dumbMode: bool
    const rerunHangs: bool // the run timeout is below the hang timeout
    const traceBits: array<Cell>
    const virginBits: array<Cell>
    const virginTmout: array<Cell>
    const virginCrash: array<Cell>
    var queue: seq<Input>
    var crashes: seq<Input>
    var hangs: seq<Input>
    var queuedWithCov: nat
    var totalCrashes: nat
    var totalTmouts: nat
    var uniqueTmouts: nat
    ghost var seen: seq<Trace>     // traces checked against virginBits
    ghost var crashLog: seq<Trace> // crash traces checked against virginCrash
    ghost var hangLog: seq<Trace>  // hang traces checked against virginTmout

    ghost predicate Wired()
      reads this
    {
      && (wordSize == 4 || wordSize == 8) && traceBits.Length % 8 == 0
      && virginBits.Length == virginTmout.Length == virginCrash.Length == traceBits.Length
      && traceBits !in {virginBits, virginTmout, virginCrash}
      && virginBits !in {virginTmout, virginCrash} && virginTmout != virginCrash
    }

    ghost predicate Valid()
      reads this, virginBits, virginTmout, virginCrash
    {
      && Wired()
      && SameSize(traceBits.Length, seen) && virginBits[..] == VirginAfter(traceBits.Length, seen)
      && RecordsSimplified(virginCrash[..], crashLog)
      && RecordsSimplified(virginTmout[..], hangLog)
    }

    constructor (mapSize: nat, wordSize: nat, crashMode: bool, dumbMode: bool, rerunHangs: bool)
      requires mapSize % 8 == 0 && (wordSize == 4 || wordSize == 8)
      ensures Valid() && traceBits.Length == mapSize
      ensures fresh(traceBits) && fresh(virginBits) && fresh(virginTmout) && fresh(virginCrash)
      ensures queue == crashes == hangs == [] && seen == crashLog == hangLog == []
    {
      this.wordSize, this.crashMode, this.dumbMode, this.rerunHangs := wordSize, crashMode, dumbMode, rerunHangs;
      traceBits := new Cell[mapSize](_ => 0);
      var vb := new Cell[mapSize](_ => 0xff);
      var vt := new Cell[mapSize](_ => 0xff);
      var vc := new Cell[mapSize](_ => 0xff);
      virginBits, virginTmout, virginCrash := vb, vt, vc;
      queue, crashes, hangs := [], [], [];
      queuedWithCov, totalCrashes, totalTmouts, uniqueTmouts := 0, 0, 0, 0;
      seen, crashLog, hangLog := [], [], [];
      new;
      assert vb[..] == vt[..] == vc[..] == VirginAfter(mapSize, []);
      assert SimplifyAll([]) == [];
    }

    /** The crash branch: below the cap, a crash is saved exactly when it is unique among those checked so far. */
    method KeepAsCrash(mem: Input)
      requires Valid()
      modifies this`totalCrashes, this`crashes, this`crashLog, traceBits, virginCrash
      ensures Valid() && totalCrashes == old(totalCrashes) + 1
      ensures CrashKept(dumbMode, mem, old(traceBits[..]), old(crashes), old(crashLog), crashes, crashLog)
    {
      totalCrashes := totalCrashes + 1;
      if |crashes| < KEEP_UNIQUE_CRASH {
        if !dumbMode {
          ghost var t := traceBits[..];
          var isNew := CheckUnique(traceBits, virginCrash, wordSize, crashLog);
          crashLog := crashLog + [t];
          if !isNew {
            return;
          }
        }
        crashes := crashes + [mem];
      }
    }

    /** The hang branch. `rerun` is what a second run with the generous timeout gives; a hang that turns out to crash
        is handled as a crash, one that turns out to end is dropped. */
    method KeepAsHang(mem: Input, rerun: (Fault, Trace), stopSoon: bool)
      requires Valid() && |rerun.1| == traceBits.Length
      modifies this`totalTmouts, this`uniqueTmouts, this`hangs, this`hangLog, this`totalCrashes, this`crashes,
               this`crashLog, traceBits, virginTmout, virginCrash
      ensures Valid() && totalTmouts == old(totalTmouts) + 1
      ensures var isNew := IsNewHang(dumbMode, old(hangs), old(hangLog), old(traceBits[..]));
              && uniqueTmouts == old(uniqueTmouts) + (if isNew then 1 else 0)
              && hangLog == old(hangLog) + Checked(dumbMode, old(hangs), old(traceBits[..]))
              && hangs == old(hangs) + (if isNew && IsConfirmed(rerun.0, stopSoon) then [mem] else [])
              && HangCrashKept(isNew, mem, rerun, stopSoon, old(totalCrashes), old(crashes), old(crashLog))
    {
      totalTmouts := totalTmouts + 1;
      if |hangs| >= KEEP_UNIQUE_HANG {
        return;
      }
      if !dumbMode {
        ghost var t := traceBits[..];
        var isNew := CheckUnique(traceBits, virginTmout, wordSize, hangLog);
        hangLog := hangLog + [t];
        if !isNew {
          return;
        }
      }
      uniqueTmouts := uniqueTmouts + 1;
      KeepNewHang(mem, rerun, stopSoon);
    }

    /** A new hang: run again if the timeout was short, and saved if the second run hangs too. */
    method KeepNewHang(mem: Input, rerun: (Fault, Trace), stopSoon: bool)
      requires Valid() && |rerun.1| == traceBits.Length
      modifies this`hangs, this`totalCrashes, this`crashes, this`crashLog, traceBits, virginCrash
      ensures Valid() && hangs == old(hangs) + (if IsConfirmed(rerun.0, stopSoon) then [mem] else [])
      ensures HangCrashKept(true, mem, rerun, stopSoon, old(totalCrashes), old(crashes), old(crashLog))
    {
      if rerunHangs {
        SetTrace(rerun.1);
        if !stopSoon && rerun.0 == Crash {
          KeepAsCrash(mem);
          return;
        }
        if stopSoon || rerun.0 != Timeout {
          return;
        }
      }
      hangs := hangs + [mem];
    }

    /** A hang that the second run confirms, if there is one. */
    ghost predicate IsConfirmed(fault: Fault, stopSoon: bool) {
      !rerunHangs || (!stopSoon && fault == Timeout)
    }

    /** What a hang makes of the saved crashes: something only if it is new and the second run crashes. */
    ghost predicate HangCrashKept(isNew: bool, mem: Input, rerun: (Fault, Trace), stopSoon: bool,
                                  total: nat, crashes0: seq<Input>, log: seq<Trace>)
      requires SameSize(|rerun.1|, log)
      reads this
    {
      if isNew && rerunHangs && !stopSoon && rerun.0 == Crash
      then totalCrashes == total + 1 && CrashKept(dumbMode, mem, rerun.1, crashes0, log, crashes, crashLog)
      else totalCrashes == total && crashes == crashes0 && crashLog == log
    }

    /** The target has run and left `t` in the shared map. */
    method SetTrace(t: Trace)
      requires |t| == traceBits.Length
      modifies traceBits
      ensures traceBits[..] == t
    {
      for k := 0 to |t|
        invariant traceBits[..k] == t[..k]
      {
        traceBits[k] := t[k];
      }
    }

    /** An outcome of the explored kind: it is queued exactly when its trace is novel. */
    method KeepIfNovel(mem: Input) returns (kept: bool)
      requires Valid()
      modifies this`queue, this`queuedWithCov, this`seen, virginBits
      ensures Valid() && kept == Novel(old(seen), old(traceBits[..]))
      ensures queue == (if kept then old(queue) + [mem] else old(queue)) && seen == old(seen) + [old(traceBits[..])]
    {
      ghost var t := traceBits[..];
      NoveltyAgainstHistory(seen, t);
      LogGrows(|t|, seen, t);
      var hnb := HasNewBits(traceBits, virginBits, wordSize);
      seen := seen + [t];
      kept := hnb != 0;
      if kept {
        queue := queue + [mem];
        if hnb == 2 {
          queuedWithCov := queuedWithCov + 1;
        }
      }
    }

    /** What follows for the outcome itself: hangs and crashes are recorded. */
    method KeepFault(mem: Input, fault: Fault, rerun: (Fault, Trace), stopSoon: bool)
      requires Valid() && |rerun.1| == traceBits.Length
      modifies this`totalTmouts, this`uniqueTmouts, this`hangs, this`hangLog, this`totalCrashes, this`crashes,
               this`crashLog, traceBits, virginTmout, virginCrash
      ensures Valid()
      ensures HangRecords(fault, mem, rerun, stopSoon, old(totalTmouts), old(uniqueTmouts), old(hangs), old(hangLog),
                          old(traceBits[..]))
      ensures CrashRecords(fault, mem, rerun, stopSoon, old(hangs), old(hangLog), old(totalCrashes), old(crashes),
                           old(crashLog), old(traceBits[..]))
    {
      match fault
      case Timeout =>
        KeepAsHang(mem, rerun, stopSoon);
      case Crash =>
        KeepAsCrash(mem);
      case ExecError =>
      case NoFault =>
    }

    /** What an outcome makes of the records of hangs. */
    ghost predicate HangRecords(fault: Fault, mem: Input, rerun: (Fault, Trace), stopSoon: bool,
                                total: nat, unique: nat, hangs0: seq<Input>, log: seq<Trace>, t: Trace)
      requires SameSize(|t|, log)
      reads this
    {
      if fault == Timeout
      then var isNew := IsNewHang(dumbMode, hangs0, log, t);
           && totalTmouts == total + 1 && uniqueTmouts == unique + (if isNew then 1 else 0)
           && hangLog == log + Checked(dumbMode, hangs0, t)
           && hangs == hangs0 + (if isNew && IsConfirmed(rerun.0, stopSoon) then [mem] else [])
      else totalTmouts == total && uniqueTmouts == unique && hangs == hangs0 && hangLog == log
    }

    /** What an outcome makes of the records of crashes. */
    ghost predicate CrashRecords(fault: Fault, mem: Input, rerun: (Fault, Trace), stopSoon: bool, hangs0: seq<Input>,
                                 hangLog0: seq<Trace>, total: nat, crashes0: seq<Input>, log: seq<Trace>, t: Trace)
      requires SameSize(|t|, log) && SameSize(|t|, hangLog0) && |t| == |rerun.1|
      reads this
    {
      match fault
      case Crash => totalCrashes == total + 1 && CrashKept(dumbMode, mem, t, crashes0, log, crashes, crashLog)
      case Timeout =>
        HangCrashKept(IsNewHang(dumbMode, hangs0, hangLog0, t), mem, rerun, stopSoon, total, crashes0, log)
      case _ => totalCrashes == total && crashes == crashes0 && crashLog == log
    }

    /** `save_if_interesting`: an outcome of the explored kind is queued exactly when its trace is novel; unless it is
        of that kind and not novel, it is then recorded as a hang or a crash. */
    method SaveIfInteresting(mem: Input, fault: Fault, rerun: (Fault, Trace), stopSoon: bool) returns (r: Verdict)
      requires Valid() && |rerun.1| == traceBits.Length
      modifies this, traceBits, virginBits, virginTmout, virginCrash
      ensures Valid()
      ensures var t := old(traceBits[..]);
              var explored := fault == (if crashMode then Crash else NoFault);
              var kept := explored && Novel(old(seen), t);
              && r == (if fault == ExecError then Fatal else Keeping(kept))
              && queue == old(queue) + (if kept then [mem] else [])
              && seen == old(seen) + (if explored then [t] else [])
              && (if explored && !kept
                  then && SameHangs(old(totalTmouts), old(uniqueTmouts), old(hangs), old(hangLog))
                       && totalCrashes == old(totalCrashes) + (if crashMode then 1 else 0)
                       && crashes == old(crashes) && crashLog == old(crashLog)
                  else && HangRecords(fault, mem, rerun, stopSoon, old(totalTmouts), old(uniqueTmouts), old(hangs),
                                      old(hangLog), t)
                       && CrashRecords(fault, mem, rerun, stopSoon, old(hangs), old(hangLog), old(totalCrashes),
                                       old(crashes), old(crashLog), t))
    {
      var keeping := false;
      if fault == (if crashMode then Crash else NoFault) {
        keeping := KeepIfNovel(mem);
        if !keeping {
          if crashMode {
            totalCrashes := totalCrashes + 1;
          }
          return Keeping(false);
        }
      }
      KeepFault(mem, fault, rerun, stopSoon);
      return if fault == ExecError then Fatal else Keeping(keeping);
    }

    ghost predicate SameHangs(total: nat, unique: nat, hangs0: seq<Input>, log: seq<Trace>)
      reads this
    {
      totalTmouts == total && uniqueTmouts == unique && hangs == hangs0 && hangLog == log
    }
  }
}
