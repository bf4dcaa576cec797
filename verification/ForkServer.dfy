/** The pipe protocol between afl-fuzz, the fork server inside the target, and the forked children. */
module ForkServer {
  import opened Bytes

  /** A four-byte word on a pipe. The protocol carries bare numbers; the tags say where a word came from and no step
      looks at them. */
  datatype Word = Hello | Request(number: nat, prevTimedOut: bool) | Pid(child: nat) | Status(child: nat, code: int)

  datatype FuzzerAt = AwaitHello | Ready | AwaitPid | AwaitStatus | GaveUp

  datatype ServerAt = Greeting | AwaitRequest | Forking(request: nat) | SendPid | Waiting | SendStatus(code: int) | Dead

  /** A forked child, with the request that caused it. */
  datatype Child = Running(request: nat) | Ended(request: nat, code: int)

  datatype State = State(
    fuzzer: FuzzerAt, server: ServerAt,
    ctl: seq<Word>,       // control pipe, fuzzer to server
    st: seq<Word>,        // status pipe, server to fuzzer
    children: seq<Child>, // in the order of forking
    sent: nat,            // requests written
    pids: seq<Word>,      // words that the fuzzer took for pids
    statuses: seq<Word>)  // words that the fuzzer took for statuses

  datatype Step =
    | ServerHello | ServerRead | ServerFork | ServerForkFails | ServerSendPid | ServerReap | ServerWaitFails
    | ServerSendStatus
    | ReadHello | WriteRequest(prevTimedOut: bool) | ReadPid | ReadStatus | ReadFails
    | ChildEnds(child: nat, code: int) // on its own, or killed by the timer of the fuzzer

  const START := State(AwaitHello, Greeting, [], [], [], 0, [], [])

  predicate Enabled(s: State, step: Step) {
    match step
    case ServerHello => s.server.Greeting?
    case ServerRead => s.server.AwaitRequest? && s.ctl != []
    case ServerFork => s.server.Forking?
    case ServerForkFails => s.server.Forking?
    case ServerSendPid => s.server.SendPid? && s.children != []
    case ServerReap => s.server.Waiting? && s.children != [] && s.children[|s.children| - 1].Ended?
    case ServerWaitFails => s.server.Waiting?
    case ServerSendStatus => s.server.SendStatus? && s.children != []
    case ReadHello => s.fuzzer.AwaitHello? && s.st != []
    case WriteRequest(_) => s.fuzzer.Ready?
    case ReadPid => s.fuzzer.AwaitPid? && s.st != []
    case ReadStatus => s.fuzzer.AwaitStatus? && s.st != []
    case ReadFails => (s.fuzzer.AwaitPid? || s.fuzzer.AwaitStatus?) && s.st == [] && s.server.Dead?
    case ChildEnds(k, _) => k < |s.children| && s.children[k].Running?
  }

  function Apply(s: State, step: Step): State
    requires Enabled(s, step)
  {
    match step
    case ServerHello => s.(server := AwaitRequest, st := s.st + [Hello])
    case ServerRead => s.(server := Forking(if s.ctl[0].Request? then s.ctl[0].number else 0), ctl := s.ctl[1..])
    case ServerFork => s.(server := SendPid, children := s.children + [Running(s.server.request)])
    case ServerForkFails => s.(server := Dead)
    case ServerSendPid => s.(server := Waiting, st := s.st + [Pid(|s.children| - 1)])
    case ServerReap => s.(server := SendStatus(s.children[|s.children| - 1].code))
    case ServerWaitFails => s.(server := Dead)
    case ServerSendStatus => s.(server := AwaitRequest, st := s.st + [Status(|s.children| - 1, s.server.code)])
    case ReadHello => s.(fuzzer := Ready, st := s.st[1..])
    case WriteRequest(p) => s.(fuzzer := AwaitPid, ctl := s.ctl + [Request(s.sent, p)], sent := s.sent + 1)
    case ReadPid => s.(fuzzer := AwaitStatus, pids := s.pids + [s.st[0]], st := s.st[1..])
    case ReadStatus => s.(fuzzer := Ready, statuses := s.statuses + [s.st[0]], st := s.st[1..])
    case ReadFails => s.(fuzzer := GaveUp)
    case ChildEnds(k, code) => s.(children := s.children[k := Ended(s.children[k].request, code)])
  }

  // ----- the invariant -----

  /** Child `k` was forked for request `k`. */
  ghost predicate ChildrenOk(s: State) {
    forall k :: 0 <= k < |s.children| ==> s.children[k].request == k
  }

  /** The words that the fuzzer has read so far are what it takes them for. */
  ghost predicate ReadsOk(s: State) {
    && (forall k :: 0 <= k < |s.pids| ==> s.pids[k] == Pid(k) && k < |s.children|)
    && (forall k :: 0 <= k < |s.statuses| ==> StatusOk(s, k, s.statuses[k]))
  }

  /** Word `w` is the exit status of child `k`. */
  ghost predicate StatusOk(s: State, k: nat, w: Word) {
    w.Status? && w.child == k && k < |s.children| && s.children[k] == Ended(k, w.code)
  }

  /** The phase of the exchange: what the pipes hold, by the positions of the two sides. `n` exchanges are complete. */
  ghost predicate PhaseOk(s: State, n: nat) {
    && |s.statuses| == n
    && match s.fuzzer
       case AwaitHello =>
         && n == 0 && s.sent == 0 && s.children == [] && s.pids == [] && s.ctl == []
         && ((s.server.Greeting? && s.st == []) || (s.server.AwaitRequest? && s.st == [Hello]))
       case Ready =>
         s.sent == n && |s.pids| == n && |s.children| == n && s.ctl == [] && s.st == [] && s.server.AwaitRequest?
       case AwaitPid =>
         && s.sent == n + 1 && |s.pids| == n
         && match s.server {
              case AwaitRequest =>
                || (|s.children| == n && s.st == [] && |s.ctl| == 1 && s.ctl[0].Request? && s.ctl[0].number == n)
                || (|s.children| == n + 1 && s.ctl == [] && |s.st| == 2 && s.st[0] == Pid(n) && StatusOk(s, n, s.st[1]))
              case Forking(r) => |s.children| == n && s.ctl == [] && s.st == [] && r == n
              case Dead =>
                s.ctl == [] && ((|s.children| == n && s.st == []) || (|s.children| == n + 1 && s.st == [Pid(n)]))
              case SendPid => |s.children| == n + 1 && s.ctl == [] && s.st == []
              case Waiting => |s.children| == n + 1 && s.ctl == [] && s.st == [Pid(n)]
              case SendStatus(c) =>
                |s.children| == n + 1 && s.ctl == [] && s.st == [Pid(n)] && s.children[n] == Ended(n, c)
              case Greeting => false
            }
       case AwaitStatus =>
         && s.sent == n + 1 && |s.pids| == n + 1 && |s.children| == n + 1 && s.ctl == []
         && match s.server {
              case Waiting => s.st == []
              case SendStatus(c) => s.st == [] && s.children[n] == Ended(n, c)
              case AwaitRequest => |s.st| == 1 && StatusOk(s, n, s.st[0])
              case Dead => s.st == []
              case _ => false
            }
       case GaveUp =>
         && s.sent == n + 1 && n <= |s.pids| == |s.children| <= n + 1
         && s.server.Dead? && s.ctl == [] && s.st == []
  }

  ghost predicate Inv(s: State) {
    ChildrenOk(s) && ReadsOk(s) && PhaseOk(s, |s.statuses|)
  }

  predicate IsServerStep(step: Step) {
    || step.ServerHello? || step.ServerRead? || step.ServerFork? || step.ServerForkFails?
    || step.ServerSendPid? || step.ServerReap? || step.ServerWaitFails? || step.ServerSendStatus?
  }

  lemma ServerStepKeepsInv(s: State, step: Step)
    requires Inv(s) && Enabled(s, step) && IsServerStep(step)
    ensures Inv(Apply(s, step))
  {
  }

  lemma ChildStepKeepsInv(s: State, step: Step)
    requires Inv(s) && Enabled(s, step) && step.ChildEnds?
    ensures Inv(Apply(s, step))
  {
  }

  lemma FuzzerStepKeepsInv(s: State, step: Step)
    requires Inv(s) && Enabled(s, step) && !IsServerStep(step) && !step.ChildEnds?
    ensures Inv(Apply(s, step))
  {
  }

  // ----- every run -----

  predicate IsRun(s: State, steps: seq<Step>)
    decreases |steps|
  {
    steps == [] || (Enabled(s, steps[0]) && IsRun(Apply(s, steps[0]), steps[1..]))
  }

  function After(s: State, steps: seq<Step>): State
    requires IsRun(s, steps)
    decreases |steps|
  {
    if steps == [] then s else After(Apply(s, steps[0]), steps[1..])
  }

  lemma {:induction false} RunKeepsInv(s: State, steps: seq<Step>)
    requires Inv(s) && IsRun(s, steps)
    ensures Inv(After(s, steps))
    decreases |steps|
  {
    if steps != [] {
      if IsServerStep(steps[0]) {
        ServerStepKeepsInv(s, steps[0]);
      } else if steps[0].ChildEnds? {
        ChildStepKeepsInv(s, steps[0]);
      } else {
        FuzzerStepKeepsInv(s, steps[0]);
      }
      RunKeepsInv(Apply(s, steps[0]), steps[1..]);
    }
  }

  /** In every interleaving the k-th pid and the k-th status that the fuzzer reads belong to the child forked for its
      k-th request, and at most one request and two replies are in flight. */
  lemma {:induction false} RepliesMatchRequests(steps: seq<Step>)
    requires IsRun(START, steps)
    ensures var s := After(START, steps);
            && (forall k :: 0 <= k < |s.pids| ==>
                  k < |s.children| && s.pids[k] == Pid(k) && s.children[k].request == k)
            && (forall k :: 0 <= k < |s.statuses| ==>
                  k < |s.children| && s.children[k].Ended? && s.statuses[k] == Status(k, s.children[k].code))
            && |s.statuses| <= |s.pids| <= s.sent <= |s.statuses| + 1
            && |s.ctl| <= 1 && |s.st| <= 2 && (s.ctl == [] || s.st == [])
  {
    RunKeepsInv(START, steps);
    var s := After(START, steps);
    forall k | 0 <= k < |s.statuses|
      ensures k < |s.children| && s.children[k].Ended? && s.statuses[k] == Status(k, s.children[k].code)
    {
      assert StatusOk(s, k, s.statuses[k]);
    }
  }

  // ----- progress -----

  /** The server waits for a child that still runs. */
  predicate AwaitsChild(s: State) {
    s.server.Waiting? && s.children != [] && s.children[|s.children| - 1].Running?
  }

  lemma StepToTake(s: State) returns (step: Step)
    requires Inv(s) && !s.fuzzer.GaveUp? && !AwaitsChild(s)
    ensures Enabled(s, step) && !step.ChildEnds?
  {
    match s.fuzzer
    case AwaitHello => step := if s.server.Greeting? then ServerHello else ReadHello;
    case Ready => step := WriteRequest(false);
    case AwaitPid =>
      step := if s.st != [] then ReadPid
              else if s.server.AwaitRequest? then ServerRead
              else if s.server.Forking? then ServerFork
              else if s.server.SendPid? then ServerSendPid
              else ReadFails;
    case AwaitStatus =>
      step := if s.st != [] then ReadStatus
              else if s.server.Waiting? then ServerReap
              else if s.server.Dead? then ReadFails
              else ServerSendStatus;
  }

  /** In every reachable state the fuzzer or the server can move, unless the fuzzer has given up on a dead server or the
      server waits for a child that still runs. In particular the two never wait for each other on empty pipes. */
  lemma {:induction false} NeverStuck(steps: seq<Step>)
    requires IsRun(START, steps)
    ensures var s := After(START, steps);
            s.fuzzer.GaveUp? || AwaitsChild(s) || exists step: Step :: !step.ChildEnds? && Enabled(s, step)
  {
    RunKeepsInv(START, steps);
    var s := After(START, steps);
    if !s.fuzzer.GaveUp? && !AwaitsChild(s) {
      var step := StepToTake(s);
    }
  }

  /** How many more steps of fuzzer and server, at most, the current exchange takes. */
  function Remaining(s: State): nat {
    match s.fuzzer
    case AwaitHello => if s.server.Greeting? then 2 else 1
    case Ready => 0
    case GaveUp => 0
    case AwaitPid => 1 + Remaining'(s)
    case AwaitStatus => Remaining'(s)
  }

  function Remaining'(s: State): nat {
    match s.server
    case AwaitRequest => if s.ctl != [] then 6 else 1
    case Forking(_) => 5
    case SendPid => 4
    case Waiting => 3
    case SendStatus(_) => 2
    case Dead => 1
    case Greeting => 0
  }

  /** Every step of either side brings the exchange closer to its end, so a request is answered, or the fuzzer gives up,
      after at most seven of them. */
  lemma {:induction false} ExchangeEnds(steps: seq<Step>, step: Step)
    requires IsRun(START, steps) && Enabled(After(START, steps), step) && !step.ChildEnds?
    ensures var s := After(START, steps);
            && Remaining(s) <= 7
            && (!step.WriteRequest? ==> Remaining(Apply(s, step)) < Remaining(s))
            && (step.WriteRequest? ==> Remaining(Apply(s, step)) == 7)
  {
    RunKeepsInv(START, steps);
  }
}
