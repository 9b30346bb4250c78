/** What the wait protocol of `ScriptBridge` guarantees over whole runs: who can
    wait for whom, which waits of the main thread end, and that every reply
    reaches the request it answers. */
module ScriptWaits {
  import opened Memory
  import opened ScriptBridge

  // ----- What a wait is waiting for ---------------------------------------------

  function AsksOf(c: Command): nat {
    if c.RunScript? then c.asks else 0
  }

  /** Replying host calls of the scripts queued ahead of `c`. */
  function AsksAhead(commands: seq<Command>, c: Command): nat
    decreases |commands|
  {
    if commands == [] || commands[0] == c then 0 else AsksOf(commands[0]) + AsksAhead(commands[1..], c)
  }

  function TotalAsks(commands: seq<Command>): nat
    decreases |commands|
  {
    if commands == [] then 0 else AsksOf(commands[0]) + TotalAsks(commands[1..])
  }

  /** Host calls the running script still needs the main thread for. */
  function InFlight(w: Worker, replies: map<nat, nat>): nat {
    match w
    case Busy(Script(n)) => n
    case Waiting(Script(n), id) => if id in replies then n else n + 1
    case _ => 0
  }

  /** Host calls that must be served before the worker gets to `c`. */
  function Pending(s: State, c: Command): nat {
    if c in s.commands then InFlight(s.worker, s.replies) + AsksAhead(s.commands, c) else 0
  }

  /** The command whose handling ends the main thread's wait. */
  function Awaited(m: MainThread): Option<Command> {
    match m
    case Awaiting(t) => Some(ResolveClass(t))
    case Joining => Some(Shutdown)
    case _ => None
  }

  predicate Blocked(s: State) {
    Awaited(s.main).Some?
  }

  /** Whether the blocked main thread could return now. */
  predicate Ready(s: State) {
    match s.main
    case Awaiting(t) => Returns(s, t)
    case Joining => s.worker.Exited?
    case _ => true
  }

  // ----- Facts from the invariant --------------------------------------------------

  /** A command that is still queued has not been answered, and the worker lives. */
  lemma QueuedIsUnanswered(s: State, t: nat)
    requires Inv(s) && ResolveClass(t) in s.commands
    ensures !Returns(s, t) && Handled(s.worker) != Some(t)
  {
    var k :| 0 <= k < |s.commands| && s.commands[k] == ResolveClass(t);
    assert t >= s.taken;
  }

  /** A ticket is answered, being handled, or queued. */
  lemma TicketIsSomewhere(s: State, t: nat)
    requires Inv(s) && t < s.tickets && !Returns(s, t)
    ensures Handled(s.worker) == Some(t) || ResolveClass(t) in s.commands
  {
  }

  lemma NotReady(s: State, c: Command)
    requires Inv(s) && Awaited(s.main) == Some(c)
    ensures c in s.commands ==> !Ready(s)
    ensures !Ready(s) ==> c in s.commands || (c.ResolveClass? && Handled(s.worker) == Some(c.ticket))
  {
    if c in s.commands && c.ResolveClass? {
      QueuedIsUnanswered(s, c.ticket);
    }
    if !Ready(s) && c.ResolveClass? {
      TicketIsSomewhere(s, c.ticket);
    }
  }

  /** A taken command does not occur again behind itself. */
  lemma TakenOnce(s: State)
    requires Inv(s) && s.commands != [] && s.commands[0].ResolveClass?
    ensures s.commands[0] !in s.commands[1..]
  {
  }

  lemma {:induction false} AsksAheadAppend(commands: seq<Command>, x: Command, c: Command)
    requires c in commands
    ensures AsksAhead(commands + [x], c) == AsksAhead(commands, c)
    decreases |commands|
  {
    assert (commands + [x])[0] == commands[0];
    if commands[0] != c {
      Popped(commands, c);
      assert (commands + [x])[1..] == commands[1..] + [x];
      AsksAheadAppend(commands[1..], x, c);
    }
  }

  lemma {:induction false} AsksAheadAll(commands: seq<Command>, c: Command)
    requires c !in commands
    ensures AsksAhead(commands + [c], c) == TotalAsks(commands)
    decreases |commands|
  {
    if commands != [] {
      assert (commands + [c])[1..] == commands[1..] + [c];
      AsksAheadAll(commands[1..], c);
    }
  }

  // ----- While the main thread is blocked, what is pending stays pending -------------

  lemma ReceiveKeepsPending(s: State, c: Command)
    requires Inv(s) && Awaited(s.main) == Some(c) && Take(s, Receive).Some?
    ensures Pending(Take(s, Receive).value, c) == Pending(s, c)
  {
    var s' := Take(s, Receive).value;
    Popped(s.commands, c);
    if s.commands[0] == c && c.ResolveClass? {
      TakenOnce(s);
    }
  }

  /** The main thread is what serves host calls; while it waits, none is served. */
  lemma PendingStands(s: State, a: Action, c: Command)
    requires Inv(s) && Awaited(s.main) == Some(c) && Take(s, a).Some? && Take(s, a).value.main == s.main
    ensures Pending(Take(s, a).value, c) == Pending(s, c)
  {
    var s' := Take(s, a).value;
    if a.Receive? {
      ReceiveKeepsPending(s, c);
    } else if a.OtherResolve? {
      if c in s.commands {
        AsksAheadAppend(s.commands, ResolveClass(s.tickets), c);
      }
    } else {
      StaysPut(s, a);
    }
  }

  lemma StaysPut(s: State, a: Action)
    requires Inv(s) && Blocked(s) && Take(s, a).Some? && Take(s, a).value.main == s.main
    requires !a.Receive? && !a.OtherResolve?
    ensures var s' := Take(s, a).value;
            s'.commands == s.commands && InFlight(s'.worker, s'.replies) == InFlight(s.worker, s.replies)
  {
    assert HostSide(s);
  }

  // ----- How far the worker is from a command ------------------------------------------

  function WorkerWork(w: Worker): nat {
    match w
    case Idle => 0
    case Fetched(_) => 3
    case Busy(act) => if act.Script? then 1 + 2 * act.asks else 2
    case Waiting(act, _) => if act.Script? then 2 + 2 * act.asks else 0
    case Answering(_, _) => 1
    case Exited => 0
  }

  function CommandWork(c: Command): nat {
    match c
    case RunScript(n) => 2 + 2 * n
    case ResolveClass(_) => 4
    case Shutdown => 1
  }

  /** Work queued up to and including `c`. */
  function WorkUpTo(commands: seq<Command>, c: Command): nat
    decreases |commands|
  {
    if commands == [] then 0
    else CommandWork(commands[0]) + if commands[0] == c then 0 else WorkUpTo(commands[1..], c)
  }

  /** Worker steps before `c` is done with, log lines and refused calls aside. */
  function Work(s: State, c: Command): nat {
    if c in s.commands then WorkerWork(s.worker) + WorkUpTo(s.commands, c)
    else if c.ResolveClass? && Handled(s.worker) == Some(c.ticket) then WorkerWork(s.worker)
    else 0
  }

  /** The steps that bring the worker forward. */
  predicate Counts(a: Action) {
    a.Receive? || a.RaiseFlag? || a.TakeReply? || a.EndScript? || a.EndResolve? || a.SendAnswer?
  }

  lemma {:induction false} WorkUpToAppend(commands: seq<Command>, x: Command, c: Command)
    requires c in commands
    ensures WorkUpTo(commands + [x], c) == WorkUpTo(commands, c)
    decreases |commands|
  {
    assert (commands + [x])[0] == commands[0];
    if commands[0] != c {
      Popped(commands, c);
      assert (commands + [x])[1..] == commands[1..] + [x];
      WorkUpToAppend(commands[1..], x, c);
    }
  }

  /** `c` is still to be handled: queued with no shutdown ahead, or in hand. */
  ghost predicate Underway(s: State, c: Command) {
    && (c.ResolveClass? || c.Shutdown?)
    && (c in s.commands || (c.ResolveClass? && Handled(s.worker) == Some(c.ticket)))
    && (Shutdown in s.commands ==> c == Shutdown)
  }

  lemma ReceiveWorks(s: State, c: Command)
    requires Inv(s) && Underway(s, c) && Take(s, Receive).Some?
    ensures Work(Take(s, Receive).value, c) < Work(s, c)
  {
    Popped(s.commands, c);
    if s.commands[0] == c && c.ResolveClass? {
      TakenOnce(s);
    }
  }

  lemma HandWorks(s: State, a: Action, c: Command)
    requires Inv(s) && Underway(s, c) && ByWorker(a) && !a.Receive? && Take(s, a).Some?
    ensures Work(Take(s, a).value, c) <= Work(s, c)
    ensures Counts(a) ==> Work(Take(s, a).value, c) < Work(s, c)
    ensures a.HostCall? && s.worker.Busy? && s.worker.activity.Script? ==> Work(Take(s, a).value, c) < Work(s, c)
  {
    if c.ResolveClass? && c in s.commands {
      QueuedIsUnanswered(s, c.ticket);
    }
  }

  /** No step puts `c` further away, and every step that counts brings it closer. */
  lemma StepWorks(s: State, a: Action, c: Command)
    requires Inv(s) && Underway(s, c) && Take(s, a).Some?
    ensures Work(Take(s, a).value, c) <= Work(s, c)
    ensures Counts(a) ==> Work(Take(s, a).value, c) < Work(s, c)
  {
    if a.Receive? {
      ReceiveWorks(s, c);
    } else if ByWorker(a) {
      HandWorks(s, a, c);
    } else {
      SendWorks(s, a, c);
    }
  }

  lemma SendWorks(s: State, a: Action, c: Command)
    requires Inv(s) && Underway(s, c) && !ByWorker(a) && Take(s, a).Some?
    ensures Work(Take(s, a).value, c) <= Work(s, c)
  {
    var s' := Take(s, a).value;
    if s'.commands != s.commands {
      var x := s'.commands[|s.commands|];
      assert s'.commands == s.commands + [x];
      if c in s.commands {
        WorkUpToAppend(s.commands, x, c);
      }
    }
  }

  // ----- The main thread's wait ----------------------------------------------------------

  lemma InitOk()
    ensures Inv(Init())
  {
  }

  /** With a host call pending, no step ends the wait. */
  lemma StillBlocked(s: State, a: Action, c: Command)
    requires Inv(s) && Awaited(s.main) == Some(c) && Pending(s, c) > 0 && Take(s, a).Some?
    ensures Take(s, a).value.main == s.main
  {
    NotReady(s, c);
  }

  /** With a host call pending, the main thread never returns from its wait. */
  lemma {:induction false} NeverReturns(s: State, c: Command, actions: seq<Action>)
    requires Inv(s) && Awaited(s.main) == Some(c) && Pending(s, c) > 0 && RunFrom(s, actions).Some?
    ensures RunFrom(s, actions).value.main == s.main
    decreases |actions|
  {
    if actions != [] {
      var a := actions[0];
      StillBlocked(s, a, c);
      StepKeepsInv(s, a);
      PendingStands(s, a, c);
      NeverReturns(Take(s, a).value, c, actions[1..]);
    }
  }

  /** With none pending, the worker always has a step that counts. */
  lemma NextStep(s: State, c: Command) returns (a: Action)
    requires Inv(s) && Awaited(s.main) == Some(c) && !Ready(s) && Pending(s, c) == 0
    ensures Counts(a) && Take(s, a).Some? && Take(s, a).value.main == s.main && Underway(s, c)
  {
    NotReady(s, c);
    match s.worker
    case Idle => a := Receive;
    case Fetched(_) => a := RaiseFlag;
    case Busy(act) => a := if act.Script? then EndScript else EndResolve(None);
    case Waiting(_, _) => a := TakeReply;
    case Answering(_, _) => a := SendAnswer;
  }

  lemma RunCons(s: State, a: Action, rest: seq<Action>)
    requires Take(s, a).Some?
    ensures RunFrom(s, [a] + rest) == RunFrom(Take(s, a).value, rest)
  {
    assert ([a] + rest)[1..] == rest;
  }

  /** With none pending, the worker alone can bring the main thread's answer. */
  lemma {:induction false} ReturnPath(s: State, c: Command) returns (actions: seq<Action>)
    requires Inv(s) && Awaited(s.main) == Some(c) && Pending(s, c) == 0
    ensures RunFrom(s, actions).Some? && RunFrom(s, actions).value.main != s.main
    decreases Work(s, c)
  {
    if Ready(s) {
      var a := if s.main.Joining? then Join else MainReturn;
      RunCons(s, a, []);
      actions := [a] + [];
    } else {
      var a := NextStep(s, c);
      StepKeepsInv(s, a);
      PendingStands(s, a, c);
      StepWorks(s, a, c);
      var rest := ReturnPath(Take(s, a).value, c);
      RunCons(s, a, rest);
      actions := [a] + rest;
    }
  }

  /** A blocked main thread can return exactly when no host call is pending
      ahead of the command it waits for. */
  lemma WaitEndsIff(s: State, c: Command)
    requires Inv(s) && Awaited(s.main) == Some(c)
    ensures (exists actions :: RunFrom(s, actions).Some? && RunFrom(s, actions).value.main != s.main)
            <==> Pending(s, c) == 0
  {
    if Pending(s, c) == 0 {
      var actions := ReturnPath(s, c);
    } else {
      forall actions | RunFrom(s, actions).Some? ensures RunFrom(s, actions).value.main == s.main {
        NeverReturns(s, c, actions);
      }
    }
  }

  function CountingSteps(actions: seq<Action>): nat
    decreases |actions|
  {
    if actions == [] then 0 else (if Counts(actions[0]) then 1 else 0) + CountingSteps(actions[1..])
  }

  /** What is underway stays underway until the main thread can return. */
  lemma UnderwayStays(s: State, a: Action, c: Command)
    requires Inv(s) && Awaited(s.main) == Some(c) && !Ready(s) && Take(s, a).Some?
    ensures Take(s, a).value.main == s.main && Underway(s, c)
  {
    NotReady(s, c);
  }

  /** Once the answer is there, it stays until the main thread takes it. */
  lemma ReadyStays(s: State, a: Action)
    requires Blocked(s) && Ready(s) && Take(s, a).Some? && Take(s, a).value.main == s.main
    ensures Ready(Take(s, a).value)
  {
  }

  /** A wait that has ended does not come back: tickets are not reused, and a
      dropped engine is gone. */
  ghost predicate Over(s: State, m: MainThread) {
    s.main != m && ((m.Awaiting? && m.ticket < s.tickets) || (m.Joining? && s.main.Gone?))
  }

  lemma {:induction false} NotAgain(s: State, m: MainThread, actions: seq<Action>)
    requires Over(s, m) && RunFrom(s, actions).Some?
    ensures RunFrom(s, actions).value.main != m
    decreases |actions|
  {
    if actions != [] {
      OverStep(s, m, actions[0]);
      NotAgain(Take(s, actions[0]).value, m, actions[1..]);
    }
  }

  lemma OverStep(s: State, m: MainThread, a: Action)
    requires Over(s, m) && Take(s, a).Some?
    ensures Over(Take(s, a).value, m)
  {
  }

  lemma EndsWait(s: State, a: Action)
    requires MainOk(s) && Blocked(s) && Take(s, a).Some? && Take(s, a).value.main != s.main
    ensures Over(Take(s, a).value, s.main)
  {
  }

  /** In a run that ends with the same wait, no step ended it. */
  lemma SameWait(s: State, actions: seq<Action>)
    requires Inv(s) && Blocked(s) && actions != [] && RunFrom(s, actions).Some?
    requires RunFrom(s, actions).value.main == s.main
    ensures Take(s, actions[0]).value.main == s.main
  {
    var s1 := Take(s, actions[0]).value;
    if s1.main != s.main {
      EndsWait(s, actions[0]);
      NotAgain(s1, s.main, actions[1..]);
    }
  }

  lemma {:induction false} PendingStandsOverRun(s: State, c: Command, actions: seq<Action>)
    requires Inv(s) && Awaited(s.main) == Some(c) && RunFrom(s, actions).Some?
    requires RunFrom(s, actions).value.main == s.main
    ensures Pending(RunFrom(s, actions).value, c) == Pending(s, c)
    decreases |actions|
  {
    if actions != [] {
      SameWait(s, actions);
      StepKeepsInv(s, actions[0]);
      PendingStands(s, actions[0], c);
      PendingStandsOverRun(Take(s, actions[0]).value, c, actions[1..]);
    }
  }

  lemma {:induction false} ReadyStaysOverRun(s: State, actions: seq<Action>)
    requires Inv(s) && Blocked(s) && Ready(s) && RunFrom(s, actions).Some?
    requires RunFrom(s, actions).value.main == s.main
    ensures Ready(RunFrom(s, actions).value)
    decreases |actions|
  {
    if actions != [] {
      SameWait(s, actions);
      StepKeepsInv(s, actions[0]);
      ReadyStays(s, actions[0]);
      ReadyStaysOverRun(Take(s, actions[0]).value, actions[1..]);
    }
  }

  /** With no host call pending, however the steps interleave, the worker needs at
      most `Work` counting steps to bring the answer; until it is there, one of
      them can always be taken. */
  lemma {:induction false} WaitIsBounded(s: State, c: Command, actions: seq<Action>)
    requires Inv(s) && Awaited(s.main) == Some(c) && Pending(s, c) == 0 && RunFrom(s, actions).Some?
    requires RunFrom(s, actions).value.main == s.main && !Ready(RunFrom(s, actions).value)
    ensures CountingSteps(actions) <= Work(s, c)
    ensures exists a :: Counts(a) && Take(RunFrom(s, actions).value, a).Some?
    decreases |actions|
  {
    if Ready(s) {
      ReadyStaysOverRun(s, actions);
    } else if actions == [] {
      var a := NextStep(s, c);
    } else {
      var a := actions[0];
      UnderwayStays(s, a, c);
      StepKeepsInv(s, a);
      PendingStands(s, a, c);
      StepWorks(s, a, c);
      WaitIsBounded(Take(s, a).value, c, actions[1..]);
    }
  }

  /** A resolve made on the main thread returns, if made now, exactly when no
      script in hand or queued has a host call left to make. */
  lemma MainResolveReturnsIff(s: State)
    requires Inv(s) && s.main.Free?
    ensures Take(s, MainResolve).Some?
    ensures var s' := Take(s, MainResolve).value;
            (exists actions :: RunFrom(s', actions).Some? && RunFrom(s', actions).value.main != s'.main)
            <==> InFlight(s.worker, s.replies) + TotalAsks(s.commands) == 0
  {
    var s' := Take(s, MainResolve).value;
    var c := ResolveClass(s.tickets);
    assert s'.commands[|s.commands|] == c;
    AsksAheadAll(s.commands, c);
    StepKeepsInv(s, MainResolve);
    WaitEndsIff(s', c);
  }

  /** The join of the engine's drop ends under the same condition. */
  lemma DropReturnsIff(s: State)
    requires Inv(s) && s.main.Free?
    ensures Take(s, DropEngine).Some?
    ensures var s' := Take(s, DropEngine).value;
            (exists actions :: RunFrom(s', actions).Some? && RunFrom(s', actions).value.main != s'.main)
            <==> InFlight(s.worker, s.replies) + TotalAsks(s.commands) == 0
  {
    var s' := Take(s, DropEngine).value;
    assert s'.commands[|s.commands|] == Shutdown;
    AsksAheadAll(s.commands, Shutdown);
    StepKeepsInv(s, DropEngine);
    WaitEndsIff(s', Shutdown);
  }

  /** An event whose handler makes one host call, then a resolve on the main
      thread (or a drop): the main thread hangs, though the resolver itself
      never calls the host. */
  lemma QueuedCallHangsMain(hang: Action, actions: seq<Action>)
    requires hang == MainResolve || hang == DropEngine
    requires RunFrom(Init(), [Submit(1), hang] + actions).Some?
    ensures Blocked(RunFrom(Init(), [Submit(1), hang] + actions).value)
  {
    var s2 := HungState(hang);
    var s1 := Take(Init(), Submit(1)).value;
    assert [Submit(1), hang] + actions == [Submit(1)] + ([hang] + actions);
    RunCons(Init(), Submit(1), [hang] + actions);
    RunCons(s1, hang, actions);
    NeverReturns(s2, Awaited(s2.main).value, actions);
  }

  lemma HungState(hang: Action) returns (s: State)
    requires hang == MainResolve || hang == DropEngine
    ensures Take(Init(), Submit(1)).Some? && Take(Take(Init(), Submit(1)).value, hang) == Some(s)
    ensures Inv(s) && Blocked(s) && Pending(s, Awaited(s.main).value) > 0
  {
    InitOk();
    var s1 := Take(Init(), Submit(1)).value;
    s := Take(s1, hang).value;
    var c := Awaited(s.main).value;
    StepKeepsInv(Init(), Submit(1));
    StepKeepsInv(s1, hang);
    assert s.commands == [RunScript(1), c];
    OneAskAhead(c);
  }

  lemma OneAskAhead(c: Command)
    requires !c.RunScript?
    ensures c in [RunScript(1), c] && AsksAhead([RunScript(1), c], c) == 1
  {
    var commands := [RunScript(1), c];
    assert commands[1] == c && commands[1..] == [c];
  }

  // ----- Waits in general ----------------------------------------------------------------

  datatype Thread = TheWorker | TheMain | Other(id: nat)

  /** `x` is blocked until `y` does something. */
  predicate WaitsFor(s: State, x: Thread, y: Thread) {
    match x
    case TheWorker => s.worker.Waiting? && s.worker.request !in s.replies && y == TheMain
    case TheMain => Blocked(s) && !Ready(s) && y == TheWorker
    case Other(i) => i in s.others && !Returns(s, s.others[i]) && y == TheWorker
  }

  /** Each thread of `path` waits for the next. */
  predicate WaitPath(s: State, path: seq<Thread>)
    decreases |path|
  {
    |path| <= 1 || (WaitsFor(s, path[0], path[1]) && WaitPath(s, path[1..]))
  }

  predicate Cycle(s: State, path: seq<Thread>) {
    |path| >= 2 && path[0] == path[|path| - 1] && WaitPath(s, path)
  }

  predicate Deadlock(s: State) {
    WaitsFor(s, TheWorker, TheMain) && WaitsFor(s, TheMain, TheWorker)
  }

  /** A cycle of waits is the worker and the main thread waiting for each other. */
  lemma CycleIsDeadlock(s: State)
    ensures (exists path :: Cycle(s, path)) <==> Deadlock(s)
  {
    if Deadlock(s) {
      var path := [TheWorker, TheMain, TheWorker];
      assert path[1..] == [TheMain, TheWorker] && path[1..][1..] == [TheWorker];
      assert Cycle(s, path);
    }
    if exists path :: Cycle(s, path) {
      var path: seq<Thread> :| Cycle(s, path);
      CycleHasBoth(s, path);
    }
  }

  lemma CycleHasBoth(s: State, path: seq<Thread>)
    requires Cycle(s, path)
    ensures Deadlock(s)
  {
    assert WaitsFor(s, path[0], path[1]) && |path| > 2;
    assert WaitPath(s, path[1..]) && WaitsFor(s, path[1], path[2]);
    if path[0].Other? {
      assert WaitPath(s, path[1..][1..]) && WaitsFor(s, path[2], path[3]);
    }
  }

  /** In a deadlock a host call is pending ahead of what the main thread waits for. */
  lemma DeadlockMeansPending(s: State)
    requires Inv(s) && Deadlock(s)
    ensures Blocked(s) && Pending(s, Awaited(s.main).value) > 0
  {
    NotReady(s, Awaited(s.main).value);
  }

  /** A worker that is not waiting for the main thread has a step towards `c`. */
  lemma WorkerCanStep(s: State, c: Command) returns (a: Action)
    requires Inv(s) && Underway(s, c) && !WaitsFor(s, TheWorker, TheMain)
    ensures ByWorker(a) && Take(s, a).Some? && Work(Take(s, a).value, c) < Work(s, c)
  {
    match s.worker {
      case Idle => a := Receive;
      case Fetched(_) => a := RaiseFlag;
      case Busy(act) => a := if act == Script(0) then EndScript else if act.Script? then HostCall(0) else EndResolve(None);
      case Waiting(_, _) => a := TakeReply;
      case Answering(_, _) => a := SendAnswer;
    }
    if a.Receive? { ReceiveWorks(s, c); } else { HandWorks(s, a, c); }
  }

  /** With a host call pending, the blocked main thread can be run into a deadlock. */
  lemma {:induction false} PathToDeadlock(s: State, c: Command) returns (actions: seq<Action>)
    requires Inv(s) && Awaited(s.main) == Some(c) && Pending(s, c) > 0
    ensures RunFrom(s, actions).Some? && Deadlock(RunFrom(s, actions).value)
    decreases Work(s, c)
  {
    NotReady(s, c);
    if WaitsFor(s, TheWorker, TheMain) {
      actions := [];
    } else {
      var a := WorkerCanStep(s, c);
      StillBlocked(s, a, c);
      StepKeepsInv(s, a);
      PendingStands(s, a, c);
      var rest := PathToDeadlock(Take(s, a).value, c);
      RunCons(s, a, rest);
      actions := [a] + rest;
    }
  }

  /** During a wait of the main thread a cycle of waits can come about exactly
      when a host call is pending ahead of the command it waits for. */
  lemma CycleReachableIff(s: State, c: Command)
    requires Inv(s) && Awaited(s.main) == Some(c)
    ensures Pending(s, c) > 0 <==>
            exists actions, path ::
              RunFrom(s, actions).Some? && RunFrom(s, actions).value.main == s.main
              && Cycle(RunFrom(s, actions).value, path)
  {
    if Pending(s, c) > 0 {
      var actions := PathToDeadlock(s, c);
      NeverReturns(s, c, actions);
      CycleIsDeadlock(RunFrom(s, actions).value);
    }
    forall actions, path | RunFrom(s, actions).Some? && RunFrom(s, actions).value.main == s.main
                           && Cycle(RunFrom(s, actions).value, path)
      ensures Pending(s, c) > 0
    {
      PendingStandsOverRun(s, c, actions);
      RunsKeepInv(s, actions);
      CycleHasBoth(RunFrom(s, actions).value, path);
      DeadlockMeansPending(RunFrom(s, actions).value);
    }
  }

  /** As long as resolves come from other threads only and the engine is not
      dropped, no reachable state holds a cycle of waits. */
  lemma NoCycleOffMain(actions: seq<Action>, path: seq<Thread>)
    requires RunFrom(Init(), actions).Some? && MainResolve !in actions && DropEngine !in actions
    ensures !Cycle(RunFrom(Init(), actions).value, path)
  {
    MainStaysFree(Init(), actions);
    if Cycle(RunFrom(Init(), actions).value, path) {
      CycleHasBoth(RunFrom(Init(), actions).value, path);
    }
  }

  lemma FreeStep(s: State, a: Action)
    requires s.main.Free? && a != MainResolve && a != DropEngine && Take(s, a).Some?
    ensures Take(s, a).value.main.Free?
  {
  }

  lemma {:induction false} MainStaysFree(s: State, actions: seq<Action>)
    requires s.main.Free? && RunFrom(s, actions).Some? && MainResolve !in actions && DropEngine !in actions
    ensures RunFrom(s, actions).value.main.Free?
    decreases |actions|
  {
    if actions != [] {
      assert actions[0] in actions;
      FreeStep(s, actions[0]);
      MainStaysFree(Take(s, actions[0]).value, actions[1..]);
    }
  }

  // ----- A resolve made on another thread ---------------------------------------------------

  /** While the main thread is free to pump, a ticket underway always has a next
      step: a worker step that brings it closer, or the pump on a queued request. */
  lemma NextStepOff(s: State, c: Command) returns (a: Action)
    requires Inv(s) && s.main.Free? && Underway(s, c)
    ensures Take(s, a).Some? && (ByWorker(a) || a.Pump?)
    ensures ByWorker(a) ==> Work(Take(s, a).value, c) < Work(s, c)
    ensures a.Pump? ==> |Take(s, a).value.host| < |s.host|
  {
    if WaitsFor(s, TheWorker, TheMain) {
      assert HostSide(s);
      a := Pump(0);
    } else {
      a := WorkerCanStep(s, c);
    }
  }

  lemma SameWaiters(s: State, a: Action)
    requires Take(s, a).Some? && (ByWorker(a) || a.Pump?)
    ensures Take(s, a).value.main == s.main && Take(s, a).value.others == s.others
  {
  }

  lemma ReturnStep(s: State, i: nat)
    requires i in s.others && Returns(s, s.others[i])
    ensures RunFrom(s, [OtherReturn(i)]).Some?
    ensures var s' := RunFrom(s, [OtherReturn(i)]).value; i !in s'.others && s.others[i] in s'.returned
  {
    RunCons(s, OtherReturn(i), []);
    assert [OtherReturn(i)] + [] == [OtherReturn(i)];
  }

  /** A thread that resolves while the main thread keeps pumping gets its answer. */
  lemma {:induction false} OtherReturns(s: State, i: nat) returns (actions: seq<Action>)
    requires Inv(s) && s.main.Free? && i in s.others
    ensures RunFrom(s, actions).Some? && i !in RunFrom(s, actions).value.others
    ensures s.others[i] in RunFrom(s, actions).value.returned
    decreases Work(s, ResolveClass(s.others[i])), |s.host|
  {
    var t := s.others[i];
    if Returns(s, t) {
      ReturnStep(s, i);
      actions := [OtherReturn(i)];
    } else {
      TicketIsSomewhere(s, t);
      var a := NextStepOff(s, ResolveClass(t));
      StepKeepsInv(s, a);
      StepWorks(s, a, ResolveClass(t));
      SameWaiters(s, a);
      var rest := OtherReturns(Take(s, a).value, i);
      RunCons(s, a, rest);
      actions := [a] + rest;
    }
  }

  /** A wait of another thread ends only by its own step, and not before there is
      something to return; what there is stays. */
  lemma OffStep(s: State, a: Action, i: nat)
    requires Inv(s) && s.main.Free? && a != MainResolve && a != DropEngine && Take(s, a).Some?
    requires i in s.others
    ensures var s', t := Take(s, a).value, s.others[i];
            && s'.main.Free? && (Returns(s, t) ==> Returns(s', t))
            && (!Returns(s, t) ==> i in s'.others && s'.others[i] == t)
  {
    FreeStep(s, a);
  }

  lemma AnswersStay(s: State, a: Action, t: nat)
    requires Take(s, a).Some? && Returns(s, t)
    ensures Returns(Take(s, a).value, t)
  {
  }

  lemma {:induction false} AnswersStayOverRun(s: State, t: nat, actions: seq<Action>)
    requires RunFrom(s, actions).Some? && Returns(s, t)
    ensures Returns(RunFrom(s, actions).value, t)
    decreases |actions|
  {
    if actions != [] {
      AnswersStay(s, actions[0], t);
      AnswersStayOverRun(Take(s, actions[0]).value, t, actions[1..]);
    }
  }

  /** However the steps interleave while the main thread stays free, the worker needs
      at most `Work` counting steps to bring another thread's answer; until it is
      there, the worker or the pump can always take a step that brings it closer. */
  lemma {:induction false} OtherIsBounded(s: State, i: nat, actions: seq<Action>)
    requires Inv(s) && s.main.Free? && i in s.others && RunFrom(s, actions).Some?
    requires MainResolve !in actions && DropEngine !in actions
    requires !Returns(RunFrom(s, actions).value, s.others[i])
    ensures var s', c := RunFrom(s, actions).value, ResolveClass(s.others[i]);
            && CountingSteps(actions) <= Work(s, c)
            && exists a :: Take(s', a).Some? && BringsCloser(s', a, c)
    decreases |actions|
  {
    var t := s.others[i];
    if Returns(s, t) {
      AnswersStayOverRun(s, t, actions);
    } else {
      TicketIsSomewhere(s, t);
      assert Underway(s, ResolveClass(t));
      if actions == [] {
        var a := NextStepOff(s, ResolveClass(t));
        assert BringsCloser(s, a, ResolveClass(t));
      } else {
        var a := actions[0];
        assert a in actions;
        OffStep(s, a, i);
        StepKeepsInv(s, a);
        StepWorks(s, a, ResolveClass(t));
        OtherIsBounded(Take(s, a).value, i, actions[1..]);
      }
    }
  }

  /** A worker step towards the command, or a pump of a queued request. */
  ghost predicate BringsCloser(s: State, a: Action, c: Command)
    requires Take(s, a).Some?
  {
    || (ByWorker(a) && Work(Take(s, a).value, c) < Work(s, c))
    || (a.Pump? && |Take(s, a).value.host| < |s.host|)
  }

  // ----- Safety of every run -------------------------------------------------------------------

  /** The worker never waits for the host while it executes a resolve. */
  lemma ResolverNeverWaits(actions: seq<Action>)
    requires RunFrom(Init(), actions).Some?
    ensures var s := RunFrom(Init(), actions).value;
            s.worker.Waiting? ==> s.worker.activity.Script? && !s.resolving && Handled(s.worker) == None
  {
    InitOk();
    RunsKeepInv(Init(), actions);
  }

  /** Every host call gets the answer the main thread gave to that very request,
      in order and once; at most one request is unanswered at any time. */
  lemma RepliesReachTheirRequests(actions: seq<Action>)
    requires RunFrom(Init(), actions).Some?
    ensures var s := RunFrom(Init(), actions).value;
            && s.delivered <= s.served && |s.delivered| <= |s.asked| <= |s.delivered| + 1
            && (forall k :: 0 <= k < |s.served| ==> k < |s.asked| && s.served[k].payload == s.asked[k])
  {
    InitOk();
    RunsKeepInv(Init(), actions);
  }

  /** A resolve returns what the resolver computed for its own ticket; it returns
      without a computed answer only when the worker has exited. */
  lemma AnswersReachTheirTickets(actions: seq<Action>, t: nat)
    requires RunFrom(Init(), actions).Some? && t in RunFrom(Init(), actions).value.returned
    ensures var s := RunFrom(Init(), actions).value;
            if t in s.computed then s.returned[t] == s.computed[t] else s.worker.Exited? && s.returned[t] == None
  {
    InitOk();
    RunsKeepInv(Init(), actions);
  }
}
