/** The wait protocol between the script worker, the main thread and the threads
    that hold a detached resolver (crates/nemclass-script/src/engine_rusty.rs).
    Only channels, the `resolving` flag and blocking are kept. A run is any
    interleaving of the steps below.

    A script is known by the number of replying host calls it goes on to make;
    payloads, answers and log lines are chosen by the run. */
module ScriptBridge {
  import opened Memory

  /** What travels on the command channel. */
  datatype Command =
    | RunScript(asks: nat)        // LoadScript, LoadScriptsDir, Dispatch
    | ResolveClass(ticket: nat)
    | Shutdown

  /** The script code the worker is executing. */
  datatype Activity = Script(asks: nat) | Resolver(ticket: nat)

  datatype Worker =
    | Idle
    | Fetched(ticket: nat)                              // resolve received, flag not yet set
    | Busy(activity: Activity)
    | Waiting(activity: Activity, request: nat)     // inside `HostBridge::call`
    | Answering(ticket: nat, answer: Option<nat>)   // flag cleared, reply not yet sent
    | Exited

  datatype MainThread = Free | Awaiting(ticket: nat) | Joining | Gone

  /** What travels on the host channel; each `Ask` names its own reply channel. */
  datatype Request = Ask(id: nat, payload: nat) | LogLine

  datatype Exchange = Exchange(payload: nat, answer: nat)

  datatype State = State(
    commands: seq<Command>, host: seq<Request>, worker: Worker, resolving: bool, main: MainThread,
    others: map<nat, nat>,               // waiting thread -> ticket
    replies: map<nat, nat>,              // request channel -> answer in it
    answers: map<nat, Option<nat>>,      // ticket channel -> answer in it
    tickets: nat, taken: nat,            // tickets handed out, tickets received by the worker
    computed: map<nat, Option<nat>>,     // what the resolver said, by ticket
    returned: map<nat, Option<nat>>,     // what `resolve` gave its caller, by ticket
    asked: seq<nat>, served: seq<Exchange>, delivered: seq<Exchange>)

  function Init(): State {
    State([], [], Idle, false, Free, map[], map[], map[], 0, 0, map[], map[], [], [], [])
  }

  datatype Action =
    // worker
    | Receive | RaiseFlag | HostCall(payload: nat) | HostLog | TakeReply | EndScript
    | EndResolve(answer: Option<nat>) | SendAnswer
    // main thread
    | Pump(reply: nat) | Submit(asks: nat) | MainResolve | MainReturn | DropEngine | Join
    // a thread holding a resolver
    | OtherResolve(thread: nat) | OtherReturn(thread: nat)

  // ----- Steps -----------------------------------------------------------------

  function WorkerStep(s: State, a: Action): Option<State> {
    match a
    case Receive =>
      if s.worker != Idle || s.commands == [] then None
      else
        var rest := s.(commands := s.commands[1..]);
        (match s.commands[0]
         case RunScript(n) => Some(rest.(worker := Busy(Script(n))))
         case ResolveClass(t) => Some(rest.(worker := Fetched(t), taken := s.taken + 1))
         case Shutdown => Some(s.(commands := [], worker := Exited)))   // the receiver is dropped
    case RaiseFlag =>
      if !s.worker.Fetched? then None
      else Some(s.(resolving := true, worker := Busy(Resolver(s.worker.ticket))))
    case HostCall(payload) =>
      if !s.worker.Busy? || s.worker.activity == Script(0) then None
      else
        var act := match s.worker.activity case Script(n) => Script(n - 1) case Resolver(t) => Resolver(t);
        if s.resolving || s.main.Gone? then Some(s.(worker := Busy(act)))
        else
          var id := |s.asked|;
          Some(s.(host := s.host + [Ask(id, payload)], asked := s.asked + [payload], worker := Waiting(act, id)))
    case HostLog =>
      if !s.worker.Busy? then None else Some(s.(host := s.host + [LogLine]))
    case TakeReply =>
      if !s.worker.Waiting? || s.worker.request !in s.replies then None
      else
        var id := s.worker.request;
        if id >= |s.asked| then None
        else
          Some(s.(worker := Busy(s.worker.activity), replies := s.replies - {id},
                  delivered := s.delivered + [Exchange(s.asked[id], s.replies[id])]))
    case EndScript =>
      if s.worker != Busy(Script(0)) then None else Some(s.(worker := Idle))
    case EndResolve(answer) =>
      if !s.worker.Busy? || !s.worker.activity.Resolver? then None
      else
        var t := s.worker.activity.ticket;
        Some(s.(resolving := false, worker := Answering(t, answer), computed := s.computed[t := answer]))
    case SendAnswer =>
      if !s.worker.Answering? then None
      else Some(s.(worker := Idle, answers := s.answers[s.worker.ticket := s.worker.answer]))
    case _ => None
  }

  /** Whether the blocking receive of `resolve` has something to return: the
      answer, or the news that the worker dropped the command. */
  predicate Returns(s: State, ticket: nat) {
    ticket in s.answers || s.worker.Exited?
  }

  function AnswerFor(s: State, ticket: nat): Option<nat> {
    if ticket in s.answers then s.answers[ticket] else None
  }

  function MainStep(s: State, a: Action): Option<State> {
    match a
    case Pump(answer) =>
      if !s.main.Free? || s.host == [] then None
      else
        var rest := s.(host := s.host[1..]);
        (match s.host[0]
         case LogLine => Some(rest)
         case Ask(id, payload) =>
           Some(rest.(replies := s.replies[id := answer], served := s.served + [Exchange(payload, answer)])))
    case Submit(n) =>
      if !s.main.Free? then None else Some(s.(commands := s.commands + [RunScript(n)]))
    case MainResolve =>
      if !s.main.Free? then None
      else
        Some(s.(commands := s.commands + [ResolveClass(s.tickets)], tickets := s.tickets + 1,
                main := Awaiting(s.tickets)))
    case MainReturn =>
      if !s.main.Awaiting? || !Returns(s, s.main.ticket) then None
      else Some(s.(main := Free, returned := s.returned[s.main.ticket := AnswerFor(s, s.main.ticket)]))
    case DropEngine =>
      if !s.main.Free? then None else Some(s.(commands := s.commands + [Shutdown], main := Joining))
    case Join =>
      if !s.main.Joining? || !s.worker.Exited? then None else Some(s.(main := Gone))
    case _ => None
  }

  function OtherStep(s: State, a: Action): Option<State> {
    match a
    case OtherResolve(i) =>
      if i in s.others then None
      else if s.worker.Exited? then Some(s)       // the send fails: `None` at once
      else
        Some(s.(commands := s.commands + [ResolveClass(s.tickets)], tickets := s.tickets + 1,
                others := s.others[i := s.tickets]))
    case OtherReturn(i) =>
      if i !in s.others || !Returns(s, s.others[i]) then None
      else Some(s.(others := s.others - {i}, returned := s.returned[s.others[i] := AnswerFor(s, s.others[i])]))
    case _ => None
  }

  predicate ByWorker(a: Action) {
    a.Receive? || a.RaiseFlag? || a.HostCall? || a.HostLog? || a.TakeReply? || a.EndScript? || a.EndResolve?
    || a.SendAnswer?
  }

  predicate ByOther(a: Action) {
    a.OtherResolve? || a.OtherReturn?
  }

  /** One atomic step; `None` when the action is not enabled. */
  function Take(s: State, a: Action): Option<State> {
    if ByWorker(a) then WorkerStep(s, a) else if ByOther(a) then OtherStep(s, a) else MainStep(s, a)
  }

  /** The state after a sequence of steps, if each was enabled. */
  function RunFrom(s: State, actions: seq<Action>): Option<State>
    decreases |actions|
  {
    if actions == [] then Some(s)
    else match Take(s, actions[0])
         case None => None
         case Some(s') => RunFrom(s', actions[1..])
  }

  // ----- The invariant -----------------------------------------------------------

  /** The ticket the worker has received and not yet answered. */
  function Handled(w: Worker): Option<nat> {
    match w
    case Fetched(t) => Some(t)
    case Busy(act) => if act.Resolver? then Some(act.ticket) else None
    case Waiting(act, _) => if act.Resolver? then Some(act.ticket) else None
    case Answering(t, _) => Some(t)
    case _ => None
  }

  /** The answer it is about to send. */
  function Said(w: Worker): Option<Option<nat>> {
    if w.Answering? then Some(w.answer) else None
  }

  /** The flag is up exactly while resolver code runs, and that code never waits. */
  ghost predicate FlagOk(s: State) {
    && (s.resolving <==> s.worker.Busy? && s.worker.activity.Resolver?)
    && (s.worker.Waiting? ==> s.worker.activity.Script?)
  }

  function WaitingOn(w: Worker): Option<nat> {
    if w.Waiting? then Some(w.request) else None
  }

  /** At most one replying request is open, and it is the worker's. */
  ghost predicate HostOk(waiting: Option<nat>, host: seq<Request>, replies: map<nat, nat>,
                         asked: seq<nat>, served: seq<Exchange>, delivered: seq<Exchange>)
  {
    && (match waiting
        case None => |asked| == |delivered|
        case Some(id) => |asked| == |delivered| + 1 && id == |delivered|)
    && |delivered| <= |served| <= |asked|
    && delivered == served[..|delivered|]
    && (forall k :: 0 <= k < |served| ==> served[k].payload == asked[k])
    && (forall id :: id in replies <==> |delivered| <= id < |served|)
    && (forall id :: id in replies && id < |served| ==> replies[id] == served[id].answer)
    && HostQueueOk(host, |served|, asked)
  }

  /** The open request, if the main thread has not served it, is queued once. */
  ghost predicate HostQueueOk(host: seq<Request>, served: nat, asked: seq<nat>) {
    && (forall k :: 0 <= k < |host| && host[k].Ask? ==> served < |asked| && host[k] == Ask(served, asked[served]))
    && (forall j, k :: 0 <= j < k < |host| && host[j].Ask? ==> host[k].LogLine?)
    && (served < |asked| ==> Ask(served, asked[served]) in host)
  }

  /** Tickets wait in the order they were handed out, from `taken` on. */
  ghost predicate TicketsOk(commands: seq<Command>, taken: nat, tickets: nat) {
    && taken <= tickets
    && (forall k :: 0 <= k < |commands| && commands[k].ResolveClass? ==> taken <= commands[k].ticket < tickets)
    && (forall j, k :: 0 <= j < k < |commands| && commands[j].ResolveClass? && commands[k].ResolveClass? ==>
          commands[j].ticket < commands[k].ticket)
    && (forall t: nat :: taken <= t < tickets ==> ResolveClass(t) in commands)
  }

  /** What was computed for a ticket is what its channel and its caller get. */
  ghost predicate AnswersOk(handled: Option<nat>, said: Option<Option<nat>>, exited: bool, taken: nat,
                            answers: map<nat, Option<nat>>, computed: map<nat, Option<nat>>,
                            returned: map<nat, Option<nat>>)
  {
    && (forall t :: t in computed ==> t < taken)
    && (forall t: nat :: t < taken ==> t in answers || handled == Some(t))
    && (forall t :: t in answers ==> t in computed && answers[t] == computed[t])
    && (handled.Some? ==>
          && handled.value < taken && handled.value !in answers
          && if said.Some? then handled.value in computed && computed[handled.value] == said.value
             else handled.value !in computed)
    && (forall t :: t in returned ==> if t in answers then returned[t] == answers[t] else exited && returned[t] == None)
  }

  /** Shutdown comes only from the drop, and the drop waits for the worker. */
  ghost predicate MainOk(s: State) {
    && (Shutdown in s.commands ==> s.main.Joining?)
    && (s.worker.Exited? ==> s.commands == [] && (s.main.Joining? || s.main.Gone?))
    && (s.main.Gone? ==> s.worker.Exited?)
    && (s.main.Joining? && !s.worker.Exited? ==> Shutdown in s.commands)
    && (s.main.Awaiting? ==> s.main.ticket < s.tickets)
    && (forall i :: i in s.others ==> s.others[i] < s.tickets)
  }

  ghost predicate HostSide(s: State) {
    HostOk(WaitingOn(s.worker), s.host, s.replies, s.asked, s.served, s.delivered)
  }

  ghost predicate CommandSide(s: State) {
    && (!s.worker.Exited? ==> TicketsOk(s.commands, s.taken, s.tickets))
    && AnswersOk(Handled(s.worker), Said(s.worker), s.worker.Exited?, s.taken, s.answers, s.computed, s.returned)
  }

  ghost predicate Inv(s: State) {
    && FlagOk(s)
    && HostSide(s)
    && CommandSide(s)
    && MainOk(s)
  }

  // ----- Every step keeps it -------------------------------------------------------

  lemma Popped<T>(q: seq<T>, x: T)
    requires q != []
    ensures x in q <==> x == q[0] || x in q[1..]
  {
    assert q == [q[0]] + q[1..];
  }

  /** What stays on a queue when its head, different from `x`, is taken. */
  lemma PopKeeps<T>(q: seq<T>)
    requires q != []
    ensures forall x :: x in q ==> x == q[0] || x in q[1..]
    ensures forall x :: x in q[1..] ==> x in q
  {
    forall x | x in q ensures x == q[0] || x in q[1..] {
      Popped(q, x);
    }
  }

  lemma StepKeepsFlag(s: State, a: Action)
    requires FlagOk(s) && Take(s, a).Some?
    ensures FlagOk(Take(s, a).value)
  {
    if !ByWorker(a) {
      WorkerUntouched(s, a);
    }
  }

  lemma WorkerUntouched(s: State, a: Action)
    requires !ByWorker(a) && Take(s, a).Some?
    ensures Take(s, a).value.worker == s.worker && Take(s, a).value.resolving == s.resolving
  {
  }

  /** Steps that do not touch the host channel's bookkeeping. */
  lemma HostUntouched(s: State, a: Action)
    requires Take(s, a).Some? && !a.Pump? && !a.HostCall? && !a.TakeReply? && !a.HostLog?
    requires FlagOk(s)
    ensures var s' := Take(s, a).value;
            && WaitingOn(s'.worker) == WaitingOn(s.worker)
            && s'.host == s.host && s'.replies == s.replies && s'.asked == s.asked
            && s'.served == s.served && s'.delivered == s.delivered
  {
  }

  lemma StepKeepsHost(s: State, a: Action)
    requires FlagOk(s) && HostSide(s) && Take(s, a).Some?
    ensures HostSide(Take(s, a).value)
  {
    match a
    case Pump(reply) => PumpKeepsHost(WaitingOn(s.worker), s.host, s.replies, s.asked, s.served, s.delivered, reply);
    case HostCall(payload) => CallKeepsHost(s.host, s.replies, s.asked, s.served, s.delivered, payload);
    case TakeReply => ReplyKeepsHost(s.host, s.replies, s.asked, s.served, s.delivered);
    case HostLog => QueueGrows(s.host, |s.served|, s.asked);
    case _ => HostUntouched(s, a);
  }

  lemma PumpKeepsHost(waiting: Option<nat>, host: seq<Request>, replies: map<nat, nat>, asked: seq<nat>,
                      served: seq<Exchange>, delivered: seq<Exchange>, reply: nat)
    requires HostOk(waiting, host, replies, asked, served, delivered) && host != []
    ensures host[0].LogLine? ==> HostOk(waiting, host[1..], replies, asked, served, delivered)
    ensures host[0].Ask? ==>
              HostOk(waiting, host[1..], replies[host[0].id := reply], asked,
                     served + [Exchange(host[0].payload, reply)], delivered)
  {
    PopKeeps(host);
    if host[0].Ask? {
      var served' := served + [Exchange(host[0].payload, reply)];
      assert served'[..|delivered|] == served[..|delivered|];
    }
  }

  lemma CallKeepsHost(host: seq<Request>, replies: map<nat, nat>, asked: seq<nat>,
                      served: seq<Exchange>, delivered: seq<Exchange>, payload: nat)
    requires HostOk(None, host, replies, asked, served, delivered)
    ensures HostOk(Some(|asked|), host + [Ask(|asked|, payload)], replies, asked + [payload], served, delivered)
  {
    assert (host + [Ask(|asked|, payload)])[|host|] == Ask(|asked|, payload);
  }

  lemma ReplyKeepsHost(host: seq<Request>, replies: map<nat, nat>, asked: seq<nat>,
                       served: seq<Exchange>, delivered: seq<Exchange>)
    requires HostOk(Some(|delivered|), host, replies, asked, served, delivered) && |delivered| in replies
    ensures HostOk(None, host, replies - {|delivered|}, asked, served,
                   delivered + [Exchange(asked[|delivered|], replies[|delivered|])])
  {
    var n := |delivered|;
    assert served[..n + 1] == served[..n] + [served[n]];
  }

  lemma QueueGrows(host: seq<Request>, served: nat, asked: seq<nat>)
    requires HostQueueOk(host, served, asked)
    ensures HostQueueOk(host + [LogLine], served, asked)
  {
    if served < |asked| {
      var k :| 0 <= k < |host| && host[k] == Ask(served, asked[served]);
      assert (host + [LogLine])[k] == host[k];
    }
  }

  lemma ReceiveKeepsTickets(commands: seq<Command>, taken: nat, tickets: nat)
    requires TicketsOk(commands, taken, tickets) && commands != []
    ensures match commands[0]
            case ResolveClass(t) => t == taken < tickets && TicketsOk(commands[1..], taken + 1, tickets)
            case _ => TicketsOk(commands[1..], taken, tickets)
  {
    PopKeeps(commands);
    if commands[0].ResolveClass? {
      assert ResolveClass(taken) in commands;
      var k :| 0 <= k < |commands| && commands[k] == ResolveClass(taken);
    }
  }

  lemma SendKeepsTickets(commands: seq<Command>, c: Command, taken: nat, tickets: nat)
    requires TicketsOk(commands, taken, tickets) && (c.ResolveClass? ==> c.ticket == tickets)
    ensures TicketsOk(commands + [c], taken, if c.ResolveClass? then tickets + 1 else tickets)
  {
    assert (commands + [c])[|commands|] == c;
  }

  lemma ReceiveKeepsCommands(s: State)
    requires CommandSide(s) && Take(s, Receive).Some?
    ensures CommandSide(Take(s, Receive).value)
  {
    ReceiveKeepsTickets(s.commands, s.taken, s.tickets);
  }

  lemma ResolverKeepsCommands(s: State, a: Action)
    requires CommandSide(s) && (a.EndResolve? || a.SendAnswer?) && Take(s, a).Some?
    ensures CommandSide(Take(s, a).value)
  {
  }

  /** Worker steps that neither receive a command nor move a resolve forward. */
  lemma CommandsUntouched(s: State, a: Action)
    requires ByWorker(a) && !a.Receive? && !a.EndResolve? && !a.SendAnswer? && Take(s, a).Some?
    ensures var s' := Take(s, a).value;
            && Handled(s'.worker) == Handled(s.worker) && Said(s'.worker) == Said(s.worker)
            && s'.worker.Exited? == s.worker.Exited?
            && s'.commands == s.commands && s'.taken == s.taken && s'.tickets == s.tickets
            && s'.answers == s.answers && s'.computed == s.computed && s'.returned == s.returned
  {
  }

  lemma WorkerKeepsCommands(s: State, a: Action)
    requires CommandSide(s) && ByWorker(a) && Take(s, a).Some?
    ensures CommandSide(Take(s, a).value)
  {
    if a.Receive? {
      ReceiveKeepsCommands(s);
    } else if a.EndResolve? || a.SendAnswer? {
      ResolverKeepsCommands(s, a);
    } else {
      CommandsUntouched(s, a);
    }
  }

  lemma MainKeepsCommands(s: State, a: Action)
    requires CommandSide(s) && MainOk(s) && !ByWorker(a) && !ByOther(a) && Take(s, a).Some?
    ensures CommandSide(Take(s, a).value)
  {
    if !s.worker.Exited? {
      match a
      case Submit(n) => SendKeepsTickets(s.commands, RunScript(n), s.taken, s.tickets);
      case MainResolve => SendKeepsTickets(s.commands, ResolveClass(s.tickets), s.taken, s.tickets);
      case DropEngine => SendKeepsTickets(s.commands, Shutdown, s.taken, s.tickets);
      case _ =>
    }
  }

  lemma OtherKeepsCommands(s: State, a: Action)
    requires CommandSide(s) && MainOk(s) && ByOther(a) && Take(s, a).Some?
    ensures CommandSide(Take(s, a).value)
  {
    if !s.worker.Exited? {
      SendKeepsTickets(s.commands, ResolveClass(s.tickets), s.taken, s.tickets);
    }
  }

  lemma ReceiveKeepsMain(s: State)
    requires MainOk(s) && Take(s, Receive).Some?
    ensures MainOk(Take(s, Receive).value)
  {
    Popped(s.commands, Shutdown);
    Received(s);
  }

  lemma Received(s: State)
    requires Take(s, Receive).Some?
    ensures var s' := Take(s, Receive).value;
            && s'.main == s.main && s'.others == s.others && s'.tickets == s.tickets
            && if s.commands[0] == Shutdown then s'.commands == [] && s'.worker.Exited?
               else s'.commands == s.commands[1..] && !s'.worker.Exited?
  {
  }

  /** What a worker step other than a receive leaves alone. */
  lemma MainUntouched(s: State, a: Action)
    requires ByWorker(a) && !a.Receive? && Take(s, a).Some?
    ensures var s' := Take(s, a).value;
            && s'.main == s.main && s'.others == s.others && s'.tickets == s.tickets && s'.commands == s.commands
            && s'.worker.Exited? == s.worker.Exited?
  {
  }

  lemma StepKeepsMain(s: State, a: Action)
    requires MainOk(s) && Take(s, a).Some?
    ensures MainOk(Take(s, a).value)
  {
    if a.Receive? {
      ReceiveKeepsMain(s);
    } else if ByWorker(a) {
      MainUntouched(s, a);
    } else {
      CallersKeepMain(s, a);
    }
  }

  lemma CallersKeepMain(s: State, a: Action)
    requires MainOk(s) && !ByWorker(a) && Take(s, a).Some?
    ensures MainOk(Take(s, a).value)
  {
  }

  lemma StepKeepsInv(s: State, a: Action)
    requires Inv(s) && Take(s, a).Some?
    ensures forall s' :: Take(s, a) == Some(s') ==> Inv(s')
  {
    StepKeepsFlag(s, a);
    StepKeepsHost(s, a);
    if ByWorker(a) {
      WorkerKeepsCommands(s, a);
    } else if ByOther(a) {
      OtherKeepsCommands(s, a);
    } else {
      MainKeepsCommands(s, a);
    }
    StepKeepsMain(s, a);
  }

  lemma {:induction false} RunsKeepInv(s: State, actions: seq<Action>)
    requires Inv(s) && RunFrom(s, actions).Some?
    ensures Inv(RunFrom(s, actions).value)
    decreases |actions|
  {
    if actions != [] {
      StepKeepsInv(s, actions[0]);
      RunsKeepInv(Take(s, actions[0]).value, actions[1..]);
    }
  }
}
