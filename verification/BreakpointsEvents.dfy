/** The event ring of the breakpoint engine, and a uprobe from set to clear
    (linux/nemclass_mod/src/debugger.c): which hits reach user space, and that a
    clear waits for the handlers it must wait for. */
module BreakpointsEvents {
  import opened Memory
  import opened Breakpoints

  // ----- What the ring takes ------------------------------------------------------

  /** The event of a hit: the id its slot was given, and what the handler saw. */
  function EventOf(s: State, i: nat, payload: nat): Event
    requires i in s.slots && s.slots[i].id.Some?
  {
    Event(s.slots[i].id.value, payload)
  }

  /** A hit is taken while fewer than 256 events wait, and dropped without a trace
      otherwise; it changes nothing else. */
  lemma EmitTakesWithRoom(s: State, i: nat, payload: nat)
    requires Inv(s) && Take(s, HandlerEmit(i, payload)).Some?
    ensures i in s.slots && s.slots[i].id.Some?
    ensures Take(s, HandlerEmit(i, payload)).value ==
      if |s.ring| < 256
      then s.(ring := s.ring + [EventOf(s, i, payload)], accepted := s.accepted + [EventOf(s, i, payload)])
      else s
  {
    assert SlotOk(s.slots[i], s.nextSlot);
  }

  /** The hits of a run that found room, in order. */
  ghost function Fitting(actions: seq<Action>): seq<Event>
    requires Run(actions).Some?
  {
    if actions == [] then []
    else
      var n := |actions| - 1;
      var before := Run(actions[..n]).value;
      var earlier := Fitting(actions[..n]);
      match actions[n]
      case HandlerEmit(i, payload) =>
        if |before.ring| < 256 && i in before.slots && before.slots[i].id.Some?
        then earlier + [EventOf(before, i, payload)] else earlier
      case _ => earlier
  }

  /** Those, and only those, are accepted. */
  lemma {:induction false} AcceptedAreFitting(actions: seq<Action>)
    requires Run(actions).Some?
    ensures Run(actions).value.accepted == Fitting(actions)
  {
    if actions != [] {
      var n := |actions| - 1;
      AcceptedAreFitting(actions[..n]);
      RunsKeepInv(actions[..n]);
      var s := Run(actions[..n]).value;
      if actions[n].HandlerEmit? {
        EmitTakesWithRoom(s, actions[n].slot, actions[n].payload);
      } else {
        OnlyEmitAccepts(s, actions[n]);
      }
    }
  }

  lemma OnlyEmitAccepts(s: State, a: Action)
    requires Take(s, a).Some? && !a.HandlerEmit?
    ensures forall s' :: Take(s, a) == Some(s') ==> s'.accepted == s.accepted
  {
    if BySet(a) {
      SetAccepts(s, a);
    } else if ByClear(a) {
      ClearAccepts(s, a);
    }
  }

  lemma SetAccepts(s: State, a: Action)
    requires SetStep(s, a).Some?
    ensures SetStep(s, a).value.accepted == s.accepted
  {
  }

  lemma ClearAccepts(s: State, a: Action)
    requires ClearStep(s, a).Some?
    ensures ClearStep(s, a).value.accepted == s.accepted
  {
  }

  // ----- Runs that show it --------------------------------------------------------------

  function RingState(events: seq<Event>): State {
    State(map[0 := ArmedSlot(1)], {0}, map[], 1, 1, events, events, [], NotStarted)
  }

  /** A handler that keeps emitting fills the ring, to any level up to 256. */
  lemma {:induction false} ARunThatFills(n: nat, payload: nat) returns (actions: seq<Action>, events: seq<Event>)
    requires 1 <= n <= 256
    ensures Run(actions).Some? && Run(actions).value == RingState(events) && |events| == n
    decreases n
  {
    if n == 1 {
      actions := ARunThatHits(payload);
      events := [Event(0, payload)];
    } else {
      actions, events := ARunThatFills(n - 1, payload);
      RunStep(actions, HandlerEmit(0, payload));
      actions, events := actions + [HandlerEmit(0, payload)], events + [Event(0, payload)];
    }
  }

  /** The next hit is lost; once one event has been read there is room again. */
  lemma ARunThatDrops(payload: nat) returns (actions: seq<Action>)
    ensures Run(actions).Some? && |Run(actions).value.ring| == 256
    ensures Run(actions + [HandlerEmit(0, payload)]) == Run(actions)
    ensures var read := actions + [WaitEvent];
            && Run(read).Some? && Run(read + [HandlerEmit(0, payload)]).Some?
            && |Run(read + [HandlerEmit(0, payload)]).value.accepted| == 257
  {
    var events;
    actions, events := ARunThatFills(256, payload);
    RunStep(actions, HandlerEmit(0, payload));
    RunStep(actions, WaitEvent);
    RunStep(actions + [WaitEvent], HandlerEmit(0, payload));
  }

  // ----- A uprobe ----------------------------------------------------------------------

  function UprobeSlot(handlers: nat, owner: Owner): Slot {
    Slot(Some(0), UprobeHook, handlers, owner, 1, 0, 1, 0, owner == OnList, None, None, 0)
  }

  /** Both references are held, nothing is hooked yet. */
  lemma AUprobeIsPrepared() returns (actions: seq<Action>)
    ensures Run(actions).Some?
    ensures Run(actions).value == State(map[0 := UprobeSlot(0, OwnedBy(0)).(hook := Unhooked)], {}, map[0 := Op(0, HasMm)],
                                        1, 1, [], [], [], NotStarted)
  {
    RunStep([], BeginSet(0));
    actions := [] + [BeginSet(0)];
    RunStep(actions, Number(0));
    actions := actions + [Number(0)];
    RunStep(actions, ResolveInode(0, true));
    actions := actions + [ResolveInode(0, true)];
    RunStep(actions, GrabMm(0, true));
    actions := actions + [GrabMm(0, true)];
  }

  lemma AUprobeIsSet() returns (actions: seq<Action>)
    ensures Run(actions).Some?
    ensures Run(actions).value == State(map[0 := UprobeSlot(0, OnList)], {0}, map[], 1, 1, [], [], [], NotStarted)
  {
    actions := AUprobeIsPrepared();
    RunStep(actions, RegisterUprobe(0, true));
    actions := actions + [RegisterUprobe(0, true)];
    RunStep(actions, Publish(0));
    actions := actions + [Publish(0)];
  }

  /** A clear that comes while a handler runs: unhooked, but not yet synced. */
  lemma AClearMidHit() returns (actions: seq<Action>)
    ensures Run(actions).Some?
    ensures var s := Run(actions).value;
            && s.ops == map[1 := Op(0, Detached(true))] && s.list == {} && s.teardown == NotStarted
            && 0 in s.slots
            && s.slots[0] == UprobeSlot(1, OwnedBy(1)).(hook := Unhooked, published := true, unlinkedBy := Some(Ioctl(1)))
  {
    actions := AUprobeIsSet();
    RunStep(actions, HandlerEnter(0));
    actions := actions + [HandlerEnter(0)];
    RunStep(actions, BeginClear(1, 0));
    actions := actions + [BeginClear(1, 0)];
    RunStep(actions, DetachCleared(1));
    actions := actions + [DetachCleared(1)];
  }

  /** It can neither sync nor free the slot until the handler has left; then it does
      both, and gives back the inode and the address space. */
  lemma AClearWaits() returns (actions: seq<Action>)
    ensures Run(actions + [SyncCleared(1)]).None? && Run(actions + [ReclaimCleared(1)]).None?
    ensures var more := actions + [HandlerLeave(0)] + [SyncCleared(1)] + [ReclaimCleared(1)];
            && Run(more).Some? && Run(more).value.ops == map[] && 0 in Run(more).value.slots
            && var x := Run(more).value.slots[0];
               x.owner == Freed && x.reclaimedBy == Some(Ioctl(1)) && x.inodePuts == x.inodeGets == 1 && x.mmPuts == x.mmGets == 1
  {
    actions := AClearMidHit();
    RunStep(actions, SyncCleared(1));
    RunStep(actions, ReclaimCleared(1));
    RunStep(actions, HandlerLeave(0));
    RunStep(actions + [HandlerLeave(0)], SyncCleared(1));
    RunStep(actions + [HandlerLeave(0)] + [SyncCleared(1)], ReclaimCleared(1));
  }
}
