/** How sessions of the breakpoint engine end
    (linux/nemclass_mod/src/debugger.c): whatever has happened so far, finishing
    what is under way closes the session, and it takes a bounded number of steps.
    No clear, no teardown and no wait for handlers can get stuck for good. */
module BreakpointsEnd {
  import opened Memory
  import opened Breakpoints

  /** Steps that finish something: ioctls run to their end, handlers leave, and the
      file is released. No new ioctl starts, no handler enters. */
  predicate Winding(a: Action) {
    !a.BeginSet? && !a.BeginClear? && !a.HandlerEnter? && !a.HandlerEmit? && !a.WaitEvent?
  }

  // ----- Work left -------------------------------------------------------------------

  function StageWork(stage: Stage): nat {
    match stage
    case Allocated => 7
    case Numbered => 6
    case HasInode => 5
    case HasMm => 4
    case Armed => 3
    case Unlinked => 3
    case Detached(_) => 2
    case Synced => 1
  }

  /** Steps the owner of a slot still needs for it. */
  function OwnerWork(s: State, x: Slot): nat {
    match x.owner
    case OwnedBy(op) => if op in s.ops then StageWork(s.ops[op].stage) else 0
    case OnList => 2
    case InTeardown => if x.hook != Unhooked then 2 else 1
    case Freed => 0
  }

  function SlotWork(s: State, i: nat): nat {
    if i in s.slots then s.slots[i].handlers + OwnerWork(s, s.slots[i]) else 0
  }

  function SlotsWork(s: State, n: nat): nat {
    if n == 0 then 0 else SlotsWork(s, n - 1) + SlotWork(s, n - 1)
  }

  function PhaseWork(t: Teardown): nat {
    match t
    case NotStarted => 4
    case Detaching(_, _, _) => 3
    case Syncing(_) => 2
    case Reclaiming(_) => 1
    case Closed => 0
  }

  function Work(s: State): nat {
    PhaseWork(s.teardown) + SlotsWork(s, s.nextAlloc)
  }

  lemma {:induction false} WorkDrops(s: State, s': State, n: nat, i: nat)
    requires forall j: nat :: j < n ==> SlotWork(s', j) <= SlotWork(s, j)
    ensures SlotsWork(s', n) <= SlotsWork(s, n)
    ensures i < n && SlotWork(s', i) < SlotWork(s, i) ==> SlotsWork(s', n) < SlotsWork(s, n)
  {
    if n > 0 {
      WorkDrops(s, s', n - 1, i);
    }
  }

  // ----- Every winding step does some of it -------------------------------------------

  /** A step that touches slot `i` and only ioctls that hold it. */
  ghost predicate Touches(s: State, s': State, i: nat) {
    && i in s.slots && i in s'.slots && s'.slots == s.slots[i := s'.slots[i]] && s'.nextAlloc == s.nextAlloc
    && forall o :: o in s.ops && s.ops[o].slot != i ==> o in s'.ops && s'.ops[o] == s.ops[o]
  }

  lemma TouchedWork(s: State, s': State, i: nat)
    requires SlotsOk(s) && Touches(s, s', i) && SlotWork(s', i) < SlotWork(s, i)
    requires PhaseWork(s'.teardown) <= PhaseWork(s.teardown)
    ensures Work(s') < Work(s)
  {
    forall j: nat | j < s.nextAlloc && j != i ensures SlotWork(s', j) == SlotWork(s, j) {
      assert j in s.slots && s.slots[j].owner.OwnedBy? ==> s.ops[s.slots[j].owner.op].slot == j;
    }
    WorkDrops(s, s', s.nextAlloc, i);
  }

  lemma AbandonWork(s: State, op: nat)
    requires Inv(s) && op in s.ops
    ensures Work(Abandon(s, op)) < Work(s)
  {
    var x := HeldSlot(s, op);
    TouchedWork(s, Abandon(s, op), s.ops[op].slot);
  }

  /** An ioctl reaches a later stage. */
  lemma StageWorkDrops(s: State, op: nat, x: Slot, stage: Stage, nextSlot: nat)
    requires Inv(s) && op in s.ops && StageWork(stage) < StageWork(s.ops[op].stage)
    requires x.owner == OwnedBy(op) && x.handlers == s.slots[s.ops[op].slot].handlers
    ensures Work(WithStage(WithSlot(s, s.ops[op].slot, x), op, stage).(nextSlot := nextSlot)) < Work(s)
  {
    var y := HeldSlot(s, op);
    TouchedWork(s, WithStage(WithSlot(s, s.ops[op].slot, x), op, stage).(nextSlot := nextSlot), s.ops[op].slot);
  }

  lemma SetWork(s: State, a: Action)
    requires Inv(s) && BySet(a) && Winding(a) && Take(s, a).Some?
    ensures forall s' :: Take(s, a) == Some(s') ==> Work(s') < Work(s)
  {
    if GivesUp(a) {
      GiveUpEffect(s, a);
      AbandonWork(s, a.op);
    } else if a.Publish? {
      PublishWork(s, a.op);
    } else {
      AdvanceEffect(s, a);
      var x := HeldSlot(s, a.op);
      StageWorkDrops(s, a.op, AfterSet(s, a, x), StageAfter(a), if a.Number? then s.nextSlot + 1 else s.nextSlot);
    }
  }

  lemma PublishWork(s: State, op: nat)
    requires Inv(s) && Take(s, Publish(op)).Some?
    ensures Work(Take(s, Publish(op)).value) < Work(s)
  {
    var x := HeldSlot(s, op);
    TouchedWork(s, Take(s, Publish(op)).value, s.ops[op].slot);
  }

  lemma ClearWork(s: State, a: Action)
    requires Inv(s) && ByClear(a) && Winding(a) && Take(s, a).Some?
    ensures forall s' :: Take(s, a) == Some(s') ==> Work(s') < Work(s)
  {
    var x := HeldSlot(s, a.op);
    match a
    case DetachCleared(op) =>
      DetachEffect(s, op);
      StageWorkDrops(s, op, x.(hook := Unhooked), Detached(x.hook == UprobeHook), s.nextSlot);
    case SyncCleared(op) =>
      SyncEffect(s, op);
      StageWorkDrops(s, op, x, Synced, s.nextSlot);
    case ReclaimCleared(op) =>
      ReclaimEffect(s, op);
      AbandonWork(s, op);
  }

  lemma LeaveWork(s: State, i: nat)
    requires Inv(s) && Take(s, HandlerLeave(i)).Some?
    ensures forall s' :: Take(s, HandlerLeave(i)) == Some(s') ==> Work(s') < Work(s)
  {
    HandlerCount(s, i);
    TouchedWork(s, Take(s, HandlerLeave(i)).value, i);
  }

  lemma BeginReleaseWork(s: State)
    requires Inv(s) && Take(s, BeginRelease).Some?
    ensures Work(Take(s, BeginRelease).value) < Work(s)
  {
    var s' := Take(s, BeginRelease).value;
    forall j: nat | j < s.nextAlloc ensures SlotWork(s', j) <= SlotWork(s, j) {
      assert j in s.slots ==> SlotOk(s.slots[j], s.nextSlot);
    }
    WorkDrops(s, s', s.nextAlloc, 0);
  }

  lemma PhaseDrops(s: State, t: Teardown)
    requires PhaseWork(t) < PhaseWork(s.teardown)
    ensures Work(s.(teardown := t)) < Work(s)
  {
    WorkDrops(s, s.(teardown := t), s.nextAlloc, 0);
  }

  lemma DetachOneWork(s: State, i: nat)
    requires Inv(s) && Take(s, DetachOne(i)).Some?
    ensures Work(Take(s, DetachOne(i)).value) < Work(s)
  {
    TouchedWork(s, Take(s, DetachOne(i)).value, i);
  }

  lemma ReclaimOneWork(s: State, i: nat)
    requires Inv(s) && Take(s, ReclaimOne(i)).Some?
    ensures Work(Take(s, ReclaimOne(i)).value) < Work(s)
  {
    TouchedWork(s, Take(s, ReclaimOne(i)).value, i);
  }

  lemma ReleaseWork(s: State, a: Action)
    requires Inv(s) && !BySet(a) && !ByClear(a) && !ByHit(a) && Take(s, a).Some?
    ensures forall s' :: Take(s, a) == Some(s') ==> Work(s') < Work(s)
  {
    match a
    case BeginRelease => BeginReleaseWork(s);
    case DetachOne(i) => DetachOneWork(s, i);
    case DetachedAll =>
      PhaseDrops(s, if s.teardown.needSync then Syncing(s.teardown.done) else Reclaiming(s.teardown.done));
    case SyncAll => PhaseDrops(s, Reclaiming(s.teardown.dead));
    case ReclaimOne(i) => ReclaimOneWork(s, i);
    case CloseSession => PhaseDrops(s, Closed);
  }

  lemma WindingDoesWork(s: State, a: Action)
    requires Inv(s) && Winding(a) && Take(s, a).Some?
    ensures forall s' :: Take(s, a) == Some(s') ==> Work(s') < Work(s)
  {
    if BySet(a) {
      SetWork(s, a);
    } else if ByClear(a) {
      ClearWork(s, a);
    } else if ByHit(a) {
      LeaveWork(s, a.slot);
    } else {
      ReleaseWork(s, a);
    }
  }

  // ----- There is always one until the session is closed --------------------------------

  /** What an ioctl does next; one that waits for handlers lets them leave first. */
  function NextOfOp(op: nat, x: Slot, i: nat, stage: Stage): Action {
    match stage
    case Allocated => Number(op)
    case Numbered => RefuseKind(op)
    case HasInode => GrabMm(op, false)
    case HasMm => RegisterUprobe(op, false)
    case Armed => Publish(op)
    case Unlinked => if CanDetach(x) then DetachCleared(op) else HandlerLeave(i)
    case Detached(needSync) =>
      if !needSync then ReclaimCleared(op) else if x.handlers == 0 then SyncCleared(op) else HandlerLeave(i)
    case Synced => ReclaimCleared(op)
  }

  lemma OpGoesOn(s: State, op: nat)
    requires Inv(s) && op in s.ops
    ensures var a := NextOfOp(op, s.slots[s.ops[op].slot], s.ops[op].slot, s.ops[op].stage);
            Winding(a) && Take(s, a).Some?
  {
    var x := HeldSlot(s, op);
  }

  lemma DetachingGoesOn(s: State) returns (a: Action)
    requires Inv(s) && s.teardown.Detaching?
    ensures Winding(a) && Take(s, a).Some?
  {
    if i :| i in s.teardown.todo {
      a := if CanDetach(s.slots[i]) then DetachOne(i) else HandlerLeave(i);
    } else {
      a := DetachedAll;
    }
  }

  lemma SyncingGoesOn(s: State) returns (a: Action)
    requires Inv(s) && s.teardown.Syncing?
    ensures Winding(a) && Take(s, a).Some?
  {
    if i :| i in s.teardown.dead && i in s.slots && s.slots[i].handlers > 0 {
      a := HandlerLeave(i);
    } else {
      a := SyncAll;
    }
  }

  lemma ReclaimingGoesOn(s: State) returns (a: Action)
    requires Inv(s) && s.teardown.Reclaiming?
    ensures Winding(a) && Take(s, a).Some?
  {
    if i :| i in s.teardown.todo {
      a := ReclaimOne(i);
    } else {
      a := CloseSession;
    }
  }

  /** In no reachable state is every way on blocked before the session is closed. */
  lemma NeverStuck(s: State) returns (a: Action)
    requires Inv(s) && s.teardown != Closed
    ensures Winding(a) && Take(s, a).Some?
  {
    if op :| op in s.ops {
      OpGoesOn(s, op);
      a := NextOfOp(op, s.slots[s.ops[op].slot], s.ops[op].slot, s.ops[op].stage);
    } else {
      match s.teardown
      case NotStarted => a := BeginRelease;
      case Detaching(_, _, _) => a := DetachingGoesOn(s);
      case Syncing(_) => a := SyncingGoesOn(s);
      case Reclaiming(_) => a := ReclaimingGoesOn(s);
    }
  }

  // ----- Every run can be ended, and ends -------------------------------------------------

  ghost predicate AllWinding(actions: seq<Action>) {
    forall a :: a in actions ==> Winding(a)
  }

  /** Winding down takes at most `Work` steps, whichever are chosen. */
  lemma {:induction false} WindingIsBounded(actions: seq<Action>, more: seq<Action>)
    requires Run(actions).Some? && Run(actions + more).Some? && AllWinding(more)
    ensures |more| + Work(Run(actions + more).value) <= Work(Run(actions).value)
    decreases |more|
  {
    if more == [] {
      assert actions + more == actions;
    } else {
      var n := |more| - 1;
      var before := actions + more[..n];
      assert actions + more == before + [more[n]];
      assert (actions + more)[..|before|] == before;
      WindingIsBounded(actions, more[..n]);
      RunsKeepInv(before);
      WindingDoesWork(Run(before).value, more[n]);
    }
  }

  /** One more step of winding down. */
  lemma OneMore(actions: seq<Action>) returns (a: Action)
    requires Run(actions).Some? && Run(actions).value.teardown != Closed
    ensures Winding(a) && Run(actions + [a]).Some?
    ensures Work(Run(actions + [a]).value) < Work(Run(actions).value)
  {
    RunsKeepInv(actions);
    a := NeverStuck(Run(actions).value);
    WindingDoesWork(Run(actions).value, a);
    RunStep(actions, a);
  }

  /** From every reachable state some way of winding down closes the session. */
  lemma {:induction false} EveryRunCanClose(actions: seq<Action>) returns (more: seq<Action>)
    requires Run(actions).Some?
    ensures AllWinding(more) && Run(actions + more).Some?
    ensures Run(actions + more).value.teardown == Closed
    decreases Work(Run(actions).value)
  {
    if Run(actions).value.teardown == Closed {
      more := [];
      assert actions + more == actions;
    } else {
      var a := OneMore(actions);
      var rest := EveryRunCanClose(actions + [a]);
      more := [a] + rest;
      assert actions + more == (actions + [a]) + rest;
    }
  }

  /** And every way does that is not broken off: winding down stops only at a closed
      session. */
  lemma WindingEndsClosed(actions: seq<Action>, more: seq<Action>)
    requires Run(actions).Some? && Run(actions + more).Some?
    requires forall a :: Winding(a) ==> Run(actions + more + [a]).None?
    ensures Run(actions + more).value.teardown == Closed
  {
    RunsKeepInv(actions + more);
    if Run(actions + more).value.teardown != Closed {
      var a := NeverStuck(Run(actions + more).value);
      RunStep(actions + more, a);
    }
  }
}
