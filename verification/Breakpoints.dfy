/** The breakpoint engine of one open file as a step system
    (linux/nemclass_mod/src/debugger.c): ioctl threads set and clear slots,
    handlers run on armed slots and fill the event ring, and the final release
    tears everything down. Steps are the atomic sections of the source; any
    interleaving of them is a run.

    The kernel calls are taken by their contracts: a hardware unregister returns
    only when no handler runs on the slot, `uprobe_unregister_nosync` stops new
    handlers, `uprobe_unregister_sync` returns only when those in flight are
    done, and release runs only when no ioctl is in flight. */
module Breakpoints {
  import opened Memory

  /** Capacity of the per-file event ring. */
  const EVENT_DEPTH: nat := 256

  datatype Hook = Unhooked | HwHook | UprobeHook

  /** Who may dispose of a slot. */
  datatype Owner = OwnedBy(op: nat) | OnList | InTeardown | Freed

  datatype Who = Ioctl(op: nat) | Release

  /** A slot, with the counters the claims are about. */
  datatype Slot = Slot(id: Option<nat>, hook: Hook, handlers: nat, owner: Owner,
                       inodeGets: nat, inodePuts: nat, mmGets: nat, mmPuts: nat,
                       published: bool, unlinkedBy: Option<Who>, reclaimedBy: Option<Who>, reclaims: nat)
  {
    predicate HoldsInode() {
      inodeGets != inodePuts
    }

    predicate HoldsMm() {
      mmGets != mmPuts
    }
  }

  datatype Stage =
    | Allocated | Numbered | HasInode | HasMm | Armed          // setting
    | Unlinked | Detached(needSync: bool) | Synced             // clearing

  datatype Op = Op(slot: nat, stage: Stage)

  datatype Event = Event(slot: nat, payload: nat)

  datatype Teardown =
    | NotStarted
    | Detaching(todo: set<nat>, done: set<nat>, needSync: bool)
    | Syncing(dead: set<nat>)
    | Reclaiming(todo: set<nat>)
    | Closed

  datatype State = State(slots: map<nat, Slot>, list: set<nat>, ops: map<nat, Op>, nextSlot: nat, nextAlloc: nat,
                         ring: seq<Event>, accepted: seq<Event>, dequeued: seq<Event>, teardown: Teardown)

  function Init(): State {
    State(map[], {}, map[], 0, 0, [], [], [], NotStarted)
  }

  datatype Action =
    | BeginSet(op: nat)
    | Number(op: nat)
    | RefuseKind(op: nat)
    | ArmHw(op: nat, ok: bool)
    | ResolveInode(op: nat, ok: bool)
    | GrabMm(op: nat, ok: bool)
    | RegisterUprobe(op: nat, ok: bool)
    | Publish(op: nat)
    | BeginClear(op: nat, slot: nat)    // the listed slot whose id the request names
    | DetachCleared(op: nat)
    | SyncCleared(op: nat)
    | ReclaimCleared(op: nat)
    | HandlerEnter(slot: nat)
    | HandlerEmit(slot: nat, payload: nat)
    | HandlerLeave(slot: nat)
    | WaitEvent
    | BeginRelease
    | DetachOne(slot: nat)
    | DetachedAll
    | SyncAll
    | ReclaimOne(slot: nat)
    | CloseSession

  // ----- Steps -----------------------------------------------------------------

  predicate AtStage(s: State, op: nat, stage: Stage) {
    op in s.ops && s.ops[op].stage == stage && s.ops[op].slot in s.slots
  }

  /** `iput` and `mmdrop` whatever is held, then `kfree`. */
  function Reclaimed(x: Slot, who: Who): Slot {
    x.(inodePuts := if x.HoldsInode() then x.inodePuts + 1 else x.inodePuts,
       mmPuts := if x.HoldsMm() then x.mmPuts + 1 else x.mmPuts,
       owner := Freed, reclaimedBy := Some(who), reclaims := x.reclaims + 1)
  }

  /** The setting ioctl gives up: undo the references and free the slot. */
  function Abandon(s: State, op: nat): State
    requires op in s.ops && s.ops[op].slot in s.slots
  {
    var i := s.ops[op].slot;
    s.(slots := s.slots[i := Reclaimed(s.slots[i], Ioctl(op))], ops := s.ops - {op})
  }

  function WithSlot(s: State, i: nat, x: Slot): State {
    s.(slots := s.slots[i := x])
  }

  function WithStage(s: State, op: nat, stage: Stage): State
    requires op in s.ops
  {
    s.(ops := s.ops[op := s.ops[op].(stage := stage)])
  }

  /** `slot_detach`: the hook is gone; a hardware unregister also waits. */
  predicate CanDetach(x: Slot) {
    x.hook == HwHook ==> x.handlers == 0
  }

  /** Steps of `nemclass_bp_set`. */
  function SetStep(s: State, a: Action): Option<State> {
    match a
    case BeginSet(op) =>
      if s.teardown != NotStarted || op in s.ops || s.nextAlloc in s.slots then None
      else
        var i := s.nextAlloc;
        var x := Slot(None, Unhooked, 0, OwnedBy(op), 0, 0, 0, 0, false, None, None, 0);
        Some(s.(slots := s.slots[i := x], ops := s.ops[op := Op(i, Allocated)], nextAlloc := i + 1))
    case Number(op) =>
      if !AtStage(s, op, Allocated) then None
      else
        var i := s.ops[op].slot;
        Some(WithStage(WithSlot(s, i, s.slots[i].(id := Some(s.nextSlot))), op, Numbered).(nextSlot := s.nextSlot + 1))
    case RefuseKind(op) =>
      if !AtStage(s, op, Numbered) then None else Some(Abandon(s, op))
    case ArmHw(op, ok) =>
      if !AtStage(s, op, Numbered) then None
      else if !ok then Some(Abandon(s, op))
      else
        var i := s.ops[op].slot;
        Some(WithStage(WithSlot(s, i, s.slots[i].(hook := HwHook)), op, Armed))
    case ResolveInode(op, ok) =>
      if !AtStage(s, op, Numbered) then None
      else if !ok then Some(Abandon(s, op))
      else
        var i := s.ops[op].slot;
        Some(WithStage(WithSlot(s, i, s.slots[i].(inodeGets := s.slots[i].inodeGets + 1)), op, HasInode))
    case GrabMm(op, ok) =>
      if !AtStage(s, op, HasInode) then None
      else if !ok then Some(Abandon(s, op))
      else
        var i := s.ops[op].slot;
        Some(WithStage(WithSlot(s, i, s.slots[i].(mmGets := s.slots[i].mmGets + 1)), op, HasMm))
    case RegisterUprobe(op, ok) =>
      if !AtStage(s, op, HasMm) then None
      else if !ok then Some(Abandon(s, op))
      else
        var i := s.ops[op].slot;
        Some(WithStage(WithSlot(s, i, s.slots[i].(hook := UprobeHook)), op, Armed))
    case Publish(op) =>
      if !AtStage(s, op, Armed) then None
      else
        var i := s.ops[op].slot;
        Some(WithSlot(s, i, s.slots[i].(owner := OnList, published := true)).(list := s.list + {i}, ops := s.ops - {op}))
    case _ => None
  }

  /** Steps of `nemclass_bp_clear`. */
  function ClearStep(s: State, a: Action): Option<State> {
    match a
    case BeginClear(op, i) =>
      if s.teardown != NotStarted || op in s.ops || i !in s.list || i !in s.slots then None
      else
        Some(WithSlot(s, i, s.slots[i].(owner := OwnedBy(op), unlinkedBy := Some(Ioctl(op))))
               .(list := s.list - {i}, ops := s.ops[op := Op(i, Unlinked)]))
    case DetachCleared(op) =>
      if !AtStage(s, op, Unlinked) || !CanDetach(s.slots[s.ops[op].slot]) then None
      else
        var i := s.ops[op].slot;
        Some(WithStage(WithSlot(s, i, s.slots[i].(hook := Unhooked)), op, Detached(s.slots[i].hook == UprobeHook)))
    case SyncCleared(op) =>
      if !AtStage(s, op, Detached(true)) || s.slots[s.ops[op].slot].handlers > 0 then None
      else Some(WithStage(s, op, Synced))
    case ReclaimCleared(op) =>
      if !AtStage(s, op, Detached(false)) && !AtStage(s, op, Synced) then None else Some(Abandon(s, op))
    case _ => None
  }

  /** A handler comes, emits and goes; a waiter takes an event. */
  function HitStep(s: State, a: Action): Option<State> {
    match a
    case HandlerEnter(i) =>
      if i !in s.slots || s.slots[i].hook == Unhooked then None
      else Some(WithSlot(s, i, s.slots[i].(handlers := s.slots[i].handlers + 1)))
    case HandlerEmit(i, payload) =>
      if i !in s.slots || s.slots[i].handlers == 0 then None
      else if |s.ring| >= EVENT_DEPTH then Some(s)
      else
        var ev := Event(match s.slots[i].id case Some(n) => n case None => 0, payload);
        Some(s.(ring := s.ring + [ev], accepted := s.accepted + [ev]))
    case HandlerLeave(i) =>
      if i !in s.slots || s.slots[i].handlers == 0 then None
      else Some(WithSlot(s, i, s.slots[i].(handlers := s.slots[i].handlers - 1)))
    case WaitEvent =>
      if s.ring == [] then None
      else Some(s.(ring := s.ring[1..], dequeued := s.dequeued + [s.ring[0]]))
    case _ => None
  }

  /** Steps of `nemclass_session_free_slots`. */
  function ReleaseStep(s: State, a: Action): Option<State> {
    match a
    case BeginRelease =>
      if s.teardown != NotStarted || s.ops != map[] then None
      else
        Some(s.(slots := Spliced(s.slots, s.list), list := {}, teardown := Detaching(s.list, {}, false)))
    case DetachOne(i) =>
      (match s.teardown
       case Detaching(todo, done, needSync) =>
         if i !in todo || i !in s.slots || !CanDetach(s.slots[i]) then None
         else Some(WithSlot(s, i, s.slots[i].(hook := Unhooked))
                     .(teardown := Detaching(todo - {i}, done + {i}, needSync || s.slots[i].hook == UprobeHook)))
       case _ => None)
    case DetachedAll =>
      (match s.teardown
       case Detaching(todo, done, needSync) =>
         if todo != {} then None else Some(s.(teardown := if needSync then Syncing(done) else Reclaiming(done)))
       case _ => None)
    case SyncAll =>
      (match s.teardown
       case Syncing(dead) =>
         if exists i :: i in dead && i in s.slots && s.slots[i].handlers > 0 then None
         else Some(s.(teardown := Reclaiming(dead)))
       case _ => None)
    case ReclaimOne(i) =>
      (match s.teardown
       case Reclaiming(todo) =>
         if i !in todo || i !in s.slots then None
         else Some(WithSlot(s, i, Reclaimed(s.slots[i], Release)).(teardown := Reclaiming(todo - {i})))
       case _ => None)
    case CloseSession =>
      if s.teardown == Reclaiming({}) then Some(s.(teardown := Closed)) else None
    case _ => None
  }

  predicate BySet(a: Action) {
    a.BeginSet? || a.Number? || a.RefuseKind? || a.ArmHw? || a.ResolveInode? || a.GrabMm? || a.RegisterUprobe?
    || a.Publish?
  }

  predicate ByClear(a: Action) {
    a.BeginClear? || a.DetachCleared? || a.SyncCleared? || a.ReclaimCleared?
  }

  predicate ByHit(a: Action) {
    a.HandlerEnter? || a.HandlerEmit? || a.HandlerLeave? || a.WaitEvent?
  }

  /** One atomic step; `None` when the action is not enabled. */
  function Take(s: State, a: Action): Option<State> {
    if BySet(a) then SetStep(s, a)
    else if ByClear(a) then ClearStep(s, a)
    else if ByHit(a) then HitStep(s, a)
    else ReleaseStep(s, a)
  }

  /** `list_splice_init`: the whole list changes hands at once. */
  function Spliced(slots: map<nat, Slot>, list: set<nat>): map<nat, Slot> {
    map i | i in slots ::
      if i in list then slots[i].(owner := InTeardown, unlinkedBy := Some(Release)) else slots[i]
  }

  /** The state after a run, if every action of it was enabled. */
  function Run(actions: seq<Action>): Option<State> {
    if actions == [] then Some(Init())
    else match Run(actions[..|actions| - 1])
         case None => None
         case Some(s) => Take(s, actions[|actions| - 1])
  }

  // ----- The invariant ------------------------------------------------------------

  /** What a slot's own fields say of each other. */
  ghost predicate SlotOk(x: Slot, nextSlot: nat) {
    && x.inodePuts <= x.inodeGets <= x.inodePuts + 1 && x.mmPuts <= x.mmGets <= x.mmPuts + 1
    && (x.id.Some? ==> x.id.value < nextSlot)
    && (x.hook != Unhooked ==> x.id.Some?)
    && (x.handlers > 0 ==> x.id.Some?)
    && x.reclaims == (if x.owner == Freed then 1 else 0)
    && (x.owner == Freed ==>
          && x.hook == Unhooked && x.handlers == 0 && !x.HoldsInode() && !x.HoldsMm()
          && x.reclaimedBy.Some? && (x.published ==> x.unlinkedBy == x.reclaimedBy))
    && (x.owner != Freed ==> x.reclaimedBy.None?)
    && (x.owner == OnList ==> x.hook != Unhooked && x.published)
  }

  /** What the ioctl holding a slot knows of it at each stage. */
  ghost predicate OpOk(x: Slot, op: nat, stage: Stage) {
    && x.owner == OwnedBy(op)
    && match stage
       case Allocated => x.hook == Unhooked && x.handlers == 0 && x.id.None? && !x.published
       case Numbered => x.hook == Unhooked && x.handlers == 0 && x.id.Some? && !x.published
       case HasInode => x.hook == Unhooked && x.handlers == 0 && x.id.Some? && !x.published
       case HasMm => x.hook == Unhooked && x.handlers == 0 && x.id.Some? && !x.published
       case Armed => x.hook != Unhooked && !x.published
       case Unlinked => x.hook != Unhooked && x.unlinkedBy == Some(Ioctl(op))
       case Detached(needSync) =>
         x.hook == Unhooked && x.unlinkedBy == Some(Ioctl(op)) && (!needSync ==> x.handlers == 0)
       case Synced => x.hook == Unhooked && x.unlinkedBy == Some(Ioctl(op)) && x.handlers == 0
  }

  /** The references taken so far, by stage. */
  ghost predicate RefsOk(x: Slot, stage: Stage) {
    match stage
    case Allocated => !x.HoldsInode() && !x.HoldsMm()
    case Numbered => !x.HoldsInode() && !x.HoldsMm()
    case HasInode => x.HoldsInode() && !x.HoldsMm()
    case HasMm => x.HoldsInode() && x.HoldsMm()
    case _ => true
  }

  ghost predicate Dying(x: Slot) {
    x.owner == InTeardown && x.unlinkedBy == Some(Release)
  }

  ghost predicate TeardownOk(s: State) {
    match s.teardown
    case NotStarted => forall i :: i in s.slots ==> s.slots[i].owner != InTeardown
    case Detaching(todo, done, needSync) =>
      && todo !! done
      && (forall i :: i in s.slots ==> (s.slots[i].owner == InTeardown <==> i in todo + done))
      && (forall i :: i in todo ==> i in s.slots && Dying(s.slots[i]) && s.slots[i].hook != Unhooked)
      && (forall i :: i in done ==> i in s.slots && Dying(s.slots[i]) && s.slots[i].hook == Unhooked)
      && (!needSync ==> forall i :: i in done && i in s.slots ==> s.slots[i].handlers == 0)
    case Syncing(dead) =>
      && (forall i :: i in s.slots ==> (s.slots[i].owner == InTeardown <==> i in dead))
      && (forall i :: i in dead ==> i in s.slots && Dying(s.slots[i]) && s.slots[i].hook == Unhooked)
    case Reclaiming(todo) =>
      && (forall i :: i in s.slots ==> (s.slots[i].owner == InTeardown <==> i in todo))
      && (forall i :: i in todo ==> i in s.slots && Dying(s.slots[i]) && s.slots[i].hook == Unhooked)
      && (forall i :: i in todo && i in s.slots ==> s.slots[i].handlers == 0)
    case Closed => forall i :: i in s.slots ==> s.slots[i].owner == Freed
  }

  ghost predicate SlotsOk(s: State) {
    && (forall i :: i in s.slots ==> i < s.nextAlloc && SlotOk(s.slots[i], s.nextSlot))
    && (forall i :: i in s.slots ==> (s.slots[i].owner == OnList <==> i in s.list))
    && (forall i :: i in s.list ==> i in s.slots)
    && (forall i :: i in s.slots && s.slots[i].owner.OwnedBy? ==>
          s.slots[i].owner.op in s.ops && s.ops[s.slots[i].owner.op].slot == i)
  }

  ghost predicate OpsOk(s: State) {
    && (forall o :: o in s.ops ==> s.ops[o].slot in s.slots)
    && (forall o :: o in s.ops ==> OpOk(s.slots[s.ops[o].slot], o, s.ops[o].stage))
    && (forall o :: o in s.ops ==> RefsOk(s.slots[s.ops[o].slot], s.ops[o].stage))
    && (s.teardown != NotStarted ==> s.ops == map[] && s.list == {})
  }

  /** Slot ids are never reused. */
  ghost predicate IdsOk(s: State) {
    forall i, j :: i in s.slots && j in s.slots && i != j && s.slots[i].id.Some? ==> s.slots[i].id != s.slots[j].id
  }

  ghost predicate RingOk(s: State) {
    s.accepted == s.dequeued + s.ring && |s.ring| <= EVENT_DEPTH
  }

  ghost predicate Inv(s: State) {
    SlotsOk(s) && OpsOk(s) && TeardownOk(s) && IdsOk(s) && RingOk(s)
  }

  // ----- Every step keeps it ---------------------------------------------------------

  /** Changing one slot keeps ids distinct, if its id stays or is brand new. */
  lemma IdsStep(s: State, i: nat, x: Slot, s': State)
    requires IdsOk(s) && s'.slots == s.slots[i := x]
    requires forall j :: j in s.slots && s.slots[j].id.Some? ==> s.slots[j].id.value < s.nextSlot
    requires (i in s.slots && x.id == s.slots[i].id) || x.id.None? || x.id == Some(s.nextSlot)
    ensures IdsOk(s')
  {
  }

  /** Changing one slot that is, and stays, outside the teardown. */
  lemma OutsideTeardown(s: State, i: nat, x: Slot, s': State)
    requires TeardownOk(s) && s.teardown == NotStarted && s'.teardown == NotStarted
    requires s'.slots == s.slots[i := x] && x.owner != InTeardown
    ensures TeardownOk(s')
  {
  }

  /** The holder of a slot moves it to its next stage. */
  lemma StageStep(s: State, op: nat, x: Slot, stage: Stage, nextSlot: nat)
    requires Inv(s) && op in s.ops && s.nextSlot <= nextSlot
    requires SlotOk(x, nextSlot) && OpOk(x, op, stage) && RefsOk(x, stage)
    requires x.id == s.slots[s.ops[op].slot].id || x.id == Some(s.nextSlot)
    ensures Inv(WithStage(WithSlot(s, s.ops[op].slot, x), op, stage).(nextSlot := nextSlot))
  {
    var i := s.ops[op].slot;
    var s' := WithStage(WithSlot(s, i, x), op, stage).(nextSlot := nextSlot);
    assert SlotOk(s.slots[i], s.nextSlot) && OpOk(s.slots[i], op, s.ops[op].stage);
    IdsStep(s, i, x, s');
    OutsideTeardown(s, i, x, s');
    StageSlots(s, op, x, stage, nextSlot);
    StageOps(s, op, x, stage, nextSlot);
  }

  lemma StageSlots(s: State, op: nat, x: Slot, stage: Stage, nextSlot: nat)
    requires SlotsOk(s) && op in s.ops && s.ops[op].slot in s.slots && s.nextSlot <= nextSlot
    requires SlotOk(x, nextSlot) && x.owner == s.slots[s.ops[op].slot].owner == OwnedBy(op)
    ensures SlotsOk(WithStage(WithSlot(s, s.ops[op].slot, x), op, stage).(nextSlot := nextSlot))
  {
  }

  lemma StageOps(s: State, op: nat, x: Slot, stage: Stage, nextSlot: nat)
    requires OpsOk(s) && op in s.ops && OpOk(x, op, stage) && RefsOk(x, stage)
    ensures OpsOk(WithStage(WithSlot(s, s.ops[op].slot, x), op, stage).(nextSlot := nextSlot))
  {
    var i := s.ops[op].slot;
    forall o | o in s.ops && o != op ensures s.ops[o].slot != i {
      assert OpOk(s.slots[s.ops[o].slot], o, s.ops[o].stage) && OpOk(s.slots[i], op, s.ops[op].stage);
    }
  }

  /** The holder of a slot lets go of it: `x` is the slot as it leaves it. */
  lemma LetGoStep(s: State, op: nat, x: Slot, list: set<nat>)
    requires Inv(s) && op in s.ops && SlotOk(x, s.nextSlot) && x.id == s.slots[s.ops[op].slot].id
    requires (x.owner == Freed && list == s.list) || (x.owner == OnList && list == s.list + {s.ops[op].slot})
    ensures Inv(WithSlot(s, s.ops[op].slot, x).(list := list, ops := s.ops - {op}))
  {
    var i := s.ops[op].slot;
    var s' := WithSlot(s, i, x).(list := list, ops := s.ops - {op});
    assert OpOk(s.slots[i], op, s.ops[op].stage);
    forall j | j in s.slots ensures SlotOk(s.slots[j], s.nextSlot) {
    }
    IdsStep(s, i, x, s');
    OutsideTeardown(s, i, x, s');
    LetGoSlots(s, op, x, list);
    LetGoOps(s, op, x, list);
  }

  lemma LetGoSlots(s: State, op: nat, x: Slot, list: set<nat>)
    requires SlotsOk(s) && op in s.ops && s.ops[op].slot in s.slots && SlotOk(x, s.nextSlot)
    requires s.slots[s.ops[op].slot].owner == OwnedBy(op)
    requires (x.owner == Freed && list == s.list) || (x.owner == OnList && list == s.list + {s.ops[op].slot})
    ensures SlotsOk(WithSlot(s, s.ops[op].slot, x).(list := list, ops := s.ops - {op}))
  {
  }

  lemma LetGoOps(s: State, op: nat, x: Slot, list: set<nat>)
    requires OpsOk(s) && op in s.ops && s.teardown == NotStarted
    ensures OpsOk(WithSlot(s, s.ops[op].slot, x).(list := list, ops := s.ops - {op}))
  {
    var i := s.ops[op].slot;
    forall o | o in s.ops && o != op ensures s.ops[o].slot != i {
      assert OpOk(s.slots[s.ops[o].slot], o, s.ops[o].stage) && OpOk(s.slots[i], op, s.ops[op].stage);
    }
  }

  /** The holder of an idle, unhooked slot frees it. */
  lemma AbandonStep(s: State, op: nat)
    requires Inv(s) && op in s.ops
    requires var x := s.slots[s.ops[op].slot];
             x.hook == Unhooked && x.handlers == 0 && (x.published ==> x.unlinkedBy == Some(Ioctl(op)))
    ensures Inv(Abandon(s, op))
  {
    var i := s.ops[op].slot;
    assert SlotOk(s.slots[i], s.nextSlot) && OpOk(s.slots[i], op, s.ops[op].stage);
    LetGoStep(s, op, Reclaimed(s.slots[i], Ioctl(op)), s.list);
  }

  lemma PublishStep(s: State, op: nat)
    requires Inv(s) && Take(s, Publish(op)).Some?
    ensures Inv(Take(s, Publish(op)).value)
  {
    var i := s.ops[op].slot;
    assert SlotOk(s.slots[i], s.nextSlot) && OpOk(s.slots[i], op, s.ops[op].stage);
    LetGoStep(s, op, s.slots[i].(owner := OnList, published := true), s.list + {i});
  }

  /** A new ioctl takes hold of slot `i`: freshly allocated, or off the list. */
  lemma HoldStep(s: State, op: nat, i: nat, x: Slot, stage: Stage, nextAlloc: nat)
    requires Inv(s) && s.teardown == NotStarted && op !in s.ops
    requires SlotOk(x, s.nextSlot) && OpOk(x, op, stage) && RefsOk(x, stage)
    requires (i == s.nextAlloc && i !in s.slots && x.id.None? && nextAlloc == i + 1)
          || (i in s.list && x.id == s.slots[i].id && nextAlloc == s.nextAlloc)
    ensures Inv(WithSlot(s, i, x).(list := s.list - {i}, ops := s.ops[op := Op(i, stage)], nextAlloc := nextAlloc))
  {
    var s' := WithSlot(s, i, x).(list := s.list - {i}, ops := s.ops[op := Op(i, stage)], nextAlloc := nextAlloc);
    forall j | j in s.slots ensures SlotOk(s.slots[j], s.nextSlot) {
    }
    IdsStep(s, i, x, s');
    OutsideTeardown(s, i, x, s');
    HoldSlots(s, op, i, x, stage, nextAlloc);
    HoldOps(s, op, i, x, stage, nextAlloc);
  }

  lemma HoldSlots(s: State, op: nat, i: nat, x: Slot, stage: Stage, nextAlloc: nat)
    requires SlotsOk(s) && op !in s.ops && SlotOk(x, s.nextSlot) && x.owner == OwnedBy(op)
    requires i < nextAlloc && s.nextAlloc <= nextAlloc && (i in s.slots ==> s.slots[i].owner == OnList)
    ensures SlotsOk(WithSlot(s, i, x).(list := s.list - {i}, ops := s.ops[op := Op(i, stage)], nextAlloc := nextAlloc))
  {
  }

  lemma HoldOps(s: State, op: nat, i: nat, x: Slot, stage: Stage, nextAlloc: nat)
    requires OpsOk(s) && op !in s.ops && s.teardown == NotStarted && OpOk(x, op, stage) && RefsOk(x, stage)
    requires i in s.slots ==> s.slots[i].owner == OnList
    ensures OpsOk(WithSlot(s, i, x).(list := s.list - {i}, ops := s.ops[op := Op(i, stage)], nextAlloc := nextAlloc))
  {
    forall o | o in s.ops ensures s.ops[o].slot != i {
      assert OpOk(s.slots[s.ops[o].slot], o, s.ops[o].stage);
    }
  }

  lemma BeginSetStep(s: State, op: nat)
    requires Inv(s) && Take(s, BeginSet(op)).Some?
    ensures Inv(Take(s, BeginSet(op)).value)
  {
    var i := s.nextAlloc;
    assert i !in s.list;
    assert s.list - {i} == s.list;
    HoldStep(s, op, i, Slot(None, Unhooked, 0, OwnedBy(op), 0, 0, 0, 0, false, None, None, 0), Allocated, i + 1);
  }

  lemma BeginClearStep(s: State, op: nat, i: nat)
    requires Inv(s) && Take(s, BeginClear(op, i)).Some?
    ensures Inv(Take(s, BeginClear(op, i)).value)
  {
    assert SlotOk(s.slots[i], s.nextSlot);
    HoldStep(s, op, i, s.slots[i].(owner := OwnedBy(op), unlinkedBy := Some(Ioctl(op))), Unlinked, s.nextAlloc);
  }

  /** Changing one slot without changing hands. */
  lemma SlotsKeep(s: State, i: nat, x: Slot, s': State)
    requires SlotsOk(s) && i in s.slots && SlotOk(x, s.nextSlot) && !x.owner.OwnedBy? && x.owner != OnList
    requires s.slots[i].owner == InTeardown
    requires s'.slots == s.slots[i := x] && s'.list == s.list && s'.ops == s.ops
    requires s'.nextSlot == s.nextSlot && s'.nextAlloc == s.nextAlloc
    ensures SlotsOk(s')
  {
  }

  /** Handlers come and go on hooked or still-running slots only. */
  lemma HandlerStep(s: State, i: nat, handlers: nat)
    requires Inv(s) && i in s.slots
    requires s.slots[i].hook != Unhooked || handlers < s.slots[i].handlers
    ensures Inv(WithSlot(s, i, s.slots[i].(handlers := handlers)))
  {
    var x := s.slots[i].(handlers := handlers);
    var s' := WithSlot(s, i, x);
    assert SlotOk(s.slots[i], s.nextSlot) && SlotOk(x, s.nextSlot);
    IdsStep(s, i, x, s');
    HandlerSlots(s, i, handlers);
    HandlerOps(s, i, handlers);
    HandlerTeardown(s, i, handlers);
  }

  lemma HandlerSlots(s: State, i: nat, handlers: nat)
    requires SlotsOk(s) && i in s.slots && SlotOk(s.slots[i].(handlers := handlers), s.nextSlot)
    ensures SlotsOk(WithSlot(s, i, s.slots[i].(handlers := handlers)))
  {
  }

  lemma HandlerOps(s: State, i: nat, handlers: nat)
    requires OpsOk(s) && i in s.slots && (s.slots[i].hook != Unhooked || handlers < s.slots[i].handlers)
    ensures OpsOk(WithSlot(s, i, s.slots[i].(handlers := handlers)))
  {
    var x := s.slots[i].(handlers := handlers);
    forall o | o in s.ops && s.ops[o].slot == i ensures OpOk(x, o, s.ops[o].stage) && RefsOk(x, s.ops[o].stage) {
      assert OpOk(s.slots[i], o, s.ops[o].stage) && RefsOk(s.slots[i], s.ops[o].stage);
    }
  }

  lemma HandlerTeardown(s: State, i: nat, handlers: nat)
    requires TeardownOk(s) && i in s.slots && (s.slots[i].hook != Unhooked || handlers < s.slots[i].handlers)
    requires s.slots[i].owner == Freed ==> s.slots[i].handlers == 0 && s.slots[i].hook == Unhooked
    ensures TeardownOk(WithSlot(s, i, s.slots[i].(handlers := handlers)))
  {
  }

  lemma BeginReleaseStep(s: State)
    requires Inv(s) && Take(s, BeginRelease).Some?
    ensures Inv(Take(s, BeginRelease).value)
  {
    var s' := Take(s, BeginRelease).value;
    forall i | i in s'.slots ensures SlotOk(s'.slots[i], s'.nextSlot) {
      assert SlotOk(s.slots[i], s.nextSlot);
    }
  }

  lemma DetachOneStep(s: State, i: nat)
    requires Inv(s) && Take(s, DetachOne(i)).Some?
    ensures Inv(Take(s, DetachOne(i)).value)
  {
    var s' := Take(s, DetachOne(i)).value;
    assert SlotOk(s.slots[i], s.nextSlot) && SlotOk(s'.slots[i], s.nextSlot);
    IdsStep(s, i, s'.slots[i], s');
    SlotsKeep(s, i, s'.slots[i], s');
    DetachOneTeardown(s, i);
  }

  lemma DetachOneTeardown(s: State, i: nat)
    requires TeardownOk(s) && Take(s, DetachOne(i)).Some?
    ensures TeardownOk(Take(s, DetachOne(i)).value)
  {
  }

  lemma ReclaimOneStep(s: State, i: nat)
    requires Inv(s) && Take(s, ReclaimOne(i)).Some?
    ensures Inv(Take(s, ReclaimOne(i)).value)
  {
    var s' := Take(s, ReclaimOne(i)).value;
    assert SlotOk(s.slots[i], s.nextSlot) && SlotOk(s'.slots[i], s.nextSlot);
    IdsStep(s, i, s'.slots[i], s');
    SlotsKeep(s, i, s'.slots[i], s');
  }

  lemma CloseStep(s: State)
    requires Inv(s) && s.teardown == Reclaiming({})
    ensures Inv(s.(teardown := Closed))
  {
  }

  /** Setting steps that end the ioctl with an error. */
  predicate GivesUp(a: Action) {
    || a.RefuseKind? || (a.ArmHw? && !a.ok) || (a.ResolveInode? && !a.ok) || (a.GrabMm? && !a.ok)
    || (a.RegisterUprobe? && !a.ok)
  }

  /** What giving up does, and at which stages it can happen. */
  lemma GiveUpEffect(s: State, a: Action)
    requires GivesUp(a) && Take(s, a).Some?
    ensures a.op in s.ops && s.ops[a.op].slot in s.slots && Take(s, a).value == Abandon(s, a.op)
    ensures s.ops[a.op].stage in {Numbered, HasInode, HasMm}
  {
  }

  lemma GiveUpStep(s: State, a: Action)
    requires Inv(s) && GivesUp(a) && Take(s, a).Some?
    ensures forall s' :: Take(s, a) == Some(s') ==> Inv(s')
  {
    GiveUpEffect(s, a);
    var x := HeldSlot(s, a.op);
    AbandonStep(s, a.op);
  }

  /** The slot a successful setting step leaves. */
  function AfterSet(s: State, a: Action, x: Slot): Slot {
    match a
    case Number(_) => x.(id := Some(s.nextSlot))
    case ArmHw(_, _) => x.(hook := HwHook)
    case ResolveInode(_, _) => x.(inodeGets := x.inodeGets + 1)
    case GrabMm(_, _) => x.(mmGets := x.mmGets + 1)
    case _ => x.(hook := UprobeHook)
  }

  function StageBefore(a: Action): Stage {
    match a
    case Number(_) => Allocated
    case GrabMm(_, _) => HasInode
    case RegisterUprobe(_, _) => HasMm
    case _ => Numbered
  }

  function StageAfter(a: Action): Stage {
    match a
    case Number(_) => Numbered
    case ResolveInode(_, _) => HasInode
    case GrabMm(_, _) => HasMm
    case _ => Armed
  }

  predicate Advances(a: Action) {
    BySet(a) && !a.BeginSet? && !a.Publish? && !GivesUp(a)
  }

  lemma AdvanceEffect(s: State, a: Action)
    requires Advances(a) && Take(s, a).Some?
    ensures a.op in s.ops && s.ops[a.op].slot in s.slots && s.ops[a.op].stage == StageBefore(a)
    ensures var i := s.ops[a.op].slot;
            Take(s, a).value == WithStage(WithSlot(s, i, AfterSet(s, a, s.slots[i])), a.op, StageAfter(a))
                                .(nextSlot := if a.Number? then s.nextSlot + 1 else s.nextSlot)
  {
  }

  /** What the holder knows of the slot after a successful setting step. */
  lemma AdvanceSlot(s: State, a: Action, x: Slot)
    requires Advances(a) && SlotOk(x, s.nextSlot) && OpOk(x, a.op, StageBefore(a)) && RefsOk(x, StageBefore(a))
    ensures var y := AfterSet(s, a, x);
            && SlotOk(y, if a.Number? then s.nextSlot + 1 else s.nextSlot)
            && OpOk(y, a.op, StageAfter(a)) && RefsOk(y, StageAfter(a)) && (y.id == x.id || y.id == Some(s.nextSlot))
  {
  }

  lemma AdvanceStep(s: State, a: Action)
    requires Inv(s) && Advances(a) && Take(s, a).Some?
    ensures forall s' :: Take(s, a) == Some(s') ==> Inv(s')
  {
    AdvanceEffect(s, a);
    var x := HeldSlot(s, a.op);
    AdvanceSlot(s, a, x);
    StageStep(s, a.op, AfterSet(s, a, x), StageAfter(a), if a.Number? then s.nextSlot + 1 else s.nextSlot);
  }

  lemma DetachEffect(s: State, op: nat)
    requires Take(s, DetachCleared(op)).Some?
    ensures op in s.ops && s.ops[op].slot in s.slots && s.ops[op].stage == Unlinked
    ensures var i := s.ops[op].slot;
            var x := s.slots[i];
            && CanDetach(x)
            && Take(s, DetachCleared(op)).value ==
               WithStage(WithSlot(s, i, x.(hook := Unhooked)), op, Detached(x.hook == UprobeHook)).(nextSlot := s.nextSlot)
  {
  }

  lemma DetachClearedStep(s: State, op: nat)
    requires Inv(s) && Take(s, DetachCleared(op)).Some?
    ensures forall s' :: Take(s, DetachCleared(op)) == Some(s') ==> Inv(s')
  {
    DetachEffect(s, op);
    var x := HeldSlot(s, op);
    StageStep(s, op, x.(hook := Unhooked), Detached(x.hook == UprobeHook), s.nextSlot);
  }

  lemma SyncEffect(s: State, op: nat)
    requires Take(s, SyncCleared(op)).Some?
    ensures op in s.ops && s.ops[op].slot in s.slots && s.ops[op].stage == Detached(true)
    ensures s.slots[s.ops[op].slot].handlers == 0
    ensures var i := s.ops[op].slot;
            Take(s, SyncCleared(op)).value == WithStage(WithSlot(s, i, s.slots[i]), op, Synced).(nextSlot := s.nextSlot)
  {
    assert s.slots[s.ops[op].slot := s.slots[s.ops[op].slot]] == s.slots;
  }

  lemma SyncClearedStep(s: State, op: nat)
    requires Inv(s) && Take(s, SyncCleared(op)).Some?
    ensures forall s' :: Take(s, SyncCleared(op)) == Some(s') ==> Inv(s')
  {
    SyncEffect(s, op);
    var x := HeldSlot(s, op);
    StageStep(s, op, x, Synced, s.nextSlot);
  }

  lemma ReclaimEffect(s: State, op: nat)
    requires Take(s, ReclaimCleared(op)).Some?
    ensures op in s.ops && s.ops[op].slot in s.slots && s.ops[op].stage in {Detached(false), Synced}
    ensures Take(s, ReclaimCleared(op)).value == Abandon(s, op)
  {
  }

  lemma ReclaimClearedStep(s: State, op: nat)
    requires Inv(s) && Take(s, ReclaimCleared(op)).Some?
    ensures forall s' :: Take(s, ReclaimCleared(op)) == Some(s') ==> Inv(s')
  {
    ReclaimEffect(s, op);
    var x := HeldSlot(s, op);
    AbandonStep(s, op);
  }

  lemma IoctlKeepsInv(s: State, a: Action)
    requires Inv(s) && (BySet(a) || ByClear(a)) && Take(s, a).Some?
    ensures forall s' :: Take(s, a) == Some(s') ==> Inv(s')
  {
    match a
    case BeginSet(op) => BeginSetStep(s, op);
    case Publish(op) => PublishStep(s, op);
    case BeginClear(op, i) => BeginClearStep(s, op, i);
    case DetachCleared(op) => DetachClearedStep(s, op);
    case SyncCleared(op) => SyncClearedStep(s, op);
    case ReclaimCleared(op) => ReclaimClearedStep(s, op);
    case _ => if GivesUp(a) { GiveUpStep(s, a); } else { AdvanceStep(s, a); }
  }

  lemma TeardownKeepsInv(s: State, a: Action)
    requires Inv(s) && !BySet(a) && !ByClear(a) && !ByHit(a) && Take(s, a).Some?
    ensures forall s' :: Take(s, a) == Some(s') ==> Inv(s')
  {
    match a
    case BeginRelease => BeginReleaseStep(s);
    case DetachOne(i) => DetachOneStep(s, i);
    case DetachedAll => DetachedAllStep(s);
    case SyncAll => SyncAllStep(s);
    case ReclaimOne(i) => ReclaimOneStep(s, i);
    case CloseSession => CloseStep(s);
  }

  lemma HandlerEnterStep(s: State, i: nat)
    requires Inv(s) && Take(s, HandlerEnter(i)).Some?
    ensures forall s' :: Take(s, HandlerEnter(i)) == Some(s') ==> Inv(s')
  {
    HandlerCount(s, i);
    HandlerStep(s, i, s.slots[i].handlers + 1);
  }

  /** All that a handler's coming or going changes. */
  lemma HandlerCount(s: State, i: nat)
    ensures Take(s, HandlerEnter(i)).Some? ==>
              && i in s.slots && s.slots[i].hook != Unhooked
              && Take(s, HandlerEnter(i)).value == WithSlot(s, i, s.slots[i].(handlers := s.slots[i].handlers + 1))
    ensures Take(s, HandlerLeave(i)).Some? ==>
              && i in s.slots && s.slots[i].handlers > 0
              && Take(s, HandlerLeave(i)).value == WithSlot(s, i, s.slots[i].(handlers := s.slots[i].handlers - 1))
  {
  }

  lemma HandlerLeaveStep(s: State, i: nat)
    requires Inv(s) && Take(s, HandlerLeave(i)).Some?
    ensures forall s' :: Take(s, HandlerLeave(i)) == Some(s') ==> Inv(s')
  {
    HandlerCount(s, i);
    var handlers: nat := s.slots[i].handlers - 1;
    HandlerStep(s, i, handlers);
    assert Take(s, HandlerLeave(i)).value == WithSlot(s, i, s.slots[i].(handlers := handlers));
  }

  lemma HandlerKeepsInv(s: State, a: Action)
    requires Inv(s) && ByHit(a) && Take(s, a).Some?
    ensures forall s' :: Take(s, a) == Some(s') ==> Inv(s')
  {
    match a
    case HandlerEnter(i) => HandlerEnterStep(s, i);
    case HandlerEmit(i, payload) => EmitStep(s, i, payload);
    case HandlerLeave(i) => HandlerLeaveStep(s, i);
    case WaitEvent => WaitStep(s);
  }

  lemma StepKeepsInv(s: State, a: Action)
    requires Inv(s) && Take(s, a).Some?
    ensures forall s' :: Take(s, a) == Some(s') ==> Inv(s')
  {
    if BySet(a) || ByClear(a) {
      IoctlKeepsInv(s, a);
    } else if ByHit(a) {
      HandlerKeepsInv(s, a);
    } else {
      TeardownKeepsInv(s, a);
    }
  }

  /** The slot an ioctl holds, with what is known of it. */
  lemma HeldSlot(s: State, op: nat) returns (x: Slot)
    requires Inv(s) && op in s.ops
    ensures s.ops[op].slot in s.slots && x == s.slots[s.ops[op].slot]
    ensures SlotOk(x, s.nextSlot) && OpOk(x, op, s.ops[op].stage) && RefsOk(x, s.ops[op].stage)
  {
    x := s.slots[s.ops[op].slot];
  }

  lemma EmitStep(s: State, i: nat, payload: nat)
    requires Inv(s) && Take(s, HandlerEmit(i, payload)).Some?
    ensures Inv(Take(s, HandlerEmit(i, payload)).value)
  {
    var s' := Take(s, HandlerEmit(i, payload)).value;
    if |s.ring| < EVENT_DEPTH {
      assert s.dequeued + (s.ring + s'.ring[|s.ring|..]) == s.dequeued + s.ring + s'.ring[|s.ring|..];
    }
    SameSlots(s, s');
  }

  lemma WaitStep(s: State)
    requires Inv(s) && Take(s, WaitEvent).Some?
    ensures Inv(Take(s, WaitEvent).value)
  {
    var s' := Take(s, WaitEvent).value;
    assert s.ring == [s.ring[0]] + s.ring[1..];
    SameSlots(s, s');
  }

  lemma SameSlots(s: State, s': State)
    requires Inv(s) && RingOk(s') && s' == s.(ring := s'.ring, accepted := s'.accepted, dequeued := s'.dequeued)
    ensures Inv(s')
  {
  }

  lemma DetachedAllStep(s: State)
    requires Inv(s) && Take(s, DetachedAll).Some?
    ensures Inv(Take(s, DetachedAll).value)
  {
  }

  lemma SyncAllStep(s: State)
    requires Inv(s) && Take(s, SyncAll).Some?
    ensures Inv(Take(s, SyncAll).value)
  {
  }

  // ----- Whole runs -------------------------------------------------------------------

  lemma {:induction false} RunsKeepInv(actions: seq<Action>)
    requires Run(actions).Some?
    ensures Inv(Run(actions).value)
  {
    if actions != [] {
      var n := |actions| - 1;
      RunsKeepInv(actions[..n]);
      StepKeepsInv(Run(actions[..n]).value, actions[n]);
    }
  }

  /** In every run, a slot is reclaimed at most once, and when a step reclaims it
      no handler runs on it or can start to; whoever unlinked it does it, and its
      inode and mm references come out even. */
  lemma ReclaimIsSafe(actions: seq<Action>, a: Action, i: nat)
    requires Run(actions + [a]).Some? && Run(actions).Some? && i in Run(actions).value.slots
    ensures i in Run(actions + [a]).value.slots
    ensures var x, y := Run(actions).value.slots[i], Run(actions + [a]).value.slots[i];
            && x.reclaims <= y.reclaims <= 1
            && (y.reclaims > x.reclaims ==>
                  && x.handlers == 0 && x.hook == Unhooked
                  && y.inodeGets == y.inodePuts && y.mmGets == y.mmPuts
                  && y.reclaimedBy.Some? && (x.published ==> y.reclaimedBy == x.unlinkedBy))
  {
    assert (actions + [a])[..|actions|] == actions;
    RunsKeepInv(actions);
    RunsKeepInv(actions + [a]);
    StepOnSlot(Run(actions).value, a, i);
  }

  /** A step either leaves a slot's reclaim count alone or is its reclaim, which
      changes neither handlers nor hook nor who unlinked it. */
  lemma StepOnSlot(s: State, a: Action, i: nat)
    requires Take(s, a).Some? && i in s.slots
    ensures i in Take(s, a).value.slots && KeepsOrReclaims(s.slots[i], Take(s, a).value.slots[i])
  {
    if BySet(a) {
      SetOnSlot(s, a, i);
    } else if ByClear(a) {
      ClearOnSlot(s, a, i);
    } else if ByHit(a) {
      HitOnSlot(s, a, i);
    } else {
      ReleaseOnSlot(s, a, i);
    }
  }

  predicate KeepsOrReclaims(x: Slot, y: Slot) {
    y.reclaims == x.reclaims || (y.reclaimedBy.Some? && y == Reclaimed(x, y.reclaimedBy.value))
  }

  lemma SetOnSlot(s: State, a: Action, i: nat)
    requires SetStep(s, a).Some? && i in s.slots
    ensures i in SetStep(s, a).value.slots && KeepsOrReclaims(s.slots[i], SetStep(s, a).value.slots[i])
  {
  }

  lemma ClearOnSlot(s: State, a: Action, i: nat)
    requires ClearStep(s, a).Some? && i in s.slots
    ensures i in ClearStep(s, a).value.slots && KeepsOrReclaims(s.slots[i], ClearStep(s, a).value.slots[i])
  {
  }

  lemma HitOnSlot(s: State, a: Action, i: nat)
    requires HitStep(s, a).Some? && i in s.slots
    ensures i in HitStep(s, a).value.slots && KeepsOrReclaims(s.slots[i], HitStep(s, a).value.slots[i])
  {
  }

  lemma ReleaseOnSlot(s: State, a: Action, i: nat)
    requires ReleaseStep(s, a).Some? && i in s.slots
    ensures i in ReleaseStep(s, a).value.slots && KeepsOrReclaims(s.slots[i], ReleaseStep(s, a).value.slots[i])
  {
  }

  /** A running handler's slot is allocated and its session is open; what it
      emits carries the id the slot was given before it was armed. */
  lemma HandlersTouchLiveMemory(actions: seq<Action>, i: nat)
    requires Run(actions).Some? && i in Run(actions).value.slots && Run(actions).value.slots[i].handlers > 0
    ensures var s := Run(actions).value;
            s.slots[i].owner != Freed && s.teardown != Closed && s.slots[i].id.Some?
  {
    RunsKeepInv(actions);
    var s := Run(actions).value;
    assert SlotOk(s.slots[i], s.nextSlot);
  }

  /** Once the session is closed, every slot ever allocated has been reclaimed,
      exactly once, with its references returned; none is hooked any more. */
  lemma CloseLeaksNothing(actions: seq<Action>, i: nat)
    requires Run(actions).Some? && Run(actions).value.teardown == Closed && i in Run(actions).value.slots
    ensures var x := Run(actions).value.slots[i];
            x.reclaims == 1 && x.hook == Unhooked && x.handlers == 0
            && x.inodeGets == x.inodePuts && x.mmGets == x.mmPuts
  {
    RunsKeepInv(actions);
    var s := Run(actions).value;
    assert SlotOk(s.slots[i], s.nextSlot);
  }

  /** What has been dequeued is, in order, a prefix of what the ring accepted. */
  lemma EventsInOrder(actions: seq<Action>)
    requires Run(actions).Some?
    ensures var s := Run(actions).value;
            s.dequeued <= s.accepted && |s.ring| <= EVENT_DEPTH && s.accepted[|s.dequeued|..] == s.ring
  {
    RunsKeepInv(actions);
  }

  /** An id names at most one slot, so a clear can find only the one it means. */
  lemma IdsNameOneSlot(actions: seq<Action>, i: nat, j: nat)
    requires Run(actions).Some? && i in Run(actions).value.slots && j in Run(actions).value.slots
    requires Run(actions).value.slots[i].id.Some? && Run(actions).value.slots[i].id == Run(actions).value.slots[j].id
    ensures i == j
  {
    RunsKeepInv(actions);
  }

  // ----- Such runs exist ----------------------------------------------------------------

  lemma RunStep(actions: seq<Action>, a: Action)
    requires Run(actions).Some?
    ensures Run(actions + [a]) == Take(Run(actions).value, a)
  {
    assert (actions + [a])[..|actions|] == actions;
  }

  function ArmedSlot(handlers: nat): Slot {
    Slot(Some(0), HwHook, handlers, OnList, 0, 0, 0, 0, true, None, None, 0)
  }

  lemma ARunThatSets() returns (actions: seq<Action>)
    ensures Run(actions).Some?
    ensures Run(actions).value == State(map[0 := ArmedSlot(0)], {0}, map[], 1, 1, [], [], [], NotStarted)
  {
    RunStep([], BeginSet(0));
    actions := [] + [BeginSet(0)];
    RunStep(actions, Number(0));
    actions := actions + [Number(0)];
    RunStep(actions, ArmHw(0, true));
    actions := actions + [ArmHw(0, true)];
    RunStep(actions, Publish(0));
    actions := actions + [Publish(0)];
  }

  lemma ARunThatHits(payload: nat) returns (actions: seq<Action>)
    ensures Run(actions).Some?
    ensures var ev := Event(0, payload);
            Run(actions).value == State(map[0 := ArmedSlot(1)], {0}, map[], 1, 1, [ev], [ev], [], NotStarted)
  {
    actions := ARunThatSets();
    RunStep(actions, HandlerEnter(0));
    actions := actions + [HandlerEnter(0)];
    RunStep(actions, HandlerEmit(0, payload));
    actions := actions + [HandlerEmit(0, payload)];
  }

  lemma ARunThatWaits(payload: nat) returns (actions: seq<Action>)
    ensures Run(actions).Some?
    ensures var ev := Event(0, payload);
            Run(actions).value == State(map[0 := ArmedSlot(0)], {0}, map[], 1, 1, [], [ev], [ev], NotStarted)
  {
    actions := ARunThatHits(payload);
    RunStep(actions, HandlerLeave(0));
    actions := actions + [HandlerLeave(0)];
    RunStep(actions, WaitEvent);
    actions := actions + [WaitEvent];
  }

  lemma ARunThatReleases(payload: nat) returns (actions: seq<Action>)
    ensures Run(actions).Some?
    ensures var s := Run(actions).value;
            && s.teardown == Detaching({0}, {}, false) && s.dequeued == [Event(0, payload)]
            && 0 in s.slots && s.slots[0].hook == HwHook && s.slots[0].handlers == 0
  {
    actions := ARunThatWaits(payload);
    RunStep(actions, BeginRelease);
    actions := actions + [BeginRelease];
  }

  lemma ARunThatDetaches(payload: nat) returns (actions: seq<Action>)
    ensures Run(actions).Some?
    ensures var s := Run(actions).value;
            s.teardown == Reclaiming({0}) && 0 in s.slots && s.dequeued == [Event(0, payload)]
  {
    actions := ARunThatReleases(payload);
    RunStep(actions, DetachOne(0));
    actions := actions + [DetachOne(0)];
    RunStep(actions, DetachedAll);
    actions := actions + [DetachedAll];
  }

  /** A breakpoint is set, hit, its event read, and the file closed: the theorems
      about running handlers and closed sessions speak of something. */
  lemma ARunThatCloses(payload: nat) returns (actions: seq<Action>)
    ensures Run(actions).Some?
    ensures var s := Run(actions).value;
            s.teardown == Closed && 0 in s.slots && s.dequeued == [Event(0, payload)]
  {
    actions := ARunThatDetaches(payload);
    RunStep(actions, ReclaimOne(0));
    actions := actions + [ReclaimOne(0)];
    assert {0} - {0} == {};
    RunStep(actions, CloseSession);
    actions := actions + [CloseSession];
  }
}
