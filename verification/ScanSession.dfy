/** A scan session over time (crates/nemclass-scan/src/scanner.rs): what a run
    of first scans, next scans, undos and failed passes leaves as results. */
module ScanSession {
  import opened Memory
  import opened ResultColumns

  /** Result generations the undo history keeps. */
  const HISTORY_DEPTH: nat := 3

  // ----- One next scan ------------------------------------------------------------

  /** Re-reads the rows' addresses and keeps those whose fresh value passes
      against the captured one; an unreadable address drops its row. */
  function NextRows(rows: seq<Row>, stride: nat, read: nat -> Option<seq<Byte>>,
                    keep: (seq<Byte>, seq<Byte>) -> bool): seq<Row>
  {
    if rows == [] then []
    else
      var n := |rows| - 1;
      NextRows(rows[..n], stride, read, keep) + NextRow(rows[n], stride, read, keep)
  }

  function NextRow(row: Row, stride: nat, read: nat -> Option<seq<Byte>>, keep: (seq<Byte>, seq<Byte>) -> bool)
    : seq<Row>
  {
    match read(row.address)
    case None => []
    case Some(b) =>
      if keep(b, row.current) then [Row(row.address, Fit(b, stride), Fit(row.current, stride))] else []
  }

  function Unreadable(rows: seq<Row>, read: nat -> Option<seq<Byte>>): (n: nat)
    ensures n <= |rows|
  {
    if rows == [] then 0
    else
      var n := |rows| - 1;
      Unreadable(rows[..n], read) + if read(rows[n].address).None? then 1 else 0
  }

  // ----- The history ----------------------------------------------------------------

  datatype Session = Session(history: seq<seq<Row>>) {
    ghost predicate Bounded() {
      |history| <= HISTORY_DEPTH
    }

    function Current(): seq<Row> {
      if history == [] then [] else history[|history| - 1]
    }

    function HasScanned(): bool {
      history != []
    }

    /** `push_generation` */
    function Push(rows: seq<Row>): Session {
      var longer := history + [rows];
      Session(if |longer| > HISTORY_DEPTH then longer[1..] else longer)
    }

    function CanUndo(): bool {
      |history| > 1
    }

    function Undo(): Session {
      if CanUndo() then Session(history[..|history| - 1]) else this
    }
  }

  /** Undoing right after a pass brings back the results from before it. */
  lemma UndoAfterPass(s: Session, rows: seq<Row>)
    requires s.Bounded() && s.HasScanned()
    ensures s.Push(rows).Current() == rows && s.Push(rows).CanUndo()
    ensures s.Push(rows).Undo().Current() == s.Current()
    ensures |s.history| < HISTORY_DEPTH ==> s.Push(rows).Undo() == s
    ensures |s.Push(rows).history| == Min(|s.history| + 1, 3)
  {
    if |s.history| < HISTORY_DEPTH {
      assert (s.history + [rows])[..|s.history|] == s.history;
    }
  }

  // ----- Whole runs ------------------------------------------------------------------

  /** A first scan of some snapshot, as the walk reports it. */
  datatype First = First(rows: seq<Row>)

  datatype Next = Next(stride: nat, read: nat -> Option<seq<Byte>>, keep: (seq<Byte>, seq<Byte>) -> bool)

  datatype Event = FirstScan(first: First) | NextScan(next: Next) | UndoScan | FailedScan

  /** One session step. A next scan before any first scan, or one whose
      addresses are all unreadable, fails and changes nothing. */
  function Step(s: Session, e: Event): Session {
    match e
    case FirstScan(first) => s.Push(first.rows)
    case NextScan(next) =>
      if !s.HasScanned() || DeadTarget(s.Current(), next.read) then s
      else s.Push(NextRows(s.Current(), next.stride, next.read, next.keep))
    case UndoScan => s.Undo()
    case FailedScan => s
  }

  predicate DeadTarget(rows: seq<Row>, read: nat -> Option<seq<Byte>>) {
    rows != [] && Unreadable(rows, read) == |rows|
  }

  function RunFrom(s: Session, events: seq<Event>): Session {
    if events == [] then s else Step(RunFrom(s, events[..|events| - 1]), events[|events| - 1])
  }

  function RunSession(events: seq<Event>): Session {
    RunFrom(Session([]), events)
  }

  /** The results of a first scan narrowed by some next scans. */
  ghost function Narrowed(first: First, nexts: seq<Next>): seq<Row> {
    if nexts == [] then first.rows
    else
      var n := |nexts| - 1;
      NextRows(Narrowed(first, nexts[..n]), nexts[n].stride, nexts[n].read, nexts[n].keep)
  }

  /** Why a generation holds what it holds. */
  datatype Cause = Cause(first: First, nexts: seq<Next>)

  /** Each generation has a cause, and the next one either narrows it by one
      pass or starts over. */
  ghost predicate Explains(why: seq<Cause>, history: seq<seq<Row>>) {
    && |why| == |history|
    && (forall i {:trigger why[i]} :: 0 <= i < |why| ==> history[i] == Narrowed(why[i].first, why[i].nexts))
    && (forall i, j {:trigger why[i], why[j]} :: 0 <= i && j == i + 1 < |why| ==> Follows(why[i], why[j]))
  }

  ghost predicate Follows(a: Cause, b: Cause) {
    b.nexts == [] || (b.first == a.first && b.nexts[..|b.nexts| - 1] == a.nexts)
  }

  /** The cause's passes occur in the run at these places, in this order. */
  ghost predicate OccursAt(events: seq<Event>, c: Cause, at: seq<nat>) {
    && |at| == |c.nexts| + 1
    && (forall i :: 0 <= i < |at| ==> at[i] < |events|)
    && (forall i, j :: 0 <= i < j < |at| ==> at[i] < at[j])
    && events[at[0]] == FirstScan(c.first)
    && (forall i :: 0 < i < |at| ==> events[at[i]] == NextScan(c.nexts[i - 1]))
  }

  /** The first scan and the next scans of the cause are a subsequence of the run. */
  ghost predicate Taken(events: seq<Event>, c: Cause) {
    exists at :: OccursAt(events, c, at)
  }

  lemma TakenLater(events: seq<Event>, n: nat, c: Cause)
    requires n <= |events| && Taken(events[..n], c)
    ensures Taken(events, c)
  {
    var at :| OccursAt(events[..n], c, at);
    assert OccursAt(events, c, at);
  }

  lemma TakenFirst(events: seq<Event>, first: First)
    requires events != [] && events[|events| - 1] == FirstScan(first)
    ensures Taken(events, Cause(first, []))
  {
    assert OccursAt(events, Cause(first, []), [|events| - 1]);
  }

  lemma TakenNext(events: seq<Event>, c: Cause, next: Next)
    requires events != [] && events[|events| - 1] == NextScan(next) && Taken(events[..|events| - 1], c)
    ensures Taken(events, Cause(c.first, c.nexts + [next]))
  {
    var n := |events| - 1;
    var at :| OccursAt(events[..n], c, at);
    var at' := at + [n];
    assert OccursAt(events, Cause(c.first, c.nexts + [next]), at');
  }

  /** In every run, however undos and failures interleave, the history is
      bounded and every generation in it, the current one included, is a first
      scan of the run narrowed by later next scans of the run, in their order. */
  lemma {:induction false} RunIsExplained(events: seq<Event>) returns (why: seq<Cause>)
    ensures RunSession(events).Bounded()
    ensures Explains(why, RunSession(events).history)
    ensures forall c :: c in why ==> Taken(events, c)
    decreases |events|
  {
    if events == [] {
      why := [];
    } else {
      var n := |events| - 1;
      var before := RunIsExplained(events[..n]);
      why := StepIsExplained(RunSession(events[..n]), before, events);
    }
  }

  lemma StepIsExplained(s: Session, why: seq<Cause>, events: seq<Event>) returns (why': seq<Cause>)
    requires events != [] && s.Bounded() && Explains(why, s.history)
    requires forall c :: c in why ==> Taken(events[..|events| - 1], c)
    ensures var e := events[|events| - 1]; Step(s, e).Bounded() && Explains(why', Step(s, e).history)
    ensures forall c :: c in why' ==> Taken(events, c)
  {
    var n := |events| - 1;
    forall c | c in why ensures Taken(events, c) {
      TakenLater(events, n, c);
    }
    match events[n]
    case FirstScan(first) =>
      TakenFirst(events, first);
      why' := PushIsExplained(s, first.rows, why, Cause(first, []), events);
    case NextScan(next) =>
      if !s.HasScanned() || DeadTarget(s.Current(), next.read) {
        why' := why;
      } else {
        var last := why[|why| - 1];
        assert last in why;
        var c := Cause(last.first, last.nexts + [next]);
        assert c.nexts[..|c.nexts| - 1] == last.nexts;
        TakenNext(events, last, next);
        why' := PushIsExplained(s, NextRows(s.Current(), next.stride, next.read, next.keep), why, c, events);
      }
    case UndoScan =>
      why' := if s.CanUndo() then why[..|why| - 1] else why;
    case FailedScan =>
      why' := why;
  }

  lemma PushIsExplained(s: Session, rows: seq<Row>, why: seq<Cause>, c: Cause, events: seq<Event>)
    returns (why': seq<Cause>)
    requires s.Bounded() && Explains(why, s.history) && rows == Narrowed(c.first, c.nexts)
    requires why != [] ==> Follows(why[|why| - 1], c)
    requires Taken(events, c) && forall x :: x in why ==> Taken(events, x)
    ensures s.Push(rows).Bounded() && Explains(why', s.Push(rows).history)
    ensures forall x :: x in why' ==> Taken(events, x)
  {
    var longer := why + [c];
    why' := if |longer| > HISTORY_DEPTH then longer[1..] else longer;
    ExplainsSnoc(why, s.history, c, rows);
    if |longer| > HISTORY_DEPTH {
      ExplainsTail(longer, s.history + [rows]);
    }
  }

  lemma ExplainsSnoc(why: seq<Cause>, history: seq<seq<Row>>, c: Cause, rows: seq<Row>)
    requires Explains(why, history) && rows == Narrowed(c.first, c.nexts)
    requires why != [] ==> Follows(why[|why| - 1], c)
    ensures Explains(why + [c], history + [rows])
  {
  }

  lemma ExplainsTail(why: seq<Cause>, history: seq<seq<Row>>)
    requires Explains(why, history) && why != []
    ensures Explains(why[1..], history[1..])
  {
    forall i | 0 <= i < |why| - 1 ensures why[1..][i] == why[i + 1] && history[1..][i] == history[i + 1] {
    }
    forall i, j | 0 <= i && j == i + 1 < |why| - 1 ensures Follows(why[1..][i], why[1..][j]) {
      assert Follows(why[i + 1], why[j + 1]);
    }
  }

  // ----- What a narrowed generation means ------------------------------------------------

  /** The value the passes captured at `a`: by the first scan for `k == 0`, else
      by next scan `k - 1`. */
  ghost function ValueAt(initial: seq<Byte>, nexts: seq<Next>, a: nat, k: nat): seq<Byte>
    requires k <= |nexts|
  {
    if k == 0 then initial
    else match nexts[k - 1].read(a) case None => [] case Some(b) => b
  }

  /** Next scan `k` could read `a` and kept its value against the one before. */
  ghost predicate Passed(initial: seq<Byte>, nexts: seq<Next>, a: nat, k: nat)
    requires k < |nexts|
  {
    var now := nexts[k].read(a);
    now.Some? && nexts[k].keep(now.value, ValueAt(initial, nexts, a, k))
  }

  /** `a` was readable in every pass and passed every compare against the value
      captured by the pass before. */
  ghost predicate Survives(initial: seq<Byte>, nexts: seq<Next>, a: nat) {
    forall k: nat :: k < |nexts| ==> Passed(initial, nexts, a, k)
  }

  ghost function FinalRow(initial: seq<Byte>, nexts: seq<Next>, a: nat): Row {
    var k := |nexts|;
    Row(a, ValueAt(initial, nexts, a, k), ValueAt(initial, nexts, a, if k == 0 then 0 else k - 1))
  }

  /** All values are `stride` bytes wide, as for a fixed-width type. */
  ghost predicate FixedWidth(first: First, nexts: seq<Next>, stride: nat) {
    && (forall row :: row in first.rows ==> |row.current| == stride && row.previous == row.current)
    && (forall next :: next in nexts ==> FixedPass(next, stride))
  }

  ghost predicate FixedPass(next: Next, stride: nat) {
    next.stride == stride && forall a {:trigger next.read(a)} :: next.read(a).Some? ==> |next.read(a).value| == stride
  }

  lemma {:induction false} NextRowsExact(rows: seq<Row>, stride: nat, read: nat -> Option<seq<Byte>>,
                                         keep: (seq<Byte>, seq<Byte>) -> bool, row: Row)
    ensures row in NextRows(rows, stride, read, keep) <==> exists r :: r in rows && row in NextRow(r, stride, read, keep)
  {
    if rows != [] {
      var n := |rows| - 1;
      NextRowsExact(rows[..n], stride, read, keep, row);
      assert forall r :: r in rows <==> r in rows[..n] || r == rows[n];
    }
  }

  /** `row` is what the passes make of the first scan's `origin`. */
  ghost predicate ComesFrom(first: First, nexts: seq<Next>, origin: Row, row: Row) {
    && origin in first.rows && Survives(origin.current, nexts, origin.address)
    && row == FinalRow(origin.current, nexts, origin.address)
  }

  lemma SameValues(initial: seq<Byte>, nexts: seq<Next>, a: nat, n: nat)
    requires n <= |nexts|
    ensures forall k: nat :: k <= n ==> ValueAt(initial, nexts[..n], a, k) == ValueAt(initial, nexts, a, k)
  {
    forall k: nat | k <= n ensures ValueAt(initial, nexts[..n], a, k) == ValueAt(initial, nexts, a, k) {
      if k > 0 {
        assert nexts[..n][k - 1] == nexts[k - 1];
      }
    }
  }

  lemma SurvivesSnoc(initial: seq<Byte>, nexts: seq<Next>, a: nat)
    requires nexts != []
    ensures var n := |nexts| - 1;
            Survives(initial, nexts, a) <==> Survives(initial, nexts[..n], a) && Passed(initial, nexts, a, n)
  {
    var n := |nexts| - 1;
    SameValues(initial, nexts, a, n);
    forall k: nat | k < n ensures Passed(initial, nexts[..n], a, k) <==> Passed(initial, nexts, a, k) {
    }
  }

  lemma CapturedWidth(first: First, nexts: seq<Next>, stride: nat, origin: Row, n: nat)
    requires FixedWidth(first, nexts, stride) && origin in first.rows && n <= |nexts|
    requires Survives(origin.current, nexts[..n], origin.address)
    ensures |ValueAt(origin.current, nexts, origin.address, n)| == stride
  {
    if n > 0 {
      SameValues(origin.current, nexts, origin.address, n);
      assert nexts[..n][n - 1] == nexts[n - 1] && FixedPass(nexts[n - 1], stride);
      assert Passed(origin.current, nexts[..n], origin.address, n - 1);
    }
  }

  /** The last pass on what the earlier ones left of `origin`. */
  lemma LastPass(first: First, nexts: seq<Next>, stride: nat, origin: Row)
    requires FixedWidth(first, nexts, stride) && nexts != [] && origin in first.rows
    requires Survives(origin.current, nexts[..|nexts| - 1], origin.address)
    ensures var n := |nexts| - 1;
            NextRow(FinalRow(origin.current, nexts[..n], origin.address), nexts[n].stride, nexts[n].read, nexts[n].keep)
            == if Passed(origin.current, nexts, origin.address, n) then [FinalRow(origin.current, nexts, origin.address)]
               else []
  {
    var n := |nexts| - 1;
    SameValues(origin.current, nexts, origin.address, n);
    CapturedWidth(first, nexts, stride, origin, n);
    assert nexts[n] in nexts && FixedPass(nexts[n], stride);
  }

  /** After a first scan and any number of next scans, the results are exactly
      the first scan's addresses that passed every compare against the preceding
      pass's value; `current` is the last pass's value and `previous` the one
      before. */
  lemma {:induction false} NarrowedExact(first: First, nexts: seq<Next>, stride: nat, row: Row)
    requires FixedWidth(first, nexts, stride)
    ensures row in Narrowed(first, nexts) <==> exists origin :: ComesFrom(first, nexts, origin, row)
    decreases |nexts|
  {
    if nexts == [] {
      if row in first.rows {
        assert ComesFrom(first, nexts, row, row);
      }
    } else {
      var n := |nexts| - 1;
      var last, earlier := nexts[n], nexts[..n];
      NextRowsExact(Narrowed(first, earlier), last.stride, last.read, last.keep, row);
      if row in Narrowed(first, nexts) {
        var r :| r in Narrowed(first, earlier) && row in NextRow(r, last.stride, last.read, last.keep);
        NarrowedExact(first, earlier, stride, r);
        var origin :| ComesFrom(first, earlier, origin, r);
        LastPass(first, nexts, stride, origin);
        SurvivesSnoc(origin.current, nexts, origin.address);
        assert ComesFrom(first, nexts, origin, row);
      }
      if origin :| ComesFrom(first, nexts, origin, row) {
        SurvivesSnoc(origin.current, nexts, origin.address);
        LastPass(first, nexts, stride, origin);
        var r := FinalRow(origin.current, earlier, origin.address);
        assert ComesFrom(first, earlier, origin, r);
        NarrowedExact(first, earlier, stride, r);
      }
    }
  }

  // ----- A first scan and what follows it ---------------------------------------------------

  /** The steps of a first scan and some next scans. */
  function Passes(first: First, nexts: seq<Next>): seq<Event> {
    [FirstScan(first)] + seq(|nexts|, i requires 0 <= i < |nexts| => NextScan(nexts[i]))
  }

  /** No pass found every address unreadable, so none was refused. */
  ghost predicate NoneDead(first: First, nexts: seq<Next>) {
    forall k: nat :: k < |nexts| ==> !DeadTarget(Narrowed(first, nexts[..k]), nexts[k].read)
  }

  lemma PassesSnoc(s: Session, first: First, nexts: seq<Next>)
    requires nexts != []
    ensures var n := |nexts| - 1;
            RunFrom(s, Passes(first, nexts)) == Step(RunFrom(s, Passes(first, nexts[..n])), NextScan(nexts[n]))
  {
    var events := Passes(first, nexts);
    assert events[..|events| - 1] == Passes(first, nexts[..|nexts| - 1]);
  }

  lemma NoneDeadFront(first: First, nexts: seq<Next>, n: nat)
    requires NoneDead(first, nexts) && n <= |nexts|
    ensures NoneDead(first, nexts[..n])
  {
    forall k: nat | k < n ensures !DeadTarget(Narrowed(first, nexts[..n][..k]), nexts[..n][k].read) {
      assert nexts[..n][..k] == nexts[..k];
    }
  }

  /** Starting over from any session, the results are the narrowed first scan. */
  lemma {:induction false} PassesNarrow(s: Session, first: First, nexts: seq<Next>)
    requires NoneDead(first, nexts)
    ensures RunFrom(s, Passes(first, nexts)).Current() == Narrowed(first, nexts)
    ensures RunFrom(s, Passes(first, nexts)).HasScanned()
    decreases |nexts|
  {
    if nexts == [] {
      assert Passes(first, nexts)[..0] == [];
    } else {
      var n := |nexts| - 1;
      NoneDeadFront(first, nexts, n);
      PassesNarrow(s, first, nexts[..n]);
      PassesSnoc(s, first, nexts);
      assert !DeadTarget(Narrowed(first, nexts[..n]), nexts[n].read);
    }
  }
}
