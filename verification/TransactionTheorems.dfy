/** Theorems over every run of the transaction manager, from its invariant. */
module TransactionTheorems {
  import opened Options
  import opened Transactions
  import opened TransactionLaws

  /** A run: every step possible where it happens. */
  predicate Legal(w: World, steps: seq<Step>)
    decreases |steps|
  {
    steps == [] ||
    (Enabled(w, steps[0]) && Legal(Apply(w, steps[0]), steps[1..]))
  }

  function Run(w: World, steps: seq<Step>): World
    requires Legal(w, steps)
    decreases |steps|
  {
    if steps == [] then w else Run(Apply(w, steps[0]), steps[1..])
  }

  lemma {:induction false} RunKeeps(w: World, steps: seq<Step>)
    requires Inv(w) && Legal(w, steps)
    ensures Inv(Run(w, steps))
    decreases |steps|
  {
    hide Inv, Enabled, Apply;
    if steps != [] {
      KeepsStep(w, steps[0]);
      RunKeeps(Apply(w, steps[0]), steps[1..]);
    }
  }

  lemma StartHolds()
    ensures Inv(START)
  {
    assert OpenIds(START.m.txns) == {};
    assert forall e :: OpenAt(START.m.txns, e) == {};
  }

  lemma Reachable(steps: seq<Step>)
    requires Legal(START, steps)
    ensures Inv(Run(START, steps))
  {
    hide Inv;
    StartHolds();
    RunKeeps(START, steps);
  }

  /** Neither of two commits saw the other. */
  predicate Concurrent(a: Decided, b: Decided) {
    a.start < b.epoch && b.start < a.epoch
  }

  /** In every run, two concurrent commits write no entity in common, neither links to a node the
      other deletes, and they share no unique key value, unless the later strayed. */
  lemma {:induction false} SnapshotIsolated(steps: seq<Step>, a: TxId, b: TxId)
    requires Legal(START, steps)
    requires var log := Run(START, steps).log; a in log && b in log && a != b && Concurrent(log[a], log[b])
    requires var w := Run(START, steps); (if w.log[a].epoch < w.log[b].epoch then b else a) !in w.strayed
    ensures var log := Run(START, steps).log;
            && log[a].claims.writes * log[b].claims.writes == {}
            && log[a].claims.endpoints * log[b].claims.deletes == {}
            && log[a].claims.deletes * log[b].claims.endpoints == {}
            && log[a].claims.keys * log[b].claims.keys == {}
  {
    hide Run, Legal, Clash, Tables, Guards, Retained, Counts;
    Reachable(steps);
    var w := Run(START, steps);
    assert w.log[a].epoch != w.log[b].epoch;
    if w.log[a].epoch < w.log[b].epoch {
      assert Compatible(w.log[b], w.log[a]);
      NoClash(w.log[b].claims, w.log[a].claims);
    } else {
      assert Compatible(w.log[a], w.log[b]);
      NoClash(w.log[a].claims, w.log[b].claims);
    }
  }

  lemma NoClash(c: Claims, d: Claims)
    requires !Clash(c, d)
    ensures c.writes * d.writes == {} && c.endpoints * d.deletes == {} && c.deletes * d.endpoints == {} &&
            c.keys * d.keys == {}
  {
    forall e | e in c.endpoints ensures e !in d.deletes { assert !Refuses(d, Endpoint, e); }
    forall e | e in c.deletes ensures e !in d.endpoints { assert !Refuses(d, Delete, e); }
  }

  /** The commit whose version of x a reader at `at` sees: the newest writer up to there. */
  ghost predicate LastWriter(log: map<TxId, Decided>, x: Entity, at: int, writer: Option<TxId>) {
    match writer
    case None => forall a :: a in log && x in log[a].claims.writes ==> log[a].epoch > at
    case Some(a) =>
      && a in log && x in log[a].claims.writes && log[a].epoch <= at
      && forall b :: b in log && x in log[b].claims.writes ==> log[b].epoch > at || log[b].epoch <= log[a].epoch
  }

  /** In every run, what a commit wrote, and what a serializable one recorded as read, it saw in its
      snapshot exactly as if the commits ran one after the other in the order of their epochs. */
  lemma {:induction false} SerialView(steps: seq<Step>, t: TxId, x: Entity, writer: Option<TxId>)
    requires Legal(START, steps)
    requires var log := Run(START, steps).log;
             && t in log && t !in Run(START, steps).strayed
             && (x in log[t].claims.writes || (log[t].level == Serializable && x in log[t].readSet))
    ensures var log := Run(START, steps).log;
            LastWriter(log, x, log[t].start, writer) <==> LastWriter(log, x, log[t].epoch - 1, writer)
  {
    hide Run, Legal, Clash, Tables, Guards, Retained, Counts;
    Reachable(steps);
    var log := Run(START, steps).log;
    forall a | a in log && log[t].start < log[a].epoch < log[t].epoch
      ensures x !in log[a].claims.writes
    {
      assert Compatible(log[t], log[a]);
      NoClash(log[t].claims, log[a].claims);
      assert x !in log[t].claims.writes * log[a].claims.writes;
      assert log[t].level == Serializable ==> x !in log[t].readSet * log[a].claims.writes;
    }
  }

  /** A decided commit still in the manager's tables. */
  predicate Remembered(w: World, a: TxId) {
    a in w.log && a in w.m.txns && a in w.m.committed
  }

  /** In every run, a commit is refused for a conflict exactly when it clashes with a commit decided
      since it began: none is made up, and none is missed, whatever was collected, unless the
      transaction strayed; for one that did, exactly the commits still remembered are found. */
  lemma {:induction false} RefusedExactly(steps: seq<Step>, id: TxId)
    requires Legal(START, steps)
    requires var m := Run(START, steps).m; id in m.txns && m.txns[id].phase == Active
    ensures var w := Run(START, steps);
            && ((ClaimConflict(w.m, id) || ReadConflict(w.m, id)) <==>
                exists a :: Remembered(w, a) && !Compatible(DecidedOf(w.m.txns[id], 0), w.log[a]))
            && (id !in w.strayed ==>
                ((ClaimConflict(w.m, id) || ReadConflict(w.m, id)) <==>
                 exists a :: a in w.log && !Compatible(DecidedOf(w.m.txns[id], 0), w.log[a])))
  {
    hide Run, Legal, Clash, Guards, Counts, AllCompatible, Compatible, Retained, Epochs, Tables;
    Reachable(steps);
    var w := Run(START, steps);
    if !ClaimConflict(w.m, id) && !ReadConflict(w.m, id) {
      forall a | Remembered(w, a) ensures Compatible(DecidedOf(w.m.txns[id], 0), w.log[a]) {
        RememberedAgrees(w, id, a);
      }
      if id !in w.strayed { NoConflict(w, id); }
    } else {
      var a := ConflictIsReal(w, id);
    }
  }

  lemma RememberedAgrees(w: World, id: TxId, a: TxId)
    requires Tables(w) && Epochs(w) && id in w.m.txns && Remembered(w, a)
    requires w.m.txns[id].phase == Active && !ClaimConflict(w.m, id) && !ReadConflict(w.m, id)
    ensures Compatible(DecidedOf(w.m.txns[id], 0), w.log[a])
  {
    hide Clash;
    assert w.log[a].epoch <= w.m.lastEpoch;
    if w.log[a].epoch > w.m.txns[id].start { assert Checked(w.m, id, a); }
  }

  lemma ConflictIsReal(w: World, id: TxId) returns (a: TxId)
    requires Tables(w) && id in w.m.txns && (ClaimConflict(w.m, id) || ReadConflict(w.m, id))
    ensures Remembered(w, a) && !Compatible(DecidedOf(w.m.txns[id], 0), w.log[a])
  {
    hide Clash;
    var m := w.m;
    a :| a in m.committed && Checked(m, id, a) &&
         (Clash(m.txns[id].claims, m.txns[a].claims) ||
          (m.txns[id].level == Serializable && m.txns[id].readSet * m.txns[a].claims.writes != {}));
    assert w.log[a].claims == m.txns[a].claims;
  }

  // ---- epochs and readers

  /** In every run, a snapshot holds only whole commits: one at or below the epoch a transaction
      reads at is complete. */
  lemma {:induction false} SnapshotsAreWhole(steps: seq<Step>, t: TxId, a: TxId)
    requires Legal(START, steps)
    requires var w := Run(START, steps); t in w.m.txns && a in w.log && w.log[a].epoch <= w.m.txns[t].start
    ensures var w := Run(START, steps); a in w.m.txns ==> w.m.txns[a].phase == Committed
  {
    hide Run, Legal, Retained, AllCompatible, Counts;
    Reachable(steps);
  }

  /** In every run, neither the read horizon nor the history floor passes an open transaction's
      snapshot or a pinned read. */
  lemma {:induction false} ReadersProtected(steps: seq<Step>, h: Epoch)
    requires Legal(START, steps) && IsHorizon(Run(START, steps).m, h)
    ensures var w := Run(START, steps);
            && (forall t :: t in w.m.txns && Open(w.m.txns[t].phase) ==>
                  h <= w.m.txns[t].start && w.m.floor <= w.m.txns[t].start)
            && (forall e :: e in w.pins ==> h <= e && w.m.floor <= e)
  {
    hide Run, Legal, Retained, AllCompatible, Tables, Epochs, Guards;
    Reachable(steps);
    var w := Run(START, steps);
    forall t | t in w.m.txns && Open(w.m.txns[t].phase) ensures w.m.txns[t].start in w.m.readers {
      assert t in OpenAt(w.m.txns, w.m.txns[t].start);
    }
    forall e | e in w.pins ensures e in w.m.readers {
      assert w.m.readers[e] == w.pins[e] + |OpenAt(w.m.txns, e)|;
    }
  }

  /** Published epochs only grow, one commit at a time and only as the turn's holder publishes; bars only
      go down. */
  predicate InOrder(m: Manager, step: Step, m1: Manager) {
    && m.published <= m1.published <= m.published + 1
    && (m1.published > m.published ==>
          step.DoPublish? && m.turn == Some(step.id) && step.id in m.handles && m.handles[step.id] == m1.published)
    && (m.unpublishable.Some? ==> m1.unpublishable.Some? && m1.unpublishable.value <= m.unpublishable.value)
    && (m.turn.None? && m1.turn.Some? ==>
          m1.turn.value in m.handles && !Unpublishable(m, m.handles[m1.turn.value]))
  }

  lemma {:induction false} PublishedInOrder(steps: seq<Step>, step: Step)
    requires Legal(START, steps) && Enabled(Run(START, steps), step)
    ensures InOrder(Run(START, steps).m, step, Apply(Run(START, steps), step).m)
  {
    hide Run, Legal, Retained, AllCompatible, Counts, Tables, InOrder, Apply, Enabled, Guards, Epochs;
    Reachable(steps);
    StepInOrder(Run(START, steps), step);
  }

  lemma StepInOrder(w: World, step: Step)
    requires Inv(w) && Enabled(w, step)
    ensures InOrder(w.m, step, Apply(w, step).m)
  {
    hide Retained, AllCompatible, Counts, Tables, InOrder, Apply, Enabled, Guards, Epochs;
    if step.DoPublish? || step.DoTakeBack? {
      EndsInOrder(w, step);
    } else if step.DoStart? || step.DoDrop? || step.DoBar? || step.DoTurn? {
      CommitsInOrder(w, step);
    } else {
      OthersInOrder(w, step);
    }
  }

  lemma EndsInOrder(w: World, step: Step)
    requires (step.DoPublish? || step.DoTakeBack?) && Enabled(w, step) && Guards(w) && Epochs(w)
    ensures InOrder(w.m, step, Apply(w, step).m)
  {
  }

  lemma CommitsInOrder(w: World, step: Step)
    requires (step.DoStart? || step.DoDrop? || step.DoBar? || step.DoTurn?) && Enabled(w, step)
    ensures InOrder(w.m, step, Apply(w, step).m)
  {
    hide InOrder, Apply, Enabled;
    match step
    case DoStart(id) => StartInOrder(w, id);
    case DoDrop(id) => DropInOrder(w, id);
    case DoBar(epoch) => BarInOrder(w, epoch);
    case DoTurn(id) => TurnInOrder(w, id);
  }

  lemma StartInOrder(w: World, id: TxId)
    requires Enabled(w, DoStart(id))
    ensures InOrder(w.m, DoStart(id), Apply(w, DoStart(id)).m)
  {
    StartEffect(w.m, id);
    hide StartCommit, Unpublishable;
  }

  lemma DropInOrder(w: World, id: TxId)
    requires Enabled(w, DoDrop(id))
    ensures InOrder(w.m, DoDrop(id), Apply(w, DoDrop(id)).m)
  {
  }

  lemma BarInOrder(w: World, epoch: Epoch)
    requires Enabled(w, DoBar(epoch))
    ensures InOrder(w.m, DoBar(epoch), Apply(w, DoBar(epoch)).m)
  {
    hide DroppedAt;
  }

  lemma TurnInOrder(w: World, id: TxId)
    requires Enabled(w, DoTurn(id))
    ensures InOrder(w.m, DoTurn(id), Apply(w, DoTurn(id)).m)
  {
  }

  lemma OthersInOrder(w: World, step: Step)
    requires Enabled(w, step) && !step.DoBar? && (OtherStep(step) || ClaimStep(step) || step.DoGc?)
    ensures InOrder(w.m, step, Apply(w, step).m)
  {
    OthersSteady(w, step);
    hide Apply, Enabled;
  }

  /** The epoch whose commit holds the publish turn. */
  predicate InTurn(m: Manager, epoch: Epoch) {
    m.turn.Some? && m.turn.value in m.handles && m.handles[m.turn.value] == epoch
  }

  /** Barred, not published, and not in its turn. */
  predicate Shut(m: Manager, epoch: Epoch) {
    m.published < epoch && Unpublishable(m, epoch) && !InTurn(m, epoch)
  }

  /** In every run from there, an epoch that is shut stays shut. */
  lemma {:induction false} ShutStays(w: World, epoch: Epoch, more: seq<Step>)
    requires Inv(w) && Shut(w.m, epoch) && Legal(w, more)
    ensures Shut(Run(w, more).m, epoch)
    decreases |more|
  {
    hide Inv, Enabled, Apply, Shut;
    if more != [] {
      ShutStep(w, epoch, more[0]);
      KeepsStep(w, more[0]);
      ShutStays(Apply(w, more[0]), epoch, more[1..]);
    }
  }

  lemma ShutStep(w: World, epoch: Epoch, step: Step)
    requires Inv(w) && Shut(w.m, epoch) && Enabled(w, step)
    ensures Shut(Apply(w, step).m, epoch)
  {
    hide Retained, AllCompatible, Counts, Tables, Apply, Enabled, Guards, Epochs;
    StepInOrder(w, step);
    TurnKept(w, step);
    hide InOrder;
    ShutAfter(w.m, step, Apply(w, step).m, epoch);
  }

  /** A step that leaves the turn with its holder leaves the holder its epoch. */
  ghost predicate SameHolder(m: Manager, m1: Manager) {
    m1.turn.Some? ==>
      && m1.turn.value in m1.handles
      && (m.turn.None? ==> m1.turn.value in m.handles && m1.handles[m1.turn.value] == m.handles[m1.turn.value])
      && (m.turn.Some? ==>
            m1.turn == m.turn && m.turn.value in m.handles && m1.handles[m1.turn.value] == m.handles[m.turn.value])
  }

  lemma TurnKept(w: World, step: Step)
    requires Inv(w) && Enabled(w, step)
    ensures SameHolder(w.m, Apply(w, step).m)
  {
    hide Retained, AllCompatible, Counts, Epochs, Tables, Apply, SameHolder, Enabled;
    if step.DoStart? {
      StartKeepsTurn(w, step.id);
    } else if step.DoTakeBack? || step.DoTurn? || step.DoPublish? || step.DoDrop? {
      HandlesKeepTurn(w, step);
    } else {
      OthersKeepTurn(w, step);
      TurnHeld(w, Apply(w, step).m);
    }
  }

  lemma TurnHeld(w: World, m1: Manager)
    requires Guards(w) && m1.handles == w.m.handles && m1.turn == w.m.turn
    ensures SameHolder(w.m, m1)
  {
  }

  /** Nothing changes but, perhaps, what one active transaction holds. */
  predicate Touches(m: Manager, m1: Manager, id: TxId) {
    && m1 == m.(txns := m1.txns) && m1.txns.Keys == m.txns.Keys
    && forall t :: t in m.txns && (t != id || m.txns[t].phase != Active) ==> m1.txns[t] == m.txns[t]
  }

  predicate ClaimStep(step: Step) {
    step.DoClaim? || step.DoKey? || step.DoRead? || step.DoMark? || step.DoRestore?
  }

  lemma ClaimTouches(m: Manager, id: TxId, kind: ClaimKind, entities: seq<Entity>)
    ensures Touches(m, RecordClaims(m, id, kind, entities).0, id)
  {
    hide RecordAll, ItemsOf, RefusesAny;
  }

  lemma KeyTouches(m: Manager, id: TxId, key: Key)
    ensures Touches(m, RecordKey(m, id, key).0, id)
  {
    hide Record;
  }

  lemma ReadTouches(m: Manager, id: TxId, e: Entity)
    ensures Touches(m, RecordRead(m, id, e).0, id)
  {
  }

  lemma MarkTouches(m: Manager, id: TxId)
    ensures Touches(m, MarkClaims(m, id).0, id)
  {
  }

  lemma RestoreTouches(m: Manager, id: TxId, mark: nat)
    ensures Touches(m, RestoreClaims(m, id, mark).0, id)
  {
    hide Rewind;
  }

  lemma ClaimStepTouches(w: World, step: Step)
    requires ClaimStep(step)
    ensures Touches(w.m, Apply(w, step).m, step.id) && Apply(w, step).log == w.log
  {
    hide Touches, RecordClaims, RecordKey, RecordRead, MarkClaims, RestoreClaims;
    match step
    case DoClaim(id, kind, entities) => ClaimTouches(w.m, id, kind, entities);
    case DoKey(id, key) => KeyTouches(w.m, id, key);
    case DoRead(id, e) => ReadTouches(w.m, id, e);
    case DoMark(id) => MarkTouches(w.m, id);
    case DoRestore(id, mark) => RestoreTouches(w.m, id, mark);
  }

  /** Steps that concern no commit in progress. */
  predicate OtherStep(step: Step) {
    && !step.DoStart? && !step.DoTakeBack? && !step.DoTurn? && !step.DoPublish? && !step.DoDrop?
    && !step.DoGc? && !ClaimStep(step)
  }

  predicate SameTurn(m: Manager, m1: Manager) {
    m1.handles == m.handles && m1.turn == m.turn
  }

  /** Nothing that publication depends on changes. */
  predicate Steady(m: Manager, m1: Manager) {
    SameTurn(m, m1) && m1.published == m.published && m1.unpublishable == m.unpublishable
  }

  lemma OthersKeepTurn(w: World, step: Step)
    requires Enabled(w, step) && (OtherStep(step) || ClaimStep(step) || step.DoGc?)
    ensures SameTurn(w.m, Apply(w, step).m)
  {
    hide SameTurn, Apply, Enabled;
    if step.DoBar? { BarKeepsTurn(w, step.epoch); } else { OthersSteady(w, step); }
  }

  lemma BarKeepsTurn(w: World, epoch: Epoch)
    requires Enabled(w, DoBar(epoch))
    ensures SameTurn(w.m, Apply(w, DoBar(epoch)).m)
  {
    hide DroppedAt;
  }

  lemma OthersSteady(w: World, step: Step)
    requires Enabled(w, step) && !step.DoBar? && (OtherStep(step) || ClaimStep(step) || step.DoGc?)
    ensures Steady(w.m, Apply(w, step).m)
  {
    hide Steady, Apply, Enabled;
    if ClaimStep(step) {
      ClaimSteady(w, step);
    } else if step.DoGc? {
      GcSteady(w);
    } else {
      RestSteady(w, step);
    }
  }

  lemma ClaimSteady(w: World, step: Step)
    requires ClaimStep(step)
    ensures Steady(w.m, Apply(w, step).m)
  {
    ClaimStepTouches(w, step);
    hide Apply;
  }

  lemma GcSteady(w: World)
    ensures Steady(w.m, Apply(w, DoGc).m)
  {
    hide Collectable;
  }

  lemma RestSteady(w: World, step: Step)
    requires OtherStep(step) && !step.DoBar? && Enabled(w, step)
    ensures Steady(w.m, Apply(w, step).m)
  {
    hide Steady, Begin, Abort, PinAt, Pin, Unpin, CollectAt, Close, Written, Poison, DroppedAt;
    match step
    case DoBegin(level, private) => BeginSteady(w.m, level, private);
    case DoAbort(id) => AbortSteady(w.m, id);
    case DoPin => PinSteady(w.m, 0);
    case DoPinAt(epoch) => PinSteady(w.m, epoch);
    case DoUnpin(epoch) => PinSteady(w.m, epoch);
    case DoCollect(horizon, retention) => CollectSteady(w.m, horizon, retention);
    case DoPoison => PoisonSteady(w.m);
    case DoWritten(id) => WrittenSteady(w.m, id);
    case DoClose => CloseSteady(w.m);
  }

  lemma BeginSteady(m: Manager, level: Level, private: bool)
    ensures Steady(m, Begin(m, level, private).0)
  {
  }

  lemma AbortSteady(m: Manager, id: TxId)
    requires m.active > 0
    ensures Steady(m, Abort(m, id).0)
  {
  }

  lemma PinSteady(m: Manager, epoch: Epoch)
    ensures Steady(m, m) && Steady(m, Pin(m)) && Steady(m, PinAt(m, epoch).0) && Steady(m, Unpin(m, epoch))
  {
  }

  lemma CollectSteady(m: Manager, horizon: Epoch, retention: Option<Epoch>)
    requires IsHorizon(m, horizon)
    ensures Steady(m, CollectAt(m, horizon, retention))
  {
  }

  lemma PoisonSteady(m: Manager)
    ensures Steady(m, Poison(m))
  {
  }

  lemma WrittenSteady(m: Manager, id: TxId)
    requires m.lock == Some(id)
    ensures Steady(m, Written(m, id))
  {
  }

  lemma CloseSteady(m: Manager)
    requires m.lock.None?
    ensures Steady(m, Close(m))
  {
  }

  lemma HandlesKeepTurn(w: World, step: Step)
    requires Guards(w) && Enabled(w, step) && (step.DoTakeBack? || step.DoTurn? || step.DoPublish? || step.DoDrop?)
    ensures SameHolder(w.m, Apply(w, step).m)
  {
  }

  lemma StartKeepsTurn(w: World, id: TxId)
    requires Inv(w) && Enabled(w, DoStart(id))
    ensures SameHolder(w.m, Apply(w, DoStart(id)).m)
  {
    hide Retained, AllCompatible, Counts, Epochs;
    StartEffect(w.m, id);
    hide StartCommit;
  }

  lemma ShutAfter(m: Manager, step: Step, m1: Manager, epoch: Epoch)
    requires InOrder(m, step, m1) && SameHolder(m, m1) && Shut(m, epoch)
    ensures Shut(m1, epoch)
  {
  }

  /** In every run, an epoch that is barred and not yet published can still be published exactly when its
      commit holds the turn, checked before the bar. */
  lemma {:induction false} BarredExactly(steps: seq<Step>, epoch: Epoch)
    requires Legal(START, steps)
    requires var m := Run(START, steps).m; Unpublishable(m, epoch) && m.published < epoch
    ensures var w := Run(START, steps);
            (exists more :: Legal(w, more) && Run(w, more).m.published >= epoch) <==> InTurn(w.m, epoch)
  {
    hide Inv, Enabled, Apply, Legal, Run, Shut, InTurn;
    Reachable(steps);
    var w := Run(START, steps);
    if InTurn(w.m, epoch) {
      var more := HolderRun(w, epoch);
    } else {
      forall more | Legal(w, more) ensures Run(w, more).m.published < epoch {
        ShutNow(w.m, epoch);
        ShutStays(w, epoch, more);
        ShutBelow(Run(w, more).m, epoch);
      }
    }
  }

  lemma ShutNow(m: Manager, epoch: Epoch)
    requires m.published < epoch && Unpublishable(m, epoch) && !InTurn(m, epoch)
    ensures Shut(m, epoch)
  {
  }

  lemma ShutBelow(m: Manager, epoch: Epoch)
    requires Shut(m, epoch)
    ensures m.published < epoch
  {
  }

  lemma OneStep(w: World, step: Step)
    requires Enabled(w, step)
    ensures Legal(w, [step]) && Run(w, [step]) == Apply(w, step)
  {
    hide Enabled, Apply;
    var next := Apply(w, step);
    assert [step][1..] == [] && Legal(next, []) && Run(next, []) == next;
  }

  lemma HolderRun(w: World, epoch: Epoch) returns (more: seq<Step>)
    requires Inv(w) && InTurn(w.m, epoch)
    ensures Legal(w, more) && Run(w, more).m.published >= epoch
  {
    hide Inv, Enabled, Apply;
    HolderPublishes(w);
    more := [DoPublish(w.m.turn.value)];
    OneStep(w, more[0]);
  }

  lemma HolderPublishes(w: World)
    requires Inv(w) && w.m.turn.Some?
    ensures var id := w.m.turn.value;
            && id in w.m.handles && Enabled(w, DoPublish(id))
            && Apply(w, DoPublish(id)).m.published == w.m.handles[id]
  {
    hide Retained, AllCompatible, Epochs;
    assert w.m.turn.value in OpenIds(w.m.txns);
  }

  /** In every run, a commit whose handle was dropped is never published, nor is any later one, whether
      or not its bar is up yet. */
  lemma {:induction false} DroppedNeverPublished(steps: seq<Step>, id: TxId, more: seq<Step>)
    requires Legal(START, steps) && Unfinished(Run(START, steps), id) && Legal(Run(START, steps), more)
    ensures var w := Run(START, steps);
            id in w.log && Run(w, more).m.published < w.log[id].epoch
  {
    hide Run, Legal;
    Reachable(steps);
    UnfinishedStays(Run(START, steps), id, more);
  }

  lemma {:induction false} UnfinishedStays(w: World, id: TxId, more: seq<Step>)
    requires Inv(w) && Unfinished(w, id) && Legal(w, more)
    ensures id in w.log && Run(w, more).m.published < w.log[id].epoch
    decreases |more|
  {
    UnfinishedAbove(w, id);
    hide Inv, Enabled, Apply, Unfinished;
    if more != [] {
      UnfinishedStep(w, id, more[0]);
      KeepsStep(w, more[0]);
      UnfinishedStays(Apply(w, more[0]), id, more[1..]);
    }
  }

  lemma UnfinishedAbove(w: World, id: TxId)
    requires Inv(w) && Unfinished(w, id)
    ensures id in w.log && w.m.published < w.log[id].epoch
  {
    hide Retained, AllCompatible, Counts, Epochs;
  }

  ghost predicate StillUnfinished(w: World, w1: World, id: TxId) {
    Unfinished(w1, id) && id in w.log && id in w1.log && w1.log[id] == w.log[id]
  }

  lemma UnfinishedStep(w: World, id: TxId, step: Step)
    requires Inv(w) && Unfinished(w, id) && Enabled(w, step)
    ensures StillUnfinished(w, Apply(w, step), id)
  {
    assert id in w.log && id < w.m.nextId by { hide Retained, AllCompatible, Counts, Epochs; }
    hide Inv, Enabled, Apply, Unfinished, StillUnfinished;
    if step.DoPublish? || step.DoTurn? || step.DoDrop? || step.DoTakeBack? {
      UnfinishedHandles(w, id, step);
    } else if step.DoStart? {
      UnfinishedStart(w, id, step.id);
    } else if step.DoGc? {
      UnfinishedGc(w, id);
    } else if ClaimStep(step) {
      UnfinishedClaim(w, id, step);
    } else {
      UnfinishedOther(w, id, step);
    }
  }

  lemma UnfinishedHandles(w: World, id: TxId, step: Step)
    requires (step.DoPublish? || step.DoTurn? || step.DoDrop? || step.DoTakeBack?) && Enabled(w, step)
    requires Unfinished(w, id) && id in w.log
    ensures StillUnfinished(w, Apply(w, step), id)
  {
  }

  lemma UnfinishedStart(w: World, id: TxId, other: TxId)
    requires Unfinished(w, id) && id in w.log && Enabled(w, DoStart(other))
    ensures StillUnfinished(w, Apply(w, DoStart(other)), id)
  {
    hide ClaimConflict, ReadConflict;
  }

  lemma UnfinishedGc(w: World, id: TxId)
    requires Unfinished(w, id) && id in w.log && Enabled(w, DoGc)
    ensures StillUnfinished(w, Apply(w, DoGc), id)
  {
    assert !Collectable(w.m, id);
    hide Collectable;
  }

  lemma UnfinishedClaim(w: World, id: TxId, step: Step)
    requires ClaimStep(step) && Unfinished(w, id) && id in w.log && Enabled(w, step)
    ensures StillUnfinished(w, Apply(w, step), id)
  {
    ClaimStepTouches(w, step);
    hide Apply, Enabled;
  }

  lemma UnfinishedOther(w: World, id: TxId, step: Step)
    requires OtherStep(step) && Unfinished(w, id) && id in w.log && Enabled(w, step) && id < w.m.nextId
    ensures StillUnfinished(w, Apply(w, step), id)
  {
    hide RecordClaims, RecordKey, RecordRead, MarkClaims, RestoreClaims, DroppedAt, IsHorizon;
  }

  /** In every run that is not poisoned, the next commit to publish can take its turn or publish: none
      waits forever. */
  lemma {:induction false} SomeCommitCanPublish(steps: seq<Step>)
    requires Legal(START, steps)
    requires var m := Run(START, steps).m; !m.poisoned && m.published < m.lastEpoch
    ensures var w := Run(START, steps);
            exists id :: id in w.m.handles && (Enabled(w, DoTurn(id)) || Enabled(w, DoPublish(id)))
  {
    hide Run, Legal, Retained, AllCompatible;
    Reachable(steps);
    var w := Run(START, steps);
    if w.m.turn.Some? {
      HolderPublishes(w);
    } else {
      assert Taken(w.log, w.m.published + 1);
      var id :| id in w.log && w.log[id].epoch == w.m.published + 1;
      assert Enabled(w, DoTurn(id));
    }
  }

  // ---- a bar that comes too late

  /** The manager is poisoned, and every epoch barred, while a commit is in its turn. */
  const POISONED_IN_TURN := [DoBegin(SnapshotIsolation, false), DoStart(2), DoTurn(2), DoPoison, DoBar(0), DoPublish(2)]

  /** The commit is published all the same, above the bar. */
  lemma {:induction false} PublishedPastBar()
    ensures Legal(START, POISONED_IN_TURN)
    ensures var m := Run(START, POISONED_IN_TURN).m; m.published == 1 && Unpublishable(m, 1)
  {
    hide Apply, Enabled, Legal, Run;
    var w1, w2 := LoneScene();
    var w3, w4, w5, w6 := BarScene(w2);
    TraceIsRun([START, w1, w2, w3, w4, w5, w6], POISONED_IN_TURN);
  }

  lemma LoneScene() returns (w1: World, w2: World)
    ensures Enabled(START, DoBegin(SnapshotIsolation, false)) && w1 == Apply(START, DoBegin(SnapshotIsolation, false))
    ensures Enabled(w1, DoStart(2)) && w2 == Apply(w1, DoStart(2))
    ensures w2.m.txns == map[2 := IDLE.(phase := Committing)] && w2.m.handles == map[2 := 1] && Healthy(w2.m)
    ensures w2.m.published == 0 && w2.m.active == 1
  {
    w1 := Apply(START, DoBegin(SnapshotIsolation, false));
    assert w1.m.txns == map[2 := IDLE];
    w2 := Apply(w1, DoStart(2));
  }

  lemma BarScene(w2: World) returns (w3: World, w4: World, w5: World, w6: World)
    requires w2.m.txns == map[2 := IDLE.(phase := Committing)] && w2.m.handles == map[2 := 1] && Healthy(w2.m)
    requires w2.m.published == 0 && w2.m.active == 1
    ensures Enabled(w2, DoTurn(2)) && w3 == Apply(w2, DoTurn(2))
    ensures Enabled(w3, DoPoison) && w4 == Apply(w3, DoPoison)
    ensures Enabled(w4, DoBar(0)) && w5 == Apply(w4, DoBar(0))
    ensures Enabled(w5, DoPublish(2)) && w6 == Apply(w5, DoPublish(2))
    ensures w6.m.published == 1 && Unpublishable(w6.m, 1)
  {
    w3 := Apply(w2, DoTurn(2));
    w4, w5 := BarredScene(w3);
    w6 := LastScene(w5);
  }

  lemma BarredScene(w3: World) returns (w4: World, w5: World)
    ensures Enabled(w3, DoPoison) && w4 == Apply(w3, DoPoison)
    ensures Enabled(w4, DoBar(0)) && w5 == Apply(w4, DoBar(0))
    ensures w5.m == w3.m.(poisoned := true, unpublishable := Some(0))
  {
    hide DroppedAt;
    w4 := Apply(w3, DoPoison);
    w5 := Apply(w4, DoBar(0));
  }

  lemma LastScene(w5: World) returns (w6: World)
    requires w5.m.turn == Some(2) && w5.m.handles == map[2 := 1] && 2 in w5.m.txns
    requires w5.m.published == 0 && w5.m.active == 1 && w5.m.unpublishable == Some(0)
    ensures Enabled(w5, DoPublish(2)) && w6 == Apply(w5, DoPublish(2))
    ensures w6.m.published == 1 && Unpublishable(w6.m, 1)
  {
    w6 := Apply(w5, DoPublish(2));
  }

  // ---- why straying matters

  /** While the commit of 2 is in progress gc forgets that 3 wrote x, the commit is taken back, and 2
      then writes x and commits. */
  function LostUpdate(x: Entity): seq<Step> {
    [DoBegin(SnapshotIsolation, false), DoBegin(SnapshotIsolation, false),
     DoClaim(3, Write, [x]), DoStart(3), DoTurn(3), DoPublish(3),
     DoStart(2), DoGc, DoTakeBack(2), DoClaim(2, Write, [x]), DoStart(2)]
  }

  /** The worlds a run goes through. */
  predicate Trace(worlds: seq<World>, steps: seq<Step>) {
    && |worlds| == |steps| + 1
    && forall i :: 0 <= i < |steps| ==> Enabled(worlds[i], steps[i]) && worlds[i + 1] == Apply(worlds[i], steps[i])
  }

  lemma {:induction false} TraceIsRun(worlds: seq<World>, steps: seq<Step>)
    requires Trace(worlds, steps)
    ensures Legal(worlds[0], steps) && Run(worlds[0], steps) == worlds[|steps|]
    decreases |steps|
  {
    hide Enabled, Apply;
    if steps != [] {
      assert forall i :: 0 <= i < |steps| - 1 ==> steps[1..][i] == steps[i + 1];
      assert forall i :: 0 <= i < |steps| ==> worlds[1..][i] == worlds[i + 1];
      TraceIsRun(worlds[1..], steps[1..]);
    }
  }

  const IDLE := Info(Active, SnapshotIsolation, 0, NO_CLAIMS, {}, false, None)

  function Wrote(x: Entity): Info {
    IDLE.(claims := NO_CLAIMS.(writes := {x}))
  }

  predicate Healthy(m: Manager) {
    !m.poisoned && !m.closed && m.unpublishable.None? && m.turn.None?
  }

  /** A run in which two concurrent commits write the same entity: the later strayed. */
  lemma {:induction false} TakenBackLosesUpdate(x: Entity)
    ensures Legal(START, LostUpdate(x))
    ensures var log := Run(START, LostUpdate(x)).log;
            && 2 in log && 3 in log && Concurrent(log[2], log[3])
            && x in log[2].claims.writes && x in log[3].claims.writes
  {
    hide Apply, Enabled, Legal, Run;
    var w1, w2, w3 := OpeningScene(x);
    var w4 := CommitScene(x, w3);
    var turn, w5 := PublishScene(x, w4);
    var w6 := SecondScene(x, w5);
    var w7 := CollectScene(x, w6);
    var w8, w9, w10 := ReturnScene(x, w7);
    TraceIsRun([START, w1, w2, w3, w4, turn, w5, w6, w7, w8, w9, w10], LostUpdate(x));
  }

  lemma OpeningScene(x: Entity) returns (w1: World, w2: World, w3: World)
    ensures Enabled(START, DoBegin(SnapshotIsolation, false)) && w1 == Apply(START, DoBegin(SnapshotIsolation, false))
    ensures Enabled(w1, DoBegin(SnapshotIsolation, false)) && w2 == Apply(w1, DoBegin(SnapshotIsolation, false))
    ensures Enabled(w2, DoClaim(3, Write, [x])) && w3 == Apply(w2, DoClaim(3, Write, [x]))
    ensures w3.m.txns == map[2 := IDLE, 3 := Wrote(x)] && w3.m.committed == map[] && w3.m.handles == map[]
    ensures Healthy(w3.m) && w3.m.lock.None? && w3.m.lastEpoch == 0 && w3.m.published == 0 && w3.m.active == 2
    ensures w3.log == map[]
  {
    hide RecordAll, ItemsOf;
    w1 := Apply(START, DoBegin(SnapshotIsolation, false));
    w2 := Apply(w1, DoBegin(SnapshotIsolation, false));
    assert w2.m.txns == map[2 := IDLE, 3 := IDLE];
    OneWrite(IDLE, x);
    w3 := Apply(w2, DoClaim(3, Write, [x]));
    assert w3.m.txns == map[2 := IDLE, 3 := Wrote(x)];
  }

  lemma CommitScene(x: Entity, w3: World) returns (w4: World)
    requires w3.m.txns == map[2 := IDLE, 3 := Wrote(x)] && w3.m.committed == map[] && w3.m.handles == map[]
    requires Healthy(w3.m) && w3.m.lock.None? && w3.m.lastEpoch == 0 && w3.m.published == 0 && w3.m.active == 2
    requires w3.log == map[]
    ensures Enabled(w3, DoStart(3)) && w4 == Apply(w3, DoStart(3))
    ensures w4.m.txns == map[2 := IDLE, 3 := Wrote(x).(phase := Committing)] && w4.m.committed == map[3 := 1]
    ensures w4.m.handles == map[3 := 1] && w4.log == map[3 := DecidedOf(Wrote(x), 1)]
    ensures Healthy(w4.m) && w4.m.lock == Some(3) && w4.m.lastEpoch == 1 && w4.m.published == 0 && w4.m.active == 2
  {
    w4 := Apply(w3, DoStart(3));
  }

  lemma PublishScene(x: Entity, w4: World) returns (turn: World, w5: World)
    requires w4.m.txns == map[2 := IDLE, 3 := Wrote(x).(phase := Committing)] && w4.m.committed == map[3 := 1]
    requires w4.m.handles == map[3 := 1] && w4.log == map[3 := DecidedOf(Wrote(x), 1)]
    requires Healthy(w4.m) && w4.m.lock == Some(3) && w4.m.lastEpoch == 1 && w4.m.published == 0 && w4.m.active == 2
    ensures Enabled(w4, DoTurn(3)) && turn == Apply(w4, DoTurn(3))
    ensures Enabled(turn, DoPublish(3)) && w5 == Apply(turn, DoPublish(3))
    ensures w5.m.txns == map[2 := IDLE, 3 := Wrote(x).(phase := Committed)] && w5.m.committed == map[3 := 1]
    ensures w5.m.handles == map[] && Healthy(w5.m) && w5.m.lock.None? && w5.m.lastEpoch == 1
    ensures w5.log == map[3 := DecidedOf(Wrote(x), 1)]
  {
    turn := Apply(w4, DoTurn(3));
    w5 := Apply(turn, DoPublish(3));
    assert w5.m.txns == map[2 := IDLE, 3 := Wrote(x).(phase := Committed)];
    assert w5.m.handles == map[];
  }

  lemma SecondScene(x: Entity, w5: World) returns (w6: World)
    requires w5.m.txns == map[2 := IDLE, 3 := Wrote(x).(phase := Committed)] && w5.m.committed == map[3 := 1]
    requires w5.m.handles == map[] && Healthy(w5.m) && w5.m.lock.None? && w5.m.lastEpoch == 1
    requires w5.log == map[3 := DecidedOf(Wrote(x), 1)]
    ensures Enabled(w5, DoStart(2)) && w6 == Apply(w5, DoStart(2))
    ensures w6.m.txns == map[2 := IDLE.(phase := Committing), 3 := Wrote(x).(phase := Committed)]
    ensures w6.m.committed == map[2 := 2, 3 := 1]
    ensures w6.m.handles == map[2 := 2] && Healthy(w6.m) && w6.m.lock == Some(2)
    ensures w6.log == map[3 := DecidedOf(Wrote(x), 1), 2 := DecidedOf(IDLE, 2)]
  {
    hide ClaimConflict, ReadConflict;
    NothingToClash(w5.m);
    w6 := Apply(w5, DoStart(2));
  }

  lemma CollectScene(x: Entity, w6: World) returns (w7: World)
    requires w6.m.txns == map[2 := IDLE.(phase := Committing), 3 := Wrote(x).(phase := Committed)]
    requires w6.m.committed == map[2 := 2, 3 := 1]
    requires w6.m.handles == map[2 := 2] && Healthy(w6.m) && w6.m.lock == Some(2)
    ensures Enabled(w6, DoGc) && w7 == Apply(w6, DoGc) && w7.log == w6.log
    ensures w7.m.txns == map[2 := IDLE.(phase := Committing)] && w7.m.committed == map[2 := 2]
    ensures w7.m.handles == map[2 := 2] && Healthy(w7.m) && w7.m.lock == Some(2)
  {
    w7 := Apply(w6, DoGc);
    assert Collectable(w6.m, 3) && !Collectable(w6.m, 2);
    assert w7.m.txns == map[2 := IDLE.(phase := Committing)];
  }

  lemma ReturnScene(x: Entity, w7: World) returns (w8: World, w9: World, w10: World)
    requires w7.m.txns == map[2 := IDLE.(phase := Committing)] && w7.m.committed == map[2 := 2]
    requires w7.m.handles == map[2 := 2] && Healthy(w7.m) && w7.m.lock == Some(2)
    requires w7.log == map[3 := DecidedOf(Wrote(x), 1), 2 := DecidedOf(IDLE, 2)]
    ensures Enabled(w7, DoTakeBack(2)) && w8 == Apply(w7, DoTakeBack(2))
    ensures Enabled(w8, DoClaim(2, Write, [x])) && w9 == Apply(w8, DoClaim(2, Write, [x]))
    ensures Enabled(w9, DoStart(2)) && w10 == Apply(w9, DoStart(2))
    ensures w10.log == map[3 := DecidedOf(Wrote(x), 1), 2 := DecidedOf(Wrote(x), 2)]
  {
    hide RecordAll, ItemsOf;
    w8 := Apply(w7, DoTakeBack(2));
    assert w8.m.txns == map[2 := IDLE] && w8.m.committed == map[];
    OneWrite(IDLE, x);
    w9 := Apply(w8, DoClaim(2, Write, [x]));
    assert w9.m.txns == map[2 := Wrote(x)];
    w10 := Apply(w9, DoStart(2));
  }

  lemma OneWrite(info: Info, x: Entity)
    requires info.claims == NO_CLAIMS && info.undo.None?
    ensures RecordAll(info, ItemsOf(Write, [x])) == info.(claims := NO_CLAIMS.(writes := {x}))
  {
    var items := [WriteOf(x)];
    assert [x][1..] == [] && items[1..] == [];
    assert ItemsOf(Write, [x]) == EntityItems(Write, x) + [] == items;
    assert {} + {x} == {x};
  }

  lemma NothingToClash(m: Manager)
    requires 2 in m.txns && m.txns[2].claims == NO_CLAIMS && m.txns[2].level == SnapshotIsolation
    ensures !ClaimConflict(m, 2) && !ReadConflict(m, 2)
  {
  }
}
