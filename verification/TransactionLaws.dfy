/** What every run of the transaction manager keeps: snapshot isolation, serializability of the
    recorded reads, no dangling edge, unique keys, and horizons no reader is behind. */
module TransactionLaws {
  import opened Options
  import opened Transactions

  /** A decided commit, remembered forever: the manager itself forgets it. */
  datatype Decided = Decided(start: Epoch, epoch: Epoch, level: Level, claims: Claims, readSet: set<Entity>)

  /** The manager, every commit ever decided (and not taken back), the transactions whose commit was
      taken back, those that then recorded more, and the reads pinned outside transactions. */
  datatype World = World(m: Manager, log: map<TxId, Decided>, takenBack: set<TxId>, strayed: set<TxId>,
                         pins: multiset<Epoch>)

  const START := World(INITIAL, map[], {}, {}, multiset{})

  datatype Step =
    | DoBegin(level: Level, private: bool)
    | DoClaim(id: TxId, kind: ClaimKind, entities: seq<Entity>)
    | DoKey(id: TxId, key: Key)
    | DoRead(id: TxId, e: Entity)
    | DoMark(id: TxId)
    | DoRestore(id: TxId, mark: nat)
    | DoStart(id: TxId)
    | DoWritten(id: TxId)
    | DoTakeBack(id: TxId)
    | DoTurn(id: TxId)
    | DoPublish(id: TxId)
    | DoDrop(id: TxId)
    | DoPoison
    | DoBar(epoch: Epoch)
    | DoAbort(id: TxId)
    | DoGc
    | DoPin
    | DoPinAt(epoch: Epoch)
    | DoUnpin(epoch: Epoch)
    | DoCollect(horizon: Epoch, retention: Option<Epoch>)
    | DoClose

  /** A commit at the epoch was decided and its handle used up without publishing it. */
  predicate DroppedAt(w: World, epoch: Epoch) {
    exists id :: id in w.log && w.log[id].epoch == epoch && Unfinished(w, id)
  }

  predicate Unfinished(w: World, id: TxId) {
    id in w.m.txns && w.m.txns[id].phase == Committing && id !in w.m.handles
  }

  /** When a step can happen: a lock is waited for, a handle is used once by its owner, a published
      commit waits for its turn. An epoch is barred after the poisoning that goes with it. */
  predicate Enabled(w: World, step: Step) {
    var m := w.m;
    match step
    case DoStart(id) => m.lock.None?
    case DoWritten(id) => m.lock == Some(id)
    case DoTakeBack(id) =>
      m.lock == Some(id) && m.turn != Some(id) && id in m.handles && id in m.txns && m.handles[id] > 0
    case DoTurn(id) =>
      && m.turn.None? && id in m.handles
      && (Unpublishable(m, m.handles[id]) || m.published + 1 >= m.handles[id])
    case DoPublish(id) => m.turn == Some(id) && id in m.handles && id in m.txns && m.active > 0
    case DoDrop(id) => id in m.handles
    case DoBar(epoch) => m.poisoned && (epoch == 0 || DroppedAt(w, epoch))
    case DoAbort(id) => m.active > 0
    case DoUnpin(epoch) => epoch in w.pins
    case DoCollect(horizon, _) => IsHorizon(m, horizon)
    case DoClose => m.lock.None?
    case _ => true
  }

  /** The transactions that recorded claims or reads after their commit was taken back. */
  function Strayed(w: World, id: TxId): set<TxId> {
    if id in w.takenBack then w.strayed + {id} else w.strayed
  }

  function DecidedOf(info: Info, epoch: Epoch): Decided {
    Decided(info.start, epoch, info.level, info.claims, info.readSet)
  }

  function Apply(w: World, step: Step): World
    requires Enabled(w, step)
  {
    var m := w.m;
    match step
    case DoBegin(level, private) => w.(m := Begin(m, level, private).0)
    case DoClaim(id, kind, entities) => w.(m := RecordClaims(m, id, kind, entities).0, strayed := Strayed(w, id))
    case DoKey(id, key) => w.(m := RecordKey(m, id, key).0, strayed := Strayed(w, id))
    case DoRead(id, e) => w.(m := RecordRead(m, id, e).0, strayed := Strayed(w, id))
    case DoMark(id) => w.(m := MarkClaims(m, id).0)
    case DoRestore(id, mark) => w.(m := RestoreClaims(m, id, mark).0)
    case DoStart(id) =>
      var (m1, outcome) := StartCommit(m, id);
      if outcome == Done && id in m1.txns then w.(m := m1, log := w.log[id := DecidedOf(m1.txns[id], m1.lastEpoch)])
      else w.(m := m1)
    case DoWritten(id) => w.(m := Written(m, id))
    case DoTakeBack(id) => w.(m := TakeBack(m, id), log := w.log - {id}, takenBack := w.takenBack + {id})
    case DoTurn(id) => w.(m := TakeTurn(m, id).0)
    case DoPublish(id) => w.(m := Publish(m, id))
    case DoDrop(id) => w.(m := DropHandle(m, id))
    case DoPoison => w.(m := Poison(m))
    case DoBar(epoch) => w.(m := Bar(m, epoch))
    case DoAbort(id) => w.(m := Abort(m, id).0)
    case DoGc => w.(m := Collect(m))
    case DoPin => w.(m := Pin(m), pins := w.pins + multiset{m.published})
    case DoPinAt(epoch) =>
      if PinAt(m, epoch).1 == Done then w.(m := PinAt(m, epoch).0, pins := w.pins + multiset{ReadableEpoch(m, epoch)})
      else w
    case DoUnpin(epoch) => w.(m := Unpin(m, epoch), pins := w.pins - multiset{epoch})
    case DoCollect(horizon, retention) => w.(m := CollectAt(m, horizon, retention))
    case DoClose => w.(m := Close(m))
  }

  // ---- the invariant

  /** Whether the later of two decided commits saw the earlier one, or does not clash with it. */
  predicate Compatible(later: Decided, earlier: Decided) {
    earlier.epoch > later.start ==>
      && !Clash(later.claims, earlier.claims)
      && (later.level == Serializable ==> later.readSet * earlier.claims.writes == {})
  }

  ghost predicate AllCompatible(w: World) {
    forall a, b :: a in w.log && b in w.log && w.log[a].epoch < w.log[b].epoch && b !in w.strayed ==>
                     Compatible(w.log[b], w.log[a])
  }

  predicate Taken(log: map<TxId, Decided>, e: Epoch) {
    exists a :: a in log && log[a].epoch == e
  }

  /** Epochs: each decided commit has its own, published ones come first, none is skipped. */
  ghost predicate Epochs(w: World) {
    var m := w.m;
    && m.published <= m.lastEpoch
    && (forall a :: a in w.log ==> a < m.nextId && w.log[a].start < w.log[a].epoch <= m.lastEpoch)
    && (forall a, b :: a in w.log && b in w.log && w.log[a].epoch == w.log[b].epoch ==> a == b)
    && (forall e :: m.published < e <= m.lastEpoch ==> Taken(w.log, e))
  }

  /** How the manager's tables stand to the decided commits. */
  ghost predicate Tables(w: World) {
    Known(w) && Placed(w)
  }

  /** A decided commit still in the tables is there as it was decided. */
  ghost predicate Known(w: World) {
    var m := w.m;
    && (forall id :: id in m.txns ==> id < m.nextId && m.txns[id].start <= m.published)
    && (forall id :: id in m.txns && id in w.log ==>
          && (m.txns[id].phase == Committing || m.txns[id].phase == Committed)
          && w.log[id] == DecidedOf(m.txns[id], w.log[id].epoch))
    && (forall id :: id in m.txns && (m.txns[id].phase == Committing || m.txns[id].phase == Committed) ==>
          id in w.log && id in m.committed)
  }

  /** Commits in progress are above the published epoch, all others at or below it. */
  ghost predicate Placed(w: World) {
    var m := w.m;
    && (forall id :: id in m.committed ==> id in w.log && m.committed[id] == w.log[id].epoch)
    && (forall id :: id in w.log ==>
          if id in m.txns && m.txns[id].phase == Committing
          then w.log[id].epoch > m.published && id in m.committed
          else w.log[id].epoch <= m.published)
  }

  /** Handles, the commit lock and the turn belong to commits in progress; the lock to the newest, the
      turn to the next to publish. */
  ghost predicate Guards(w: World) {
    var m := w.m;
    && (forall id :: id in m.handles ==>
          id in m.txns && m.txns[id].phase == Committing && id in w.log && m.handles[id] == w.log[id].epoch)
    && (m.lock.Some? ==> m.lock.value in m.handles && m.handles[m.lock.value] == m.lastEpoch)
    && (m.turn.Some? ==> m.turn.value in m.handles && m.handles[m.turn.value] == m.published + 1)
    && (m.unpublishable.Some? ==> m.poisoned)
    && (!m.poisoned ==> forall id :: id in m.txns && m.txns[id].phase == Committing ==> id in m.handles)
  }

  /** A commit is kept while an active transaction that began before it may still clash with it; one
      that is gone from the tables may only be unknown to a taken back transaction that strayed or that
      it agrees with. */
  ghost predicate Retained(w: World) {
    forall t, a ::
      (t in w.m.txns && w.m.txns[t].phase == Active && a in w.log && w.log[a].epoch > w.m.txns[t].start) ==>
      RetainedFor(w, t, a)
  }

  ghost predicate RetainedFor(w: World, t: TxId, a: TxId)
    requires t in w.m.txns && a in w.log
  {
    || (a in w.m.txns && a in w.m.committed)
    || (t in w.takenBack && (t in w.strayed || Compatible(DecidedOf(w.m.txns[t], 0), w.log[a])))
  }

  function OpenIds(txns: map<TxId, Info>): set<TxId> {
    set id | id in txns && Open(txns[id].phase)
  }

  function OpenAt(txns: map<TxId, Info>, e: Epoch): set<TxId> {
    set id | id in txns && Open(txns[id].phase) && txns[id].start == e
  }

  /** The counters that replace scans: open transactions, and readers by epoch, none below the floor. */
  ghost predicate Counts(w: World) {
    var m := w.m;
    && m.active == |OpenIds(m.txns)|
    && (forall e :: m.readers[e] == w.pins[e] + |OpenAt(m.txns, e)|)
    && (forall e :: e in m.readers ==> m.floor <= e <= m.published)
    && m.floor <= m.published
  }

  ghost predicate Inv(w: World) {
    Epochs(w) && Tables(w) && Guards(w) && Retained(w) && AllCompatible(w) && Counts(w)
  }

  // ---- counting open transactions

  predicate SameOpen(t: map<TxId, Info>, t1: map<TxId, Info>, id: TxId) {
    (id in t && Open(t[id].phase)) == (id in t1 && Open(t1[id].phase)) &&
    (id in t && id in t1 && Open(t[id].phase) ==> t[id].start == t1[id].start)
  }

  lemma OpenSame(t: map<TxId, Info>, t1: map<TxId, Info>)
    requires forall id :: SameOpen(t, t1, id)
    ensures OpenIds(t) == OpenIds(t1)
    ensures forall e :: OpenAt(t, e) == OpenAt(t1, e)
  {
    forall id ensures id in OpenIds(t) <==> id in OpenIds(t1) {
      assert SameOpen(t, t1, id);
    }
    forall e ensures OpenAt(t, e) == OpenAt(t1, e) {
      forall id ensures id in OpenAt(t, e) <==> id in OpenAt(t1, e) {
        assert SameOpen(t, t1, id);
      }
    }
  }

  /** Transaction `id` is open in t1 only. */
  ghost predicate Opens(t: map<TxId, Info>, t1: map<TxId, Info>, id: TxId) {
    && id in t1 && Open(t1[id].phase) && !(id in t && Open(t[id].phase))
    && forall other :: other != id ==> SameOpen(t, t1, other)
  }

  lemma OpenMore(t: map<TxId, Info>, t1: map<TxId, Info>, id: TxId)
    requires Opens(t, t1, id)
    ensures |OpenIds(t1)| == |OpenIds(t)| + 1
    ensures forall e :: |OpenAt(t1, e)| == |OpenAt(t, e)| + if e == t1[id].start then 1 else 0
  {
    OpenIdsMore(t, t1, id);
    forall e { OpenAtMore(t, t1, id, e); }
  }

  lemma OpenIdsMore(t: map<TxId, Info>, t1: map<TxId, Info>, id: TxId)
    requires Opens(t, t1, id)
    ensures |OpenIds(t1)| == |OpenIds(t)| + 1
  {
    forall x ensures x in OpenIds(t1) <==> x in OpenIds(t) || x == id {
      assert x != id ==> SameOpen(t, t1, x);
    }
    assert OpenIds(t1) == OpenIds(t) + {id};
  }

  lemma OpenAtMore(t: map<TxId, Info>, t1: map<TxId, Info>, id: TxId, e: Epoch)
    requires Opens(t, t1, id)
    ensures |OpenAt(t1, e)| == |OpenAt(t, e)| + if e == t1[id].start then 1 else 0
  {
    forall x ensures x in OpenAt(t1, e) <==> x in OpenAt(t, e) || (x == id && e == t1[id].start) {
      assert x != id ==> SameOpen(t, t1, x);
    }
    assert OpenAt(t1, e) == OpenAt(t, e) + if e == t1[id].start then {id} else {};
  }

  /** The counters after one transaction ended. */
  lemma CountsEnded(w: World, w1: World, id: TxId)
    requires Counts(w) && Opens(w1.m.txns, w.m.txns, id)
    requires w.m.active > 0 && w1.m.active == w.m.active - 1
    requires w1.m.readers == w.m.readers - multiset{w.m.txns[id].start}
    requires w1.pins == w.pins && w1.m.floor == w.m.floor && w1.m.published >= w.m.published
    ensures Counts(w1)
  {
    OpenMore(w1.m.txns, w.m.txns, id);
  }

  lemma CountsKept(w: World, w1: World)
    requires Counts(w) && forall id :: SameOpen(w.m.txns, w1.m.txns, id)
    requires w1.m.active == w.m.active && w1.m.readers == w.m.readers && w1.pins == w.pins
    requires w1.m.floor == w.m.floor && w1.m.published >= w.m.published
    ensures Counts(w1)
  {
    OpenSame(w.m.txns, w1.m.txns);
  }

  // ---- each step keeps the invariant

  lemma KeepsBegin(w: World, level: Level, private: bool)
    requires Inv(w)
    ensures Inv(Apply(w, DoBegin(level, private)))
  {
    hide Epochs, Tables, Guards, Retained, AllCompatible, Counts;
    var w1 := Apply(w, DoBegin(level, private));
    if !(private && w.m.closed) {
      BeginTables(w, w1, level, private);
      BeginRest(w, w1, level, private);
      BeginRetained(w, w1, level, private);
      FreshId(w);
      BeginCounts(w, w1);
    }
  }

  lemma FreshId(w: World)
    requires Tables(w)
    ensures w.m.nextId !in w.m.txns
  {
  }

  lemma BeginTables(w: World, w1: World, level: Level, private: bool)
    requires !(private && w.m.closed) && w1 == w.(m := Begin(w.m, level, private).0)
    requires Tables(w) && Epochs(w)
    ensures Tables(w1)
  {
  }

  lemma BeginRest(w: World, w1: World, level: Level, private: bool)
    requires !(private && w.m.closed) && w1 == w.(m := Begin(w.m, level, private).0)
    requires Tables(w) && Epochs(w) && Guards(w) && AllCompatible(w)
    ensures Epochs(w1) && Guards(w1) && AllCompatible(w1)
  {
    hide Compatible, Taken;
  }

  lemma BeginRetained(w: World, w1: World, level: Level, private: bool)
    requires !(private && w.m.closed) && w1 == w.(m := Begin(w.m, level, private).0)
    requires Tables(w) && Retained(w)
    ensures Retained(w1)
  {
    hide Clash;
  }

  lemma BeginCounts(w: World, w1: World)
    requires Counts(w) && w1.pins == w.pins && w.m.nextId !in w.m.txns
    requires w1.m.txns.Keys == w.m.txns.Keys + {w.m.nextId}
    requires forall id :: id in w.m.txns ==> w1.m.txns[id] == w.m.txns[id]
    requires w1.m.txns[w.m.nextId].phase == Active && w1.m.txns[w.m.nextId].start == w.m.published
    requires w1.m.active == w.m.active + 1 && w1.m.readers == w.m.readers + multiset{w.m.published}
    requires w1.m.floor == w.m.floor && w1.m.published == w.m.published
    ensures Counts(w1)
  {
    OpenMore(w.m.txns, w1.m.txns, w.m.nextId);
  }

  /** A change of an active transaction's claims, reads or undo log. */
  lemma KeepsUpdate(w: World, id: TxId, info: Info, strayed: set<TxId>)
    requires Inv(w) && id in w.m.txns && w.m.txns[id].phase == Active && w.strayed <= strayed
    requires info.phase == Active && info.start == w.m.txns[id].start && info.level == w.m.txns[id].level
    requires StaysClear(w, id, info, strayed)
    ensures Inv(w.(m := UpdateInfo(w.m, id, info), strayed := strayed))
  {
    hide Epochs, Tables, Guards, Retained, AllCompatible, Counts, StaysClear;
    var w1 := w.(m := UpdateInfo(w.m, id, info), strayed := strayed);
    UpdateTables(w, w1, id, info);
    UpdateRest(w, w1, id, info);
    UpdateRetained(w, w1, id, info);
    CountsKept(w, w1);
  }

  /** A taken back transaction strays, or clashes with nothing new. */
  ghost predicate StaysClear(w: World, id: TxId, info: Info, strayed: set<TxId>)
    requires id in w.m.txns
  {
    id in w.takenBack ==>
      || id in strayed
      || forall a :: a in w.log && Compatible(DecidedOf(w.m.txns[id], 0), w.log[a]) ==>
                       Compatible(DecidedOf(info, 0), w.log[a])
  }

  ghost predicate Updates(w: World, w1: World, id: TxId, info: Info) {
    && id in w.m.txns && w.m.txns[id].phase == Active && info.phase == Active && w.strayed <= w1.strayed
    && info.start == w.m.txns[id].start && info.level == w.m.txns[id].level
    && w1 == w.(m := UpdateInfo(w.m, id, info), strayed := w1.strayed)
  }

  lemma UpdateTables(w: World, w1: World, id: TxId, info: Info)
    requires Updates(w, w1, id, info) && Tables(w)
    ensures Tables(w1)
  {
  }

  lemma UpdateRest(w: World, w1: World, id: TxId, info: Info)
    requires Updates(w, w1, id, info) && Epochs(w) && Guards(w) && AllCompatible(w)
    ensures Epochs(w1) && Guards(w1) && AllCompatible(w1)
  {
    hide Compatible, Taken;
  }

  lemma UpdateRetained(w: World, w1: World, id: TxId, info: Info)
    requires Updates(w, w1, id, info) && Retained(w) && StaysClear(w, id, info, w1.strayed)
    ensures Retained(w1)
  {
    hide Compatible;
  }

  /** What start_commit does once nothing conflicts. */
  lemma KeepsStart(w: World, id: TxId)
    requires Inv(w) && w.m.lock.None?
    ensures Inv(Apply(w, DoStart(id)))
  {
    hide Epochs, Known, Placed, Guards, Retained, AllCompatible, Counts, StartCommit;
    var m, w1 := w.m, Apply(w, DoStart(id));
    StartEffect(m, id);
    if StartCommit(m, id).1 == Done {
      StartEpochs(w, w1, id);
      StartKnown(w, w1, id);
      StartPlaced(w, w1, id);
      StartGuards(w, w1, id);
      StartRetained(w, w1, id);
      if id !in w.strayed { NoConflict(w, id); }
      StartCompatible(w, w1, id);
      StartCounts(w, w1, id);
    }
  }

  lemma StartEffect(m: Manager, id: TxId)
    requires m.lock.None?
    ensures var (m1, outcome) := StartCommit(m, id);
            if outcome == Done then
              && id in m.txns && m.txns[id].phase == Active && !ClaimConflict(m, id) && !ReadConflict(m, id)
              && var epoch := m.lastEpoch + 1;
              m1 == m.(lastEpoch := epoch, lock := Some(id), handles := m.handles[id := epoch],
                       committed := m.committed[id := epoch],
                       txns := m.txns[id := m.txns[id].(phase := Committing)])
            else m1 == m
  {
    hide ClaimConflict, ReadConflict;
  }

  ghost predicate Starts(w: World, w1: World, id: TxId) {
    var m := w.m;
    var epoch := m.lastEpoch + 1;
    && id in m.txns && m.txns[id].phase == Active
    && w1.m == m.(lastEpoch := epoch, lock := Some(id), handles := m.handles[id := epoch],
                  committed := m.committed[id := epoch],
                  txns := m.txns[id := m.txns[id].(phase := Committing)])
    && w1 == w.(m := w1.m, log := w.log[id := DecidedOf(m.txns[id], epoch)])
  }

  lemma StartEpochs(w: World, w1: World, id: TxId)
    requires Starts(w, w1, id) && Epochs(w) && Tables(w)
    ensures Epochs(w1)
  {
    assert id !in w.log by { hide Epochs, Placed; }
    forall e | w1.m.published < e <= w1.m.lastEpoch ensures Taken(w1.log, e) {
      if e == w1.m.lastEpoch {
        assert w1.log[id].epoch == e;
      } else {
        assert Taken(w.log, e);
        TakenMore(w.log, w1.log, e);
      }
    }
    hide Taken, Known, Placed;
  }

  lemma TakenMore(log: map<TxId, Decided>, more: map<TxId, Decided>, e: Epoch)
    requires Taken(log, e) && forall a :: a in log ==> a in more && more[a] == log[a]
    ensures Taken(more, e)
  {
    var a :| a in log && log[a].epoch == e;
    assert more[a].epoch == e;
  }

  lemma StartKnown(w: World, w1: World, id: TxId)
    requires Starts(w, w1, id) && Known(w)
    ensures Known(w1)
  {
  }

  lemma StartPlaced(w: World, w1: World, id: TxId)
    requires Starts(w, w1, id) && Epochs(w) && Tables(w)
    ensures Placed(w1)
  {
    hide Taken;
  }

  lemma StartGuards(w: World, w1: World, id: TxId)
    requires Starts(w, w1, id) && Tables(w) && Guards(w)
    ensures Guards(w1)
  {
  }

  lemma StartRetained(w: World, w1: World, id: TxId)
    requires Starts(w, w1, id) && Retained(w)
    ensures Retained(w1)
  {
    hide Clash;
  }

  /** The checks of start_commit find every clash with a commit decided since the transaction began,
      although they see only the commits still in the tables. */
  lemma NoConflict(w: World, id: TxId)
    requires Tables(w) && Retained(w) && id in w.m.txns && w.m.txns[id].phase == Active && id !in w.strayed
    requires !ClaimConflict(w.m, id) && !ReadConflict(w.m, id) && Epochs(w)
    ensures forall a :: a in w.log ==> Compatible(DecidedOf(w.m.txns[id], 0), w.log[a])
  {
    hide Clash;
    var m := w.m;
    forall a | a in w.log && w.log[a].epoch > m.txns[id].start
      ensures Compatible(DecidedOf(m.txns[id], 0), w.log[a])
    {
      assert w.log[a].epoch <= m.lastEpoch;
      if a in m.txns && a in m.committed {
        assert Checked(m, id, a);
      }
    }
  }

  lemma StartCompatible(w: World, w1: World, id: TxId)
    requires Starts(w, w1, id) && AllCompatible(w) && Epochs(w) && Tables(w)
    requires id !in w.strayed ==> forall a :: a in w.log ==> Compatible(DecidedOf(w.m.txns[id], 0), w.log[a])
    ensures AllCompatible(w1)
  {
    hide Clash;
    forall a, b | a in w1.log && b in w1.log && w1.log[a].epoch < w1.log[b].epoch && b !in w1.strayed
      ensures Compatible(w1.log[b], w1.log[a])
    {
      if b == id {
        assert Compatible(DecidedOf(w.m.txns[id], 0), w.log[a]);
      } else {
        assert a != id;
        assert Compatible(w.log[b], w.log[a]);
      }
    }
  }

  lemma StartCounts(w: World, w1: World, id: TxId)
    requires Starts(w, w1, id) && Counts(w)
    ensures Counts(w1)
  {
    hide Counts;
    CountsKept(w, w1);
  }

  lemma KeepsTakeBack(w: World, id: TxId)
    requires Inv(w) && Enabled(w, DoTakeBack(id))
    ensures Inv(Apply(w, DoTakeBack(id)))
  {
    hide Epochs, Tables, Guards, Retained, AllCompatible, Counts;
    var w1 := Apply(w, DoTakeBack(id));
    LockIsNewest(w, id);
    TakeBackEpochs(w, w1, id);
    TakeBackTables(w, w1, id);
    TakeBackGuards(w, w1, id);
    TakeBackCompatible(w, w1, id);
    TakeBackRetained(w, w1, id);
    TakeBackCounts(w, w1, id);
  }

  ghost predicate TakesBack(w: World, w1: World, id: TxId) {
    && w.m.lock == Some(id) && w.m.turn != Some(id) && id in w.m.handles && id in w.m.txns && w.m.handles[id] > 0
    && w1 == w.(m := TakeBack(w.m, id), log := w.log - {id}, takenBack := w.takenBack + {id})
  }

  lemma LockIsNewest(w: World, id: TxId)
    requires Tables(w) && Guards(w) && w.m.lock == Some(id)
    ensures id in w.log && id in w.m.handles && w.m.handles[id] == w.log[id].epoch == w.m.lastEpoch > w.m.published
  {
  }

  lemma TakeBackEpochs(w: World, w1: World, id: TxId)
    requires TakesBack(w, w1, id) && Epochs(w)
    requires id in w.log && w.m.handles[id] == w.log[id].epoch == w.m.lastEpoch > w.m.published
    ensures Epochs(w1)
  {
    forall e | w1.m.published < e <= w1.m.lastEpoch ensures Taken(w1.log, e) {
      assert Taken(w.log, e);
      var a :| a in w.log && w.log[a].epoch == e;
      assert a in w1.log && w1.log[a].epoch == e;
    }
  }

  lemma TakeBackTables(w: World, w1: World, id: TxId)
    requires TakesBack(w, w1, id) && Tables(w)
    ensures Tables(w1)
  {
  }

  lemma TakeBackGuards(w: World, w1: World, id: TxId)
    requires TakesBack(w, w1, id) && Guards(w)
    ensures Guards(w1)
  {
  }

  lemma TakeBackCompatible(w: World, w1: World, id: TxId)
    requires TakesBack(w, w1, id) && AllCompatible(w)
    ensures AllCompatible(w1)
  {
    hide Compatible;
  }

  lemma TakeBackRetained(w: World, w1: World, id: TxId)
    requires TakesBack(w, w1, id) && Epochs(w) && Tables(w) && Guards(w) && AllCompatible(w) && Retained(w)
    ensures Retained(w1)
  {
    hide Compatible;
    forall t, a | t in w1.m.txns && w1.m.txns[t].phase == Active && a in w1.log &&
                  w1.log[a].epoch > w1.m.txns[t].start
      ensures RetainedFor(w1, t, a)
    {
      if t == id {
        assert w.log[a].epoch < w.log[id].epoch;
        if id !in w.strayed { AgreesWithEarlier(w, id, a); }
      } else {
        assert RetainedFor(w, t, a);
      }
    }
  }

  lemma AgreesWithEarlier(w: World, id: TxId, a: TxId)
    requires AllCompatible(w) && Tables(w) && id in w.log && a in w.log && id in w.m.txns
    requires w.log[a].epoch < w.log[id].epoch && id !in w.strayed
    ensures Compatible(DecidedOf(w.m.txns[id], 0), w.log[a])
  {
    hide Clash;
    assert Compatible(w.log[id], w.log[a]);
  }

  lemma TakeBackCounts(w: World, w1: World, id: TxId)
    requires TakesBack(w, w1, id) && Counts(w) && Guards(w)
    ensures Counts(w1)
  {
    hide Counts;
    CountsKept(w, w1);
  }

  // ---- publishing

  lemma KeepsPublish(w: World, id: TxId)
    requires Inv(w) && Enabled(w, DoPublish(id))
    ensures Inv(Apply(w, DoPublish(id)))
  {
    hide Epochs, Known, Placed, Guards, Retained, AllCompatible, Counts;
    var w1 := Apply(w, DoPublish(id));
    PublishTurn(w, id);
    PublishEpochs(w, w1, id);
    PublishKnown(w, w1, id);
    PublishPlaced(w, w1, id);
    PublishGuards(w, w1, id);
    PublishRetained(w, w1, id);
    SameLogCompatible(w, w1);
    PublishCounts(w, w1, id);
  }

  lemma KeepsTurn(w: World, id: TxId)
    requires Inv(w) && Enabled(w, DoTurn(id))
    ensures Inv(Apply(w, DoTurn(id)))
  {
    hide Epochs, Tables, Guards, Retained, AllCompatible, Counts;
    var w1 := Apply(w, DoTurn(id));
    if Unpublishable(w.m, w.m.handles[id]) {
      Poisoned(w);
      KeepsHandleGone(w, w1, id);
    } else {
      SameLogCompatible(w, w1);
      SameTables(w, w1);
      TurnGuards(w, w1, id);
      CountsKept(w, w1);
    }
  }

  /** The epoch of a commit in progress is above the published one, so in its turn it is the next. */
  lemma TurnGuards(w: World, w1: World, id: TxId)
    requires Guards(w) && Tables(w) && id in w.m.handles && w.m.published + 1 >= w.m.handles[id]
    requires w1 == w.(m := w.m.(turn := Some(id)))
    ensures Guards(w1)
  {
  }

  lemma Poisoned(w: World)
    requires Guards(w) && w.m.unpublishable.Some?
    ensures w.m.poisoned
  {
  }

  lemma SameLogCompatible(w: World, w1: World)
    requires AllCompatible(w) && w1.log == w.log && w1.strayed == w.strayed
    ensures AllCompatible(w1)
  {
    hide Compatible;
  }

  /** A handle ends without a change of the tables. */
  lemma KeepsHandleGone(w: World, w1: World, id: TxId)
    requires Inv(w) && id in w.m.handles
    requires w1 == w.(m := HandleGone(w.m, id).(poisoned := true))
    ensures Inv(w1)
  {
    hide AllCompatible, Epochs, Tables, Guards, Retained, Counts;
    GoneFields(w, w1, id);
    hide HandleGone, Gone;
    SameLogCompatible(w, w1);
    SameTables(w, w1);
    HandleGoneGuards(w, w1, id);
    CountsKept(w, w1);
  }

  /** What goes with a handle: the lock and the turn if they were its commit's. */
  ghost predicate Gone(w: World, w1: World, id: TxId) {
    var m, m1 := w.m, w1.m;
    && m1.handles == m.handles - {id}
    && (m1.lock.Some? ==> m1.lock == m.lock && m.lock != Some(id))
    && (m1.turn.Some? ==> m1.turn == m.turn && m.turn != Some(id))
  }

  lemma GoneFields(w: World, w1: World, id: TxId)
    requires w1 == w.(m := HandleGone(w.m, id).(poisoned := true))
    ensures Gone(w, w1, id) && w1.m.poisoned
    ensures w1.log == w.log && w1.strayed == w.strayed && w1.takenBack == w.takenBack && w1.pins == w.pins
    ensures w1.m.txns == w.m.txns && w1.m.committed == w.m.committed && w1.m.nextId == w.m.nextId
    ensures w1.m.lastEpoch == w.m.lastEpoch && w1.m.published == w.m.published && w1.m.floor == w.m.floor
    ensures w1.m.active == w.m.active && w1.m.readers == w.m.readers
  {
  }

  lemma HandleGoneGuards(w: World, w1: World, id: TxId)
    requires Guards(w) && Gone(w, w1, id) && w1.m.poisoned
    requires w1.log == w.log && w1.m.txns == w.m.txns
    requires w1.m.lastEpoch == w.m.lastEpoch && w1.m.published == w.m.published
    ensures Guards(w1)
  {
  }

  /** Steps that leave transactions, commits and epochs alone. */
  lemma SameTables(w: World, w1: World)
    requires w1.log == w.log && w1.takenBack == w.takenBack && w1.strayed == w.strayed && w1.m.txns == w.m.txns
    requires w1.m.committed == w.m.committed && w1.m.nextId == w.m.nextId
    requires w1.m.lastEpoch == w.m.lastEpoch && w1.m.published == w.m.published
    requires Epochs(w) && Retained(w) && Tables(w)
    ensures Epochs(w1) && Retained(w1) && Tables(w1)
  {
    assert Epochs(w1) && Tables(w1) by { hide Taken, Retained; }
    hide Epochs, Tables;
    SameRetained(w, w1);
  }

  lemma SameRetained(w: World, w1: World)
    requires w1.log == w.log && w1.takenBack == w.takenBack && w1.strayed == w.strayed && w1.m.txns == w.m.txns
    requires w1.m.committed == w.m.committed && Retained(w)
    ensures Retained(w1)
  {
    hide Compatible;
  }

  lemma SameGuards(w: World, w1: World)
    requires Guards(w) && w1.log == w.log && w1.m.txns == w.m.txns && w1.m.handles == w.m.handles
    requires w1.m.lock == w.m.lock || w1.m.lock.None?
    requires w1.m.turn == w.m.turn && w1.m.published == w.m.published && w1.m.lastEpoch == w.m.lastEpoch
    requires w1.m.poisoned || (!w.m.poisoned && w1.m.unpublishable == w.m.unpublishable)
    ensures Guards(w1)
  {
  }

  ghost predicate Publishes(w: World, w1: World, id: TxId) {
    var m := w.m;
    && id in m.handles && id in m.txns && m.active > 0 && id in w.log
    && m.handles[id] == w.log[id].epoch == m.published + 1 <= m.lastEpoch
    && m.txns[id].phase == Committing && id in m.committed
    && w1 == w.(m := Publish(m, id))
  }

  /** The turn: a commit publishes when its epoch follows the published one. */
  lemma PublishTurn(w: World, id: TxId)
    requires Epochs(w) && Tables(w) && Guards(w) && Enabled(w, DoPublish(id))
    ensures Publishes(w, Apply(w, DoPublish(id)), id)
  {
  }

  lemma PublishEpochs(w: World, w1: World, id: TxId)
    requires Publishes(w, w1, id) && Epochs(w)
    ensures Epochs(w1)
  {
    hide Taken;
  }

  lemma PublishKnown(w: World, w1: World, id: TxId)
    requires Publishes(w, w1, id) && Known(w)
    ensures Known(w1)
  {
  }

  lemma PublishPlaced(w: World, w1: World, id: TxId)
    requires Publishes(w, w1, id) && Epochs(w) && Placed(w)
    ensures Placed(w1)
  {
    hide Taken;
  }

  lemma PublishGuards(w: World, w1: World, id: TxId)
    requires Publishes(w, w1, id) && Guards(w) && Epochs(w)
    ensures Guards(w1)
  {
    PublishFields(w, w1, id);
    TurnGoes(w, w1, id);
    hide Publishes, Publish, HandleGone, Epochs;
  }

  lemma PublishFields(w: World, w1: World, id: TxId)
    requires Publishes(w, w1, id)
    ensures Gone(w, w1, id) && w1.log == w.log && w1.m.lastEpoch == w.m.lastEpoch
    ensures w1.m.poisoned == w.m.poisoned && w1.m.unpublishable == w.m.unpublishable
    ensures forall t :: t in w1.m.txns && t != id ==> t in w.m.txns && w1.m.txns[t] == w.m.txns[t]
    ensures forall t :: t in w.m.txns && t != id ==> t in w1.m.txns
    ensures id in w1.m.txns ==> w1.m.txns[id].phase == Committed
  {
  }

  /** Only the holder of the turn publishes, and the turn goes with its handle. */
  lemma TurnGoes(w: World, w1: World, id: TxId)
    requires Publishes(w, w1, id) && Guards(w) && Epochs(w)
    ensures w1.m.turn.None?
  {
    hide Taken;
    if w.m.turn.Some? {
      assert w.log[w.m.turn.value].epoch == w.log[id].epoch;
    }
  }

  /** The claims of a private transaction are dropped at once only when no other is open. */
  lemma PublishRetained(w: World, w1: World, id: TxId)
    requires Publishes(w, w1, id) && Retained(w) && Counts(w)
    ensures Retained(w1)
  {
    hide Compatible;
    if w.m.active == 1 {
      assert id in OpenIds(w.m.txns);
      OnlyOne(OpenIds(w.m.txns), id);
      forall t | t in w.m.txns && w.m.txns[t].phase == Active ensures t == id {
        assert t in OpenIds(w.m.txns);
      }
    }
  }

  lemma OnlyOne(s: set<TxId>, x: TxId)
    requires |s| == 1 && x in s
    ensures s == {x}
  {
    assert |s - {x}| == 0;
  }

  lemma PublishCounts(w: World, w1: World, id: TxId)
    requires Publishes(w, w1, id) && Counts(w)
    ensures Counts(w1)
  {
    hide Counts;
    CountsEnded(w, w1, id);
  }

  // ---- ending without a commit, and collecting

  lemma KeepsAbort(w: World, id: TxId)
    requires Inv(w) && w.m.active > 0
    ensures Inv(Apply(w, DoAbort(id)))
  {
    hide Epochs, Tables, Guards, Retained, AllCompatible, Counts;
    var w1 := Apply(w, DoAbort(id));
    if CheckActive(w.m, id) == Done {
      AbortTables(w, w1, id);
      AbortRest(w, w1, id);
      AbortRetained(w, w1, id);
      SameLogCompatible(w, w1);
      AbortCounts(w, w1, id);
    }
  }

  ghost predicate Aborts(w: World, w1: World, id: TxId) {
    id in w.m.txns && w.m.txns[id].phase == Active && w.m.active > 0 && w1 == w.(m := Abort(w.m, id).0)
  }

  lemma AbortTables(w: World, w1: World, id: TxId)
    requires Aborts(w, w1, id) && Tables(w)
    ensures Tables(w1)
  {
  }

  lemma AbortRest(w: World, w1: World, id: TxId)
    requires Aborts(w, w1, id) && Epochs(w) && Guards(w)
    ensures Epochs(w1) && Guards(w1)
  {
    hide Taken;
  }

  lemma AbortRetained(w: World, w1: World, id: TxId)
    requires Aborts(w, w1, id) && Tables(w) && Retained(w)
    ensures Retained(w1)
  {
    hide Compatible;
  }

  lemma AbortCounts(w: World, w1: World, id: TxId)
    requires Aborts(w, w1, id) && Counts(w)
    ensures Counts(w1)
  {
    hide Counts;
    CountsEnded(w, w1, id);
  }

  lemma KeepsGc(w: World)
    requires Inv(w)
    ensures Inv(Apply(w, DoGc))
  {
    hide Epochs, Tables, Guards, Retained, AllCompatible, Counts;
    var w1 := Apply(w, DoGc);
    GcTables(w, w1);
    GcRest(w, w1);
    GcRetained(w, w1);
    SameLogCompatible(w, w1);
    GcCounts(w, w1);
  }

  lemma GcTables(w: World, w1: World)
    requires w1 == w.(m := Collect(w.m)) && Tables(w)
    ensures Tables(w1)
  {
  }

  lemma GcRest(w: World, w1: World)
    requires w1 == w.(m := Collect(w.m)) && Epochs(w) && Guards(w)
    ensures Epochs(w1) && Guards(w1)
  {
    hide Taken;
  }

  lemma GcRetained(w: World, w1: World)
    requires w1 == w.(m := Collect(w.m)) && Tables(w) && Retained(w)
    ensures Retained(w1)
  {
    hide Compatible;
    forall t, a | t in w1.m.txns && w1.m.txns[t].phase == Active && a in w1.log &&
                  w1.log[a].epoch > w1.m.txns[t].start
      ensures RetainedFor(w1, t, a)
    {
      assert RetainedFor(w, t, a);
    }
  }

  lemma GcCounts(w: World, w1: World)
    requires w1 == w.(m := Collect(w.m)) && Counts(w)
    ensures Counts(w1)
  {
    hide Counts;
    CountsKept(w, w1);
  }

  // ---- claims

  predicate Within(c: Claims, d: Claims) {
    c.writes <= d.writes && c.deletes <= d.deletes && c.endpoints <= d.endpoints && c.keys <= d.keys
  }

  /** Fewer claims clash with no more. */
  lemma ClashMonotone(c: Claims, d: Claims, other: Claims)
    requires Within(c, d) && Clash(c, other)
    ensures Clash(d, other)
  {
  }

  lemma {:induction false} RewindWithin(c: Claims, log: seq<Item>, mark: nat)
    requires mark <= |log|
    ensures Within(Rewind(c, log, mark), c)
    decreases |log|
  {
    if |log| > mark { RewindWithin(Remove(c, log[|log| - 1]), log[..|log| - 1], mark); }
  }

  lemma {:induction false} RecordAllKeeps(info: Info, items: seq<Item>)
    ensures var r := RecordAll(info, items);
            r.phase == info.phase && r.start == info.start && r.level == info.level
    decreases |items|
  {
    if items != [] { RecordAllKeeps(Record(info, items[0]), items[1..]); }
  }

  lemma KeepsClaims(w: World, step: Step)
    requires Inv(w)
    requires step.DoClaim? || step.DoKey? || step.DoRead?
    ensures Inv(Apply(w, step))
  {
    hide Inv, Clash, RecordAll, ItemsOf, Compatible;
    var m, id := w.m, step.id;
    var strayed := Strayed(w, id);
    if Apply(w, step).m == m {
      KeepsStrayed(w, strayed);
    } else {
      var info := m.txns[id];
      match step
      case DoClaim(_, kind, entities) =>
        RecordAllKeeps(info, ItemsOf(kind, entities));
        KeepsUpdate(w, id, RecordAll(info, ItemsOf(kind, entities)), strayed);
      case DoKey(_, key) => KeepsUpdate(w, id, Record(info, KeyOf(key)), strayed);
      case DoRead(_, e) => KeepsUpdate(w, id, info.(readSet := info.readSet + {e}), strayed);
    }
  }

  lemma KeepsStrayed(w: World, strayed: set<TxId>)
    requires Inv(w) && w.strayed <= strayed
    ensures Inv(w.(strayed := strayed))
  {
    hide Epochs, Tables, Guards, Retained, AllCompatible, Counts;
    var w1 := w.(strayed := strayed);
    StrayedRest(w, w1);
    StrayedAgree(w, w1);
    SameGuards(w, w1);
    CountsKept(w, w1);
  }

  lemma StrayedRest(w: World, w1: World)
    requires w1 == w.(strayed := w1.strayed) && Epochs(w) && Tables(w)
    ensures Epochs(w1) && Tables(w1)
  {
    hide Taken;
  }

  lemma StrayedAgree(w: World, w1: World)
    requires w1 == w.(strayed := w1.strayed) && w.strayed <= w1.strayed && Retained(w) && AllCompatible(w)
    ensures Retained(w1) && AllCompatible(w1)
  {
    hide Compatible;
    forall t, a | t in w1.m.txns && w1.m.txns[t].phase == Active && a in w1.log && w1.log[a].epoch > w1.m.txns[t].start
      ensures RetainedFor(w1, t, a)
    {
      assert RetainedFor(w, t, a);
    }
  }

  lemma KeepsSavepoints(w: World, step: Step)
    requires Inv(w) && (step.DoMark? || step.DoRestore?)
    ensures Inv(Apply(w, step))
  {
    hide Inv, Clash, Rewind;
    var m, id := w.m, step.id;
    if CheckActive(m, id) == Done {
      var info := m.txns[id];
      match step
      case DoMark(_) =>
        KeepsUpdate(w, id, info.(undo := if info.undo.Some? then info.undo else Some([])), w.strayed);
      case DoRestore(_, mark) =>
        if info.undo.Some? && mark <= |info.undo.value| {
          var claims := Rewind(info.claims, info.undo.value, mark);
          RewindWithin(info.claims, info.undo.value, mark);
          forall a | a in w.log && Clash(claims, w.log[a].claims) ensures Clash(info.claims, w.log[a].claims) {
            ClashMonotone(claims, info.claims, w.log[a].claims);
          }
          KeepsUpdate(w, id, info.(claims := claims, undo := Some(info.undo.value[..mark])), w.strayed);
        }
    }
  }

  // ---- readers and the floor

  lemma KeepsReaders(w: World, step: Step)
    requires Inv(w) && Enabled(w, step)
    requires step.DoPin? || step.DoPinAt? || step.DoUnpin?
    ensures Inv(Apply(w, step))
  {
    hide Epochs, Tables, Guards, Retained, AllCompatible, Counts;
    var w1 := Apply(w, step);
    SameLogCompatible(w, w1);
    SameTables(w, w1);
    SameGuards(w, w1);
    match step
    case DoPin => ReaderAdded(w, w1, w.m.published);
    case DoPinAt(epoch) =>
      if epoch >= w.m.floor { ReaderPinned(w, w1, epoch); }
    case DoUnpin(epoch) => ReaderGone(w, w1, epoch);
  }

  lemma KeepsCollect(w: World, horizon: Epoch, retention: Option<Epoch>)
    requires Inv(w) && IsHorizon(w.m, horizon)
    ensures Inv(w.(m := CollectAt(w.m, horizon, retention)))
  {
    hide Epochs, Tables, Guards, Retained, AllCompatible, Counts, IsHorizon;
    var w1 := w.(m := CollectAt(w.m, horizon, retention));
    SameLogCompatible(w, w1);
    SameTables(w, w1);
    SameGuards(w, w1);
    FloorRaised(w, w1, horizon);
  }

  lemma ReaderAdded(w: World, w1: World, e: Epoch)
    requires Counts(w) && (e == w.m.published || w.m.floor <= e <= w.m.published)
    requires w1 == w.(m := w.m.(readers := w.m.readers + multiset{e}), pins := w.pins + multiset{e})
    ensures Counts(w1)
  {
    hide OpenAt, OpenIds;
  }

  lemma ReaderPinned(w: World, w1: World, epoch: Epoch)
    requires Counts(w) && epoch >= w.m.floor
    requires w1 == w.(m := PinAt(w.m, epoch).0, pins := w.pins + multiset{ReadableEpoch(w.m, epoch)})
    ensures Counts(w1)
  {
    hide OpenAt, OpenIds;
    assert w.m.floor <= ReadableEpoch(w.m, epoch) <= w.m.published;
    hide Counts;
    ReaderAdded(w, w1, ReadableEpoch(w.m, epoch));
  }

  lemma ReaderGone(w: World, w1: World, e: Epoch)
    requires Counts(w) && e in w.pins
    requires w1 == w.(m := w.m.(readers := w.m.readers - multiset{e}), pins := w.pins - multiset{e})
    ensures Counts(w1)
  {
    hide OpenAt, OpenIds;
    assert w.m.readers[e] > 0;
  }

  lemma FloorRaised(w: World, w1: World, horizon: Epoch)
    requires Counts(w) && IsHorizon(w.m, horizon)
    requires w1 == w.(m := w.m.(floor := w1.m.floor)) && (w1.m.floor <= horizon || w1.m.floor == w.m.floor)
    ensures Counts(w1)
  {
    hide OpenAt, OpenIds;
  }

  /** Every step of the manager keeps the invariant. */
  lemma KeepsStep(w: World, step: Step)
    requires Inv(w) && Enabled(w, step)
    ensures Inv(Apply(w, step))
  {
    hide Inv;
    match step
    case DoBegin(level, private) => KeepsBegin(w, level, private);
    case DoClaim(_, _, _) => KeepsClaims(w, step);
    case DoKey(_, _) => KeepsClaims(w, step);
    case DoRead(_, _) => KeepsClaims(w, step);
    case DoMark(_) => KeepsSavepoints(w, step);
    case DoRestore(_, _) => KeepsSavepoints(w, step);
    case DoStart(id) => KeepsStart(w, id);
    case DoWritten(id) => KeepsFlags(w, step);
    case DoTakeBack(id) => KeepsTakeBack(w, id);
    case DoTurn(id) => KeepsTurn(w, id);
    case DoPublish(id) => KeepsPublish(w, id);
    case DoDrop(id) => KeepsHandleGone(w, Apply(w, step), id);
    case DoPoison => KeepsFlags(w, step);
    case DoBar(_) => KeepsFlags(w, step);
    case DoAbort(id) => KeepsAbort(w, id);
    case DoGc => KeepsGc(w);
    case DoPin => KeepsReaders(w, step);
    case DoPinAt(_) => KeepsReaders(w, step);
    case DoUnpin(_) => KeepsReaders(w, step);
    case DoCollect(horizon, retention) => KeepsCollect(w, horizon, retention);
    case DoClose => KeepsFlags(w, step);
  }

  lemma KeepsFlags(w: World, step: Step)
    requires Inv(w) && Enabled(w, step) && (step.DoWritten? || step.DoPoison? || step.DoBar? || step.DoClose?)
    ensures Inv(Apply(w, step))
  {
    hide Epochs, Tables, Guards, Retained, AllCompatible, Counts;
    var w1 := Apply(w, step);
    SameLogCompatible(w, w1);
    SameTables(w, w1);
    SameGuards(w, w1);
    CountsKept(w, w1);
  }
}
