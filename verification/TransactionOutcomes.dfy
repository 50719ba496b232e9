/** What each operation of the transaction manager answers and leaves behind, in every run: by the
    commits ever decided and the claims held, not by the manager's own checks. */
module TransactionOutcomes {
  import opened Options
  import opened Transactions
  import opened TransactionLaws
  import opened TransactionTheorems
  import opened TransactionClaims

  // ---- starting a commit

  /** Two sets of claims cannot both be committed unseen: both write an entity, one links to a node the
      other deletes, one deletes what the other writes, or they share a unique key value. */
  predicate Overlap(c: Claims, d: Claims) {
    || c.writes * d.writes != {}
    || c.endpoints * d.deletes != {}
    || c.deletes * (d.writes + d.endpoints) != {}
    || c.keys * d.keys != {}
  }

  lemma ClashIsOverlap(c: Claims, d: Claims)
    ensures Clash(c, d) <==> Overlap(c, d)
  {
    if exists e :: e in c.endpoints && Refuses(d, Endpoint, e) {
      var e :| e in c.endpoints && Refuses(d, Endpoint, e);
      assert e in c.endpoints * d.deletes;
    }
    if exists e :: e in c.deletes && Refuses(d, Delete, e) {
      var e :| e in c.deletes && Refuses(d, Delete, e);
      assert e in c.deletes * (d.writes + d.endpoints);
    }
    if c.endpoints * d.deletes != {} {
      var e :| e in c.endpoints * d.deletes;
      assert Refuses(d, Endpoint, e);
    }
    if c.deletes * (d.writes + d.endpoints) != {} {
      var e :| e in c.deletes * (d.writes + d.endpoints);
      assert Refuses(d, Delete, e);
    }
  }

  /** The commits a transaction is held against: every one decided since it began, or, if it strayed,
      those of them still in the tables. */
  predicate Against(w: World, id: TxId, a: TxId)
    requires id in w.m.txns
  {
    a in w.log && w.log[a].epoch > w.m.txns[id].start && (id in w.strayed ==> Remembered(w, a))
  }

  /** Its claims overlap those of such a commit. */
  ghost predicate Overlaps(w: World, id: TxId)
    requires id in w.m.txns
  {
    exists a :: Against(w, id, a) && Overlap(w.m.txns[id].claims, w.log[a].claims)
  }

  /** It is serializable and read what such a commit wrote. */
  ghost predicate Overread(w: World, id: TxId)
    requires id in w.m.txns
  {
    && w.m.txns[id].level == Serializable
    && exists a :: Against(w, id, a) && w.m.txns[id].readSet * w.log[a].claims.writes != {}
  }

  /** A commit held against an active transaction, and in conflict with it, is one start_commit checks. */
  lemma AgainstIsChecked(w: World, id: TxId, a: TxId)
    requires Inv(w) && id in w.m.txns && w.m.txns[id].phase == Active && Against(w, id, a)
    requires !Compatible(DecidedOf(w.m.txns[id], 0), w.log[a])
    ensures w.m.lastEpoch > w.m.txns[id].start && Checked(w.m, id, a) && w.m.txns[a].claims == w.log[a].claims
  {
    hide Clash, AllCompatible, Guards, Counts;
    assert RetainedFor(w, id, a);
  }

  lemma CheckedIsAgainst(w: World, id: TxId, a: TxId)
    requires Inv(w) && id in w.m.txns && Checked(w.m, id, a)
    ensures Against(w, id, a) && w.m.txns[a].claims == w.log[a].claims
  {
    hide Clash, AllCompatible, Guards, Counts, Retained;
  }

  lemma ClaimsFound(w: World, id: TxId)
    requires Inv(w) && id in w.m.txns && w.m.txns[id].phase == Active
    ensures ClaimConflict(w.m, id) <==> Overlaps(w, id)
  {
    hide Inv, Clash, Overlap;
    if ClaimConflict(w.m, id) {
      var a :| a in w.m.committed && Checked(w.m, id, a) && Clash(w.m.txns[id].claims, w.m.txns[a].claims);
      CheckedIsAgainst(w, id, a);
      ClashIsOverlap(w.m.txns[id].claims, w.m.txns[a].claims);
    }
    if Overlaps(w, id) {
      var a :| Against(w, id, a) && Overlap(w.m.txns[id].claims, w.log[a].claims);
      ClashIsOverlap(w.m.txns[id].claims, w.log[a].claims);
      Incompatible(w, id, a);
      AgainstIsChecked(w, id, a);
      CheckedCommitted(w.m, id, a);
    }
  }

  lemma Incompatible(w: World, id: TxId, a: TxId)
    requires id in w.m.txns && Against(w, id, a)
    requires Clash(w.m.txns[id].claims, w.log[a].claims) ||
             (w.m.txns[id].level == Serializable && w.m.txns[id].readSet * w.log[a].claims.writes != {})
    ensures !Compatible(DecidedOf(w.m.txns[id], 0), w.log[a])
  {
    hide Clash;
  }

  lemma CheckedCommitted(m: Manager, id: TxId, a: TxId)
    requires id in m.txns && Checked(m, id, a)
    ensures a in m.committed && a in m.txns
  {
  }

  lemma ReadsFound(w: World, id: TxId)
    requires Inv(w) && id in w.m.txns && w.m.txns[id].phase == Active
    ensures ReadConflict(w.m, id) <==> Overread(w, id)
  {
    hide Inv, Clash;
    if ReadConflict(w.m, id) {
      var a :| a in w.m.committed && Checked(w.m, id, a) && w.m.txns[id].readSet * w.m.txns[a].claims.writes != {};
      CheckedIsAgainst(w, id, a);
    }
    if Overread(w, id) {
      var a :| Against(w, id, a) && w.m.txns[id].readSet * w.log[a].claims.writes != {};
      Incompatible(w, id, a);
      AgainstIsChecked(w, id, a);
      CheckedCommitted(w.m, id, a);
    }
  }

  /** In every run, with the commit lock free: a commit goes through exactly when the manager is sound
      and open, the transaction active, and nothing it claims or read is opposed by a commit decided
      since it began. It then has the next epoch, is in progress at it, and holds the lock. */
  lemma {:induction false} CommitOutcome(steps: seq<Step>, id: TxId)
    requires Legal(START, steps) && Run(START, steps).m.lock.None?
    ensures var w := Run(START, steps);
            var (m1, outcome) := StartCommit(w.m, id);
            && outcome == (
              if w.m.poisoned then Incomplete
              else if w.m.closed then DatabaseClosed
              else if id !in w.m.txns then NotFound
              else if w.m.txns[id].phase != Active then NotActive
              else if Overlaps(w, id) then Conflict
              else if Overread(w, id) then SerializationFailure
              else Done)
            && m1 == (if outcome != Done || id !in w.m.txns then w.m else
                        var epoch := w.m.lastEpoch + 1;
                        w.m.(lastEpoch := epoch, lock := Some(id), handles := w.m.handles[id := epoch],
                             committed := w.m.committed[id := epoch],
                             txns := w.m.txns[id := w.m.txns[id].(phase := Committing)]))
  {
    hide Run, Legal, Inv, ClaimConflict, ReadConflict, Overlaps, Overread;
    Reachable(steps);
    var w := Run(START, steps);
    if id in w.m.txns && w.m.txns[id].phase == Active {
      ClaimsFound(w, id);
      ReadsFound(w, id);
    }
  }

  /** In every run, a commit that is started and taken back leaves the manager as it was. */
  lemma {:induction false} TakeBackUndoes(steps: seq<Step>, id: TxId)
    requires Legal(START, steps) && Run(START, steps).m.lock.None?
    requires StartCommit(Run(START, steps).m, id).1 == Done
    ensures var m := Run(START, steps).m;
            var m1 := StartCommit(m, id).0;
            && m1.lock == Some(id) && id in m1.handles && id in m1.txns && m1.handles[id] > 0
            && TakeBack(m1, id) == m
  {
    hide Run, Legal, AllCompatible, Retained, Counts, Epochs;
    Reachable(steps);
    var w := Run(START, steps);
    StartEffect(w.m, id);
    hide StartCommit;
    var m1 := StartCommit(w.m, id).0;
    var m2 := TakeBack(m1, id);
    assert id !in w.m.handles && id !in w.m.committed;
    assert m2.handles == w.m.handles && m2.committed == w.m.committed && m2.txns == w.m.txns;
  }

  // ---- claims

  /** A claim that is in the way: of a write, another write; of the delete of a node, a write of it or a
      link to it; of a link, the delete of its node. */
  predicate InTheWay(held: Claims, kind: ClaimKind, e: Entity) {
    match kind
    case Write => e in held.writes
    case Delete => e in held.writes + held.endpoints
    case Endpoint => e in held.deletes
  }

  predicate AnyInTheWay(held: Claims, kind: ClaimKind, entities: seq<Entity>) {
    exists e :: e in entities && InTheWay(held, kind, e)
  }

  /** Some other open transaction holds a claim that is in the way. */
  ghost predicate Blocked(m: Manager, id: TxId, kind: ClaimKind, entities: seq<Entity>) {
    exists other :: other in m.txns && other != id && Open(m.txns[other].phase) &&
                    AnyInTheWay(m.txns[other].claims, kind, entities)
  }

  lemma InTheWayIsRefused(held: Claims, kind: ClaimKind, entities: seq<Entity>)
    ensures AnyInTheWay(held, kind, entities) <==> RefusesAny(held, kind, entities)
  {
    if RefusesAny(held, kind, entities) {
      var i :| 0 <= i < |entities| && Refuses(held, kind, entities[i]);
      assert InTheWay(held, kind, entities[i]);
    }
    if AnyInTheWay(held, kind, entities) {
      var e :| e in entities && InTheWay(held, kind, e);
      var i :| 0 <= i < |entities| && entities[i] == e;
      assert Refuses(held, kind, entities[i]);
    }
  }

  lemma BlockedIsRefused(m: Manager, id: TxId, kind: ClaimKind, entities: seq<Entity>)
    ensures Blocked(m, id, kind, entities) <==>
            exists other :: other in m.txns && other != id && Open(m.txns[other].phase) &&
                            RefusesAny(m.txns[other].claims, kind, entities)
  {
    hide AnyInTheWay, RefusesAny;
    forall other | other in m.txns
      ensures AnyInTheWay(m.txns[other].claims, kind, entities) <==> RefusesAny(m.txns[other].claims, kind, entities)
    {
      InTheWayIsRefused(m.txns[other].claims, kind, entities);
    }
  }

  function Among(entities: seq<Entity>): set<Entity> {
    set i | 0 <= i < |entities| :: entities[i]
  }

  /** The claims with those of a kind on the entities added: a delete is a write too. */
  function Claimed(c: Claims, kind: ClaimKind, entities: seq<Entity>): Claims {
    var e := Among(entities);
    match kind
    case Write => c.(writes := c.writes + e)
    case Delete => c.(writes := c.writes + e, deletes := c.deletes + e)
    case Endpoint => c.(endpoints := c.endpoints + e)
  }

  /** Nothing of a transaction changes but its claims, and its savepoint log only grows. */
  predicate OnlyClaims(info: Info, info1: Info) {
    && info1 == info.(claims := info1.claims, undo := info1.undo)
    && info.undo.Some? == info1.undo.Some?
    && (info.undo.Some? ==> info.undo.value <= info1.undo.value)
  }

  lemma {:induction false} RecordedClaims(info: Info, kind: ClaimKind, entities: seq<Entity>)
    ensures var info1 := RecordAll(info, ItemsOf(kind, entities));
            info1.claims == Claimed(info.claims, kind, entities) && OnlyClaims(info, info1)
    decreases |entities|
  {
    if entities == [] {
      assert Among(entities) == {};
    } else {
      var e, rest := entities[0], entities[1..];
      var info1 := RecordAll(info, EntityItems(kind, e));
      RecordedOne(info, kind, e);
      RecordedClaims(info1, kind, rest);
      RecordConcat(info, EntityItems(kind, e), ItemsOf(kind, rest));
      AmongMore(entities);
      hide RecordAll, ItemsOf, EntityItems, Among;
    }
  }

  lemma AmongMore(entities: seq<Entity>)
    requires entities != []
    ensures Among(entities) == {entities[0]} + Among(entities[1..])
  {
    forall x | x in Among(entities) ensures x == entities[0] || x in Among(entities[1..]) {
      var i :| 0 <= i < |entities| && entities[i] == x;
      if i > 0 { assert entities[1..][i - 1] == x; }
    }
    forall x | x in Among(entities[1..]) ensures x in Among(entities) {
      var i :| 0 <= i < |entities[1..]| && entities[1..][i] == x;
      assert entities[i + 1] == x;
    }
    assert entities[0] in Among(entities);
  }

  lemma RecordedOne(info: Info, kind: ClaimKind, e: Entity)
    ensures var info1 := RecordAll(info, EntityItems(kind, e));
            && OnlyClaims(info, info1)
            && info1.claims == (match kind
                                case Write => info.claims.(writes := info.claims.writes + {e})
                                case Delete => info.claims.(writes := info.claims.writes + {e},
                                                            deletes := info.claims.deletes + {e})
                                case Endpoint => info.claims.(endpoints := info.claims.endpoints + {e}))
  {
    var items := EntityItems(kind, e);
    if kind == Delete {
      var info1 := Record(info, WriteOf(e));
      assert items[1..] == [DeleteOf(e)] && [DeleteOf(e)][1..] == [];
      assert RecordAll(info1, [DeleteOf(e)]) == Record(info1, DeleteOf(e));
      RecordedItem(info, WriteOf(e));
      RecordedItem(info1, DeleteOf(e));
    } else {
      assert items[1..] == [];
      RecordedItem(info, items[0]);
    }
    hide Record;
  }

  lemma RecordedItem(info: Info, item: Item)
    ensures OnlyClaims(info, Record(info, item)) && Record(info, item).claims == Add(info.claims, item)
  {
    if Holds(info.claims, item) {
      match item
      case WriteOf(e) => assert info.claims.writes + {e} == info.claims.writes;
      case DeleteOf(e) => assert info.claims.deletes + {e} == info.claims.deletes;
      case EndpointOf(e) => assert info.claims.endpoints + {e} == info.claims.endpoints;
      case KeyOf(k) => assert info.claims.keys + {k} == info.claims.keys;
    }
  }

  /** The manager with one active transaction's claims changed, or as it was. */
  predicate ClaimsOf(m: Manager, m1: Manager, id: TxId, claims: Claims)
    requires id in m.txns
  {
    && m1 == m.(txns := m1.txns) && m1.txns.Keys == m.txns.Keys
    && (forall t :: t in m.txns && t != id ==> m1.txns[t] == m.txns[t])
    && m1.txns[id].claims == claims && OnlyClaims(m.txns[id], m1.txns[id])
  }

  /** In every run, a claim of an active transaction is refused exactly when another open transaction's
      claims block it, and otherwise adds exactly the entities; nothing else ever changes. */
  lemma {:induction false} ClaimOutcome(steps: seq<Step>, id: TxId, kind: ClaimKind, entities: seq<Entity>)
    requires Legal(START, steps)
    ensures var m := Run(START, steps).m;
            var (m1, outcome) := RecordClaims(m, id, kind, entities);
            && (m.poisoned ==> outcome == Incomplete)
            && (!m.poisoned && CheckActive(m, id) == Done ==>
                  outcome == if Blocked(m, id, kind, entities) then Conflict else Done)
            && (CheckActive(m, id) != Done ==> outcome != Done)
            && (outcome == Done ==> id in m.txns && ClaimsOf(m, m1, id, Claimed(m.txns[id].claims, kind, entities)))
            && (outcome != Done ==> m1 == m)
  {
    var m := Run(START, steps).m;
    hide Run, Legal, RefusesAny, RecordAll, ItemsOf, Blocked, Claimed, Among;
    if !m.poisoned && CheckActive(m, id) == Done {
      ClaimRefusedExactly(steps, id, kind, entities);
      BlockedIsRefused(m, id, kind, entities);
    }
    if id in m.txns { RecordedClaims(m.txns[id], kind, entities); }
  }

  /** The same for a unique key value. */
  lemma {:induction false} KeyOutcome(steps: seq<Step>, id: TxId, key: Key)
    requires Legal(START, steps)
    ensures var m := Run(START, steps).m;
            var (m1, outcome) := RecordKey(m, id, key);
            && (m.poisoned ==> outcome == Incomplete)
            && (!m.poisoned && CheckActive(m, id) == Done ==>
                  outcome == if exists other :: other in m.txns && other != id && Open(m.txns[other].phase) &&
                                                key in m.txns[other].claims.keys
                             then Conflict else Done)
            && (CheckActive(m, id) != Done ==> outcome != Done)
            && (outcome == Done ==>
                  && id in m.txns
                  && var c := m.txns[id].claims; ClaimsOf(m, m1, id, c.(keys := c.keys + {key})))
            && (outcome != Done ==> m1 == m)
  {
    hide Run, Legal, Epochs, Tables, Guards, Retained, AllCompatible, Counts, Record;
    Reachable(steps);
    var w := Run(START, steps);
    if w.m.active <= 1 && CheckActive(w.m, id) == Done {
      forall other | other in w.m.txns && Open(w.m.txns[other].phase) ensures other == id {
        NoOtherOpen(w, id, other);
      }
    }
    if id in w.m.txns { RecordedItem(w.m.txns[id], KeyOf(key)); }
  }

  /** A read is recorded for an active transaction, and nothing else changes. */
  lemma ReadOutcome(m: Manager, id: TxId, e: Entity)
    ensures var (m1, outcome) := RecordRead(m, id, e);
            && (outcome == Done <==> id in m.txns && m.txns[id].phase == Active)
            && (outcome != Done ==> m1 == m)
            && (outcome == Done ==>
                  && m1 == m.(txns := m1.txns) && m1.txns.Keys == m.txns.Keys
                  && (forall t :: t in m.txns && t != id ==> m1.txns[t] == m.txns[t])
                  && m1.txns[id] == m.txns[id].(readSet := m1.txns[id].readSet)
                  && forall x :: x in m1.txns[id].readSet <==> x in m.txns[id].readSet || x == e)
  {
  }

  // ---- savepoints

  /** The transaction is as it was at a savepoint once its log is rewound to the mark, while it is open. */
  ghost predicate Saved(w: World, id: TxId, mark: nat, claims: Claims) {
    && id < w.m.nextId
    && (id in w.m.txns && Open(w.m.txns[id].phase) ==>
          && w.m.txns[id].undo.Some? && mark <= |w.m.txns[id].undo.value|
          && Rewind(w.m.txns[id].claims, w.m.txns[id].undo.value, mark) == claims)
  }

  predicate AtLeast(step: Step, id: TxId, mark: nat) {
    step.DoRestore? && step.id == id ==> step.mark >= mark
  }

  lemma {:induction false} RecordAllRewinds(info: Info, items: seq<Item>, mark: nat)
    requires info.undo.Some? && mark <= |info.undo.value|
    ensures var r := RecordAll(info, items);
            r.undo.Some? && mark <= |r.undo.value| &&
            Rewind(r.claims, r.undo.value, mark) == Rewind(info.claims, info.undo.value, mark)
    decreases |items|
  {
    hide Rewind, Record;
    if items != [] {
      RecordRewinds(info, items[0], mark);
      RecordAllRewinds(Record(info, items[0]), items[1..], mark);
    }
  }

  lemma OwnClaimSaved(w: World, id: TxId, mark: nat, claims: Claims, kind: ClaimKind, entities: seq<Entity>)
    requires Saved(w, id, mark, claims)
    ensures Saved(Apply(w, DoClaim(id, kind, entities)), id, mark, claims)
  {
    hide RecordAll, ItemsOf, Rewind, RefusesAny, Record;
    if id in w.m.txns && w.m.txns[id].phase == Active {
      RecordAllKeeps(w.m.txns[id], ItemsOf(kind, entities));
      RecordAllRewinds(w.m.txns[id], ItemsOf(kind, entities), mark);
    }
  }

  lemma OwnRestoreSaved(w: World, id: TxId, mark: nat, claims: Claims, inner: nat)
    requires Saved(w, id, mark, claims) && inner >= mark
    ensures Saved(Apply(w, DoRestore(id, inner)), id, mark, claims)
  {
    hide Rewind;
    if id in w.m.txns && w.m.txns[id].phase == Active {
      var info := w.m.txns[id];
      if inner <= |info.undo.value| { RewindTwice(info.claims, info.undo.value, inner, mark); }
    }
  }

  /** Its own claims, marks and rollbacks to marks no lower keep what the log is rewound to. */
  lemma OwnStepSaved(w: World, id: TxId, mark: nat, claims: Claims, step: Step)
    requires Saved(w, id, mark, claims) && ClaimStep(step) && step.id == id && AtLeast(step, id, mark)
    ensures Saved(Apply(w, step), id, mark, claims)
  {
    match step
    case DoClaim(_, kind, entities) => OwnClaimSaved(w, id, mark, claims, kind, entities);
    case DoRestore(_, inner) => OwnRestoreSaved(w, id, mark, claims, inner);
    case DoKey(_, key) =>
      hide Rewind, Record;
      if id in w.m.txns && w.m.txns[id].phase == Active { RecordRewinds(w.m.txns[id], KeyOf(key), mark); }
    case _ => hide Rewind;
  }

  lemma OtherClaimSaved(w: World, id: TxId, mark: nat, claims: Claims, step: Step)
    requires Saved(w, id, mark, claims) && ClaimStep(step) && step.id != id
    ensures Saved(Apply(w, step), id, mark, claims)
  {
    ClaimStepTouches(w, step);
    hide Apply, Rewind;
  }

  /** What other steps leave of a transaction: if it is open after, it was before, with the same claims. */
  ghost predicate Left(w: World, w1: World, id: TxId) {
    && w.m.nextId <= w1.m.nextId
    && (id < w.m.nextId && id in w1.m.txns && Open(w1.m.txns[id].phase) ==>
          && id in w.m.txns && Open(w.m.txns[id].phase)
          && w1.m.txns[id].claims == w.m.txns[id].claims && w1.m.txns[id].undo == w.m.txns[id].undo)
  }

  lemma StepLeaves(w: World, id: TxId, step: Step)
    requires Inv(w) && Enabled(w, step) && !ClaimStep(step)
    ensures Left(w, Apply(w, step), id)
  {
    hide Retained, AllCompatible, Counts, Epochs, Tables, Left, Apply, Enabled;
    if step.DoStart? {
      StartLeaves(w, id, step.id);
    } else if step.DoTakeBack? || step.DoTurn? || step.DoPublish? || step.DoDrop? {
      HandlesLeave(w, id, step);
    } else if step.DoGc? {
      GcLeaves(w, id);
    } else {
      RestLeaves(w, id, step);
    }
  }

  lemma StartLeaves(w: World, id: TxId, other: TxId)
    requires Enabled(w, DoStart(other))
    ensures Left(w, Apply(w, DoStart(other)), id)
  {
    StartEffect(w.m, other);
    hide StartCommit;
  }

  lemma SameLeaves(w: World, w1: World, id: TxId)
    requires w1.m.txns == w.m.txns && w1.m.nextId == w.m.nextId
    ensures Left(w, w1, id)
  {
  }

  lemma PublishLeaves(w: World, id: TxId, other: TxId)
    requires Guards(w) && Enabled(w, DoPublish(other))
    ensures Left(w, Apply(w, DoPublish(other)), id)
  {
  }

  lemma TakeBackLeaves(w: World, id: TxId, other: TxId)
    requires Guards(w) && Enabled(w, DoTakeBack(other))
    ensures Left(w, Apply(w, DoTakeBack(other)), id)
  {
  }

  lemma GoneSame(m: Manager, id: TxId)
    ensures HandleGone(m, id).txns == m.txns && HandleGone(m, id).nextId == m.nextId
  {
  }

  lemma HandlesLeave(w: World, id: TxId, step: Step)
    requires Guards(w) && Enabled(w, step) && (step.DoTakeBack? || step.DoTurn? || step.DoPublish? || step.DoDrop?)
    ensures Left(w, Apply(w, step), id)
  {
    if step.DoTakeBack? {
      TakeBackLeaves(w, id, step.id);
    } else if step.DoPublish? {
      PublishLeaves(w, id, step.id);
    } else {
      GoneSame(w.m, step.id);
      hide HandleGone, Guards, Left;
      SameLeaves(w, Apply(w, step), id);
    }
  }

  lemma GcLeaves(w: World, id: TxId)
    ensures Left(w, Apply(w, DoGc), id)
  {
    hide Collectable;
  }

  lemma BeginLeaves(w: World, id: TxId, level: Level, private: bool)
    ensures Left(w, Apply(w, DoBegin(level, private)), id)
  {
  }

  lemma AbortLeaves(w: World, id: TxId, other: TxId)
    requires Enabled(w, DoAbort(other))
    ensures Left(w, Apply(w, DoAbort(other)), id)
  {
  }

  /** The flags, the readers and the floor are apart from the transactions. */
  lemma ApartFromTables(m: Manager, id: TxId, epoch: Epoch, horizon: Epoch, retention: Option<Epoch>)
    ensures m.lock == Some(id) ==> SameTables(m, Written(m, id))
    ensures m.lock.None? ==> SameTables(m, Close(m))
    ensures IsHorizon(m, horizon) ==> SameTables(m, CollectAt(m, horizon, retention))
    ensures SameTables(m, Poison(m)) && SameTables(m, Bar(m, epoch)) && SameTables(m, Pin(m))
    ensures SameTables(m, PinAt(m, epoch).0) && SameTables(m, Unpin(m, epoch)) && SameTables(m, m)
  {
    hide IsHorizon;
  }

  predicate SameTables(m: Manager, m1: Manager) {
    m1.txns == m.txns && m1.nextId == m.nextId
  }

  lemma FlagsLeave(w: World, id: TxId, step: Step)
    requires OtherStep(step) && !step.DoBegin? && !step.DoAbort? && Enabled(w, step)
    ensures SameTables(w.m, Apply(w, step).m)
  {
    hide SameTables, IsHorizon, DroppedAt, Written, Close, CollectAt, Poison, Bar, Pin, PinAt, Unpin;
    match step
    case DoWritten(id) => ApartFromTables(w.m, id, 0, 0, None);
    case DoClose => ApartFromTables(w.m, 0, 0, 0, None);
    case DoPoison => ApartFromTables(w.m, 0, 0, 0, None);
    case DoBar(epoch) => ApartFromTables(w.m, 0, epoch, 0, None);
    case DoPin => ApartFromTables(w.m, 0, 0, 0, None);
    case DoPinAt(epoch) => ApartFromTables(w.m, 0, epoch, 0, None);
    case DoUnpin(epoch) => ApartFromTables(w.m, 0, epoch, 0, None);
    case DoCollect(horizon, retention) => ApartFromTables(w.m, 0, 0, horizon, retention);
  }

  lemma RestLeaves(w: World, id: TxId, step: Step)
    requires OtherStep(step) && Enabled(w, step)
    ensures Left(w, Apply(w, step), id)
  {
    hide Enabled, Apply, Left;
    if step.DoBegin? {
      BeginLeaves(w, id, step.level, step.private);
    } else if step.DoAbort? {
      AbortLeaves(w, id, step.id);
    } else {
      FlagsLeave(w, id, step);
      SameLeaves(w, Apply(w, step), id);
    }
  }

  lemma {:induction false} RunSaved(w: World, id: TxId, mark: nat, claims: Claims, more: seq<Step>)
    requires Inv(w) && Saved(w, id, mark, claims) && Legal(w, more)
    requires forall i :: 0 <= i < |more| ==> AtLeast(more[i], id, mark)
    ensures Saved(Run(w, more), id, mark, claims)
    decreases |more|
  {
    hide Inv, Enabled, Apply, Saved;
    if more != [] {
      var step := more[0];
      assert AtLeast(step, id, mark);
      if ClaimStep(step) {
        if step.id == id { OwnStepSaved(w, id, mark, claims, step); }
        else { OtherClaimSaved(w, id, mark, claims, step); }
      } else {
        StepLeaves(w, id, step);
        LeftSaved(w, Apply(w, step), id, mark, claims);
      }
      KeepsStep(w, step);
      forall i | 0 <= i < |more[1..]| ensures AtLeast(more[1..][i], id, mark) {
        assert more[1..][i] == more[i + 1];
      }
      RunSaved(Apply(w, step), id, mark, claims, more[1..]);
    }
  }

  lemma LeftSaved(w: World, w1: World, id: TxId, mark: nat, claims: Claims)
    requires Saved(w, id, mark, claims) && Left(w, w1, id)
    ensures Saved(w1, id, mark, claims)
  {
    hide Rewind;
  }

  /** The rollback succeeds, leaves the transaction exactly these claims and a log as long as the mark,
      and changes nothing else. */
  predicate RolledBackTo(m: Manager, id: TxId, mark: nat, claims: Claims)
    requires id in m.txns
  {
    var (m1, outcome) := RestoreClaims(m, id, mark);
    && outcome == Done && m1 == m.(txns := m1.txns) && m1.txns.Keys == m.txns.Keys
    && (forall t :: t in m.txns && t != id ==> m1.txns[t] == m.txns[t])
    && m1.txns[id].claims == claims && m1.txns[id].undo.Some? && |m1.txns[id].undo.value| == mark
    && m1.txns[id] == m.txns[id].(claims := m1.txns[id].claims, undo := m1.txns[id].undo)
  }

  lemma SavedRollsBack(w: World, id: TxId, mark: nat, claims: Claims)
    requires Saved(w, id, mark, claims) && id in w.m.txns && w.m.txns[id].phase == Active
    ensures RolledBackTo(w.m, id, mark, claims)
  {
    hide Rewind;
  }

  /** Setting a savepoint changes no claim, and the log then ends at it. */
  lemma MarkSaves(w: World, id: TxId)
    requires Inv(w) && MarkClaims(w.m, id).1 == Done
    ensures var w1 := Apply(w, DoMark(id));
            && Inv(w1) && id in w.m.txns && id in w1.m.txns && w1.m.txns[id].undo.Some?
            && w1.m.txns[id].claims == w.m.txns[id].claims
            && Saved(w1, id, |w1.m.txns[id].undo.value|, w1.m.txns[id].claims)
  {
    KeepsSavepoints(w, DoMark(id));
    NewId(w, id);
    hide Inv, MarkClaims, Rewind;
    MarkKeeps(w.m, id);
    NothingRewound(w.m.txns[id].claims, MarkClaims(w.m, id).0.txns[id].undo.value);
  }

  lemma MarkKeeps(m: Manager, id: TxId)
    requires MarkClaims(m, id).1 == Done
    ensures var m1 := MarkClaims(m, id).0;
            && id in m.txns && id in m1.txns && m1.nextId == m.nextId && m1.txns[id].undo.Some?
            && m1.txns[id].claims == m.txns[id].claims
  {
  }

  lemma NothingRewound(c: Claims, log: seq<Item>)
    ensures Rewind(c, log, |log|) == c
  {
  }

  /** In every run: after a savepoint is set, whatever the transaction claims, marks and rolls back to
      marks no lower, and whatever all others do, rolling back to the savepoint while the transaction is
      active restores exactly the claims it held when the savepoint was set. */
  lemma {:induction false} SavepointRestored(steps: seq<Step>, id: TxId, mark: nat, more: seq<Step>)
    requires Legal(START, steps) && MarkClaims(Run(START, steps).m, id).1 == Done
    requires var w := Apply(Run(START, steps), DoMark(id));
             && id in w.m.txns && w.m.txns[id].undo.Some? && mark == |w.m.txns[id].undo.value|
             && Legal(w, more) && (forall i :: 0 <= i < |more| ==> AtLeast(more[i], id, mark))
             && id in Run(w, more).m.txns && Run(w, more).m.txns[id].phase == Active
    ensures var w := Run(START, steps);
            id in w.m.txns && RolledBackTo(Run(Apply(w, DoMark(id)), more).m, id, mark, w.m.txns[id].claims)
  {
    hide Run, Legal, Inv, Apply, RestoreClaims, MarkClaims, Saved, RolledBackTo, AtLeast;
    Reachable(steps);
    var w0 := Run(START, steps);
    MarkSaves(w0, id);
    var w := Apply(w0, DoMark(id));
    RunSaved(w, id, mark, w.m.txns[id].claims, more);
    SavedRollsBack(Run(w, more), id, mark, w.m.txns[id].claims);
  }

  lemma NewId(w: World, id: TxId)
    requires Inv(w) && id in w.m.txns
    ensures id < w.m.nextId
  {
    hide Retained, AllCompatible, Counts, Epochs, Guards;
  }

  /** A savepoint can be set exactly in an active transaction, and a rollback is refused exactly outside
      one, or to a mark past the log of claims made since the first savepoint. */
  lemma SavepointOutcomes(m: Manager, id: TxId, mark: nat)
    ensures MarkClaims(m, id).1 == Done <==> id in m.txns && m.txns[id].phase == Active
    ensures MarkClaims(m, id).1 != Done ==> MarkClaims(m, id).0 == m
    ensures MarkClaims(m, id).1 == Done ==> ClaimsOf(m, MarkClaims(m, id).0.(
              txns := MarkClaims(m, id).0.txns[id := m.txns[id]]), id, m.txns[id].claims)
    ensures RestoreClaims(m, id, mark).1 == Done <==>
            && id in m.txns && m.txns[id].phase == Active
            && m.txns[id].undo.Some? && mark <= |m.txns[id].undo.value|
    ensures RestoreClaims(m, id, mark).1 != Done ==> RestoreClaims(m, id, mark).0 == m
  {
    hide Rewind;
  }

  // ---- beginning and ending

  /** In every run, a transaction that begins is new, at the level asked for, without claims, and reads
      at an epoch below which exactly the complete commits lie. */
  lemma {:induction false} BeginOutcome(steps: seq<Step>, level: Level, private: bool)
    requires Legal(START, steps)
    ensures var w := Run(START, steps);
            var (m1, outcome) := Begin(w.m, level, private);
            && (outcome == DatabaseClosed <==> private && w.m.closed)
            && (outcome != DatabaseClosed ==> outcome == Done)
            && (outcome != Done ==> m1 == w.m)
            && (outcome == Done ==>
                  var id := w.m.nextId;
                  && id !in w.m.txns && id !in w.log && m1.txns.Keys == w.m.txns.Keys + {id}
                  && (forall t :: t in w.m.txns ==> m1.txns[t] == w.m.txns[t])
                  && m1.txns[id].phase == Active && m1.txns[id].level == level && m1.txns[id].private == private
                  && m1.txns[id].claims == NO_CLAIMS && m1.txns[id].readSet == {} && m1.txns[id].undo.None?
                  && m1 == w.m.(nextId := id + 1, txns := m1.txns, active := w.m.active + 1,
                                readers := w.m.readers + multiset{m1.txns[id].start})
                  && (forall a :: a in w.log ==>
                        (w.log[a].epoch <= m1.txns[id].start <==>
                         !(a in w.m.txns && w.m.txns[a].phase == Committing))))
  {
    hide Run, Legal, Retained, AllCompatible, Counts, Guards;
    Reachable(steps);
    hide Taken;
  }

  /** In every run, an active transaction can be aborted, and only such a one: its claims then stand in
      nobody's way, its snapshot holds nothing back, and no commit of it is known. */
  lemma {:induction false} AbortOutcome(steps: seq<Step>, id: TxId)
    requires Legal(START, steps) && Run(START, steps).m.active > 0
    ensures var w := Run(START, steps);
            var (m1, outcome) := Abort(w.m, id);
            && (outcome == Done <==> id in w.m.txns && w.m.txns[id].phase == Active)
            && (outcome != Done ==> m1 == w.m)
            && (outcome == Done ==>
                  && id !in w.log && !Open(if id in m1.txns then m1.txns[id].phase else Aborted)
                  && (id in m1.txns <==> !w.m.txns[id].private) && m1.txns.Keys + {id} == w.m.txns.Keys
                  && (forall t :: t in m1.txns && t != id ==> m1.txns[t] == w.m.txns[t])
                  && m1 == w.m.(txns := m1.txns, active := w.m.active - 1,
                                readers := w.m.readers - multiset{w.m.txns[id].start}))
  {
    hide Run, Legal, Retained, AllCompatible, Counts, Guards, Epochs;
    Reachable(steps);
  }

  /** The commit is published: its epoch is the published one, its snapshot holds nothing back any more,
      and its claims are kept for later checks unless it was private and alone. */
  ghost predicate PublishedAs(w: World, id: TxId, m1: Manager) {
    && id in w.log && id in w.m.txns
    && m1.published == w.log[id].epoch == w.m.published + 1
    && m1.turn.None? && m1.handles == w.m.handles - {id}
    && m1.active == w.m.active - 1 && m1.readers == w.m.readers - multiset{w.log[id].start}
    && (id !in m1.txns <==> w.m.txns[id].private && OpenIds(w.m.txns) == {id})
    && KeptCommits(w, id, m1)
  }

  /** Every other transaction is as it was, and so is its commit's epoch. */
  ghost predicate KeptCommits(w: World, id: TxId, m1: Manager)
    requires id in w.log
  {
    && (id in m1.txns ==> m1.txns[id].phase == Committed && m1.txns[id].claims == w.log[id].claims)
    && (id in m1.txns <==> id in m1.committed) && m1.txns.Keys + {id} == w.m.txns.Keys
    && (forall t :: t in m1.txns && t != id ==> m1.txns[t] == w.m.txns[t])
    && (forall t :: t != id ==> (t in m1.committed <==> t in w.m.committed))
    && (forall t :: t in m1.committed ==> t in w.m.committed && m1.committed[t] == w.m.committed[t])
  }

  /** In every run, what the holder of the turn publishes is published as just said. */
  lemma {:induction false} PublishOutcome(steps: seq<Step>, id: TxId)
    requires Legal(START, steps) && Enabled(Run(START, steps), DoPublish(id))
    ensures PublishedAs(Run(START, steps), id, Publish(Run(START, steps).m, id))
  {
    Reachable(steps);
    var w := Run(START, steps);
    hide Run, Legal, Inv, PublishedAs, Publish;
    PublishedFields(w, id);
  }

  lemma PublishedFields(w: World, id: TxId)
    requires Inv(w) && Enabled(w, DoPublish(id))
    ensures PublishedAs(w, id, Publish(w.m, id))
  {
    var w1 := Apply(w, DoPublish(id));
    PublishTurn(w, id);
    hide Retained, AllCompatible, Taken, KeptCommits, OpenIds, Publish;
    PublishKept(w, id);
    AloneIsOne(w, id);
    TurnGoes(w, w1, id);
    PublishValues(w.m, id);
    StartsAlike(w, id);
    hide Counts, Epochs, Tables, Guards;
  }

  lemma StartsAlike(w: World, id: TxId)
    requires Tables(w) && id in w.log && id in w.m.txns && w.m.txns[id].phase == Committing
    ensures w.m.txns[id].start == w.log[id].start
  {
  }

  lemma PublishValues(m: Manager, id: TxId)
    requires id in m.handles && id in m.txns && m.active > 0
    ensures var m1 := Publish(m, id);
            && m1.published == (if m.handles[id] > m.published then m.handles[id] else m.published)
            && m1.turn == (if m.turn == Some(id) then None else m.turn) && m1.handles == m.handles - {id}
            && m1.active == m.active - 1 && m1.readers == m.readers - multiset{m.txns[id].start}
            && (id !in m1.txns <==> m.txns[id].private && m.active == 1)
  {
  }

  lemma AloneIsOne(w: World, id: TxId)
    requires Counts(w) && id in w.m.txns && Open(w.m.txns[id].phase)
    ensures w.m.active == 1 <==> OpenIds(w.m.txns) == {id}
  {
    assert id in OpenIds(w.m.txns);
    if w.m.active == 1 { OnlyOne(OpenIds(w.m.txns), id); }
  }

  lemma PublishKept(w: World, id: TxId)
    requires Tables(w) && Enabled(w, DoPublish(id)) && id in w.log && w.m.txns[id].phase == Committing
    ensures KeptCommits(w, id, Publish(w.m, id))
  {
  }

  /** In every run, gc takes exactly the aborted transactions and the commits every active transaction
      began after, and forgets exactly their epochs. */
  lemma {:induction false} GcOutcome(steps: seq<Step>, t: TxId)
    requires Legal(START, steps)
    ensures var w := Run(START, steps);
            var m1 := Collect(w.m);
            && m1 == w.m.(txns := m1.txns, committed := m1.committed)
            && (t in m1.txns <==>
                && t in w.m.txns && w.m.txns[t].phase != Aborted
                && (w.m.txns[t].phase == Committed ==>
                      t in w.log && exists u :: u in w.m.txns && w.m.txns[u].phase == Active &&
                                                w.m.txns[u].start <= w.log[t].epoch))
            && (t in m1.txns ==> m1.txns[t] == w.m.txns[t])
            && (t in m1.committed <==> t in w.m.committed && (t in w.m.txns ==> t in m1.txns))
            && (t in m1.committed ==> m1.committed[t] == w.m.committed[t])
  {
    Reachable(steps);
    var w := Run(START, steps);
    hide Run, Legal, Retained, AllCompatible, Counts, Guards, Epochs;
    if t in w.m.txns { GcTakes(w, t); }
    hide Collectable, Tables;
  }

  lemma GcTakes(w: World, t: TxId)
    requires Tables(w) && t in w.m.txns
    ensures w.m.txns[t].phase == Committed ==> t in w.log
    ensures !Collectable(w.m, t) <==>
            && w.m.txns[t].phase != Aborted
            && (w.m.txns[t].phase == Committed ==>
                  exists u :: u in w.m.txns && w.m.txns[u].phase == Active && w.m.txns[u].start <= w.log[t].epoch)
  {
  }

  // ---- readers, horizons and closing

  /** In every run, a time-travel read is refused exactly below the history floor; otherwise it is
      pinned at the epoch asked for, or at the published one if that is earlier, and is protected there. */
  lemma PinOutcome(m: Manager, epoch: Epoch)
    ensures var (m1, outcome) := PinAt(m, epoch);
            && (outcome == NotRetained <==> epoch < m.floor) && (outcome != NotRetained ==> outcome == Done)
            && (outcome != Done ==> m1 == m)
            && (outcome == Done ==>
                  exists at: Epoch :: m1 == m.(readers := m.readers + multiset{at}) && at <= epoch &&
                                      at <= m.published && (at == epoch || at == m.published))
    ensures Pin(m).readers == m.readers + multiset{m.published} && Pin(m) == m.(readers := Pin(m).readers)
    ensures Unpin(Pin(m), m.published) == m
  {
    var at := ReadableEpoch(m, epoch);
    assert epoch >= m.floor ==> PinAt(m, epoch).0 == m.(readers := m.readers + multiset{at});
    assert Pin(m) == m.(readers := m.readers + multiset{m.published});
    assert m.readers + multiset{m.published} - multiset{m.published} == m.readers;
  }

  /** Collecting raises the floor to the horizon, or to the start of the retention window before it, and
      never lowers it. */
  lemma CollectOutcome(m: Manager, horizon: Epoch, retention: Option<Epoch>)
    requires IsHorizon(m, horizon)
    ensures var m1 := CollectAt(m, horizon, retention);
            && m1 == m.(floor := m1.floor) && m1.floor >= m.floor
            && (m1.floor <= horizon || m1.floor == m.floor)
            && (retention.None? ==> m1.floor >= horizon)
            && (retention.Some? ==> m1.floor >= horizon || m1.floor >= retention.value)
            && (retention.Some? ==> m1.floor <= retention.value || m1.floor == m.floor)
  {
  }

  /** A closed manager starts no commit and no private transaction; a poisoned one records no claim and
      starts no commit. */
  lemma ClosedOutcome(m: Manager, id: TxId, kind: ClaimKind, entities: seq<Entity>, key: Key, level: Level)
    requires m.lock.None?
    ensures StartCommit(Close(m), id).1 != Done && StartCommit(Close(m), id).0 == Close(m)
    ensures Begin(Close(m), level, true).1 == DatabaseClosed && Begin(Close(m), level, false).1 == Done
    ensures StartCommit(Poison(m), id) == (Poison(m), Incomplete)
    ensures RecordClaims(Poison(m), id, kind, entities) == (Poison(m), Incomplete)
    ensures RecordKey(Poison(m), id, key) == (Poison(m), Incomplete)
  {
  }

  /** A commit whose group is written only gives up the commit lock: it is still to be published. A commit that is
      dropped is not, holds neither lock nor turn, and poisons the manager. Nothing else changes. */
  lemma HandleOutcome(m: Manager, id: TxId)
    ensures m.lock == Some(id) ==> Written(m, id).lock.None? && Written(m, id) == m.(lock := Written(m, id).lock)
    ensures var m1 := DropHandle(m, id);
            && m1.poisoned && m1.lock != Some(id) && m1.turn != Some(id) && m1.handles == m.handles - {id}
            && (m.lock != Some(id) ==> m1.lock == m.lock) && (m.turn != Some(id) ==> m1.turn == m.turn)
            && (m.lock == Some(id) ==> m1.lock.None?) && (m.turn == Some(id) ==> m1.turn.None?)
            && m1 == m.(poisoned := true, lock := m1.lock, turn := m1.turn, handles := m1.handles)
  {
  }

  /** Barring an epoch bars it and every later one, besides those barred before. */
  lemma BarOutcome(m: Manager, epoch: Epoch, e: Epoch)
    ensures Unpublishable(Bar(m, epoch), e) <==> epoch <= e || (m.unpublishable.Some? && m.unpublishable.value <= e)
    ensures Bar(m, epoch) == m.(unpublishable := Bar(m, epoch).unpublishable)
  {
  }

  /** In every run, a commit waiting for its turn gets it exactly when its epoch is not barred; if it is
      barred, it is told so and its handle is gone. */
  lemma {:induction false} TurnOutcome(steps: seq<Step>, id: TxId)
    requires Legal(START, steps) && Enabled(Run(START, steps), DoTurn(id))
    ensures var w := Run(START, steps);
            var (m1, outcome) := TakeTurn(w.m, id);
            && id in w.log
            && (outcome == Incomplete <==>
                w.m.unpublishable.Some? && w.m.unpublishable.value <= w.log[id].epoch)
            && (outcome != Incomplete ==> outcome == Done && m1 == w.m.(turn := Some(id)))
            && (outcome == Incomplete ==>
                  && m1 == w.m.(handles := w.m.handles - {id}, lock := m1.lock)
                  && m1.lock == if w.m.lock == Some(id) then None else w.m.lock)
  {
    hide Run, Legal, Retained, AllCompatible, Counts, Tables, Epochs;
    Reachable(steps);
  }

  /** In every run that is not poisoned, while a commit is unpublished, the next epoch can be published
      in at most two steps. */
  lemma {:induction false} NextCanPublish(steps: seq<Step>) returns (more: seq<Step>)
    requires Legal(START, steps)
    requires var m := Run(START, steps).m; !m.poisoned && m.published < m.lastEpoch
    ensures var w := Run(START, steps);
            |more| <= 2 && Legal(w, more) && Run(w, more).m.published == w.m.published + 1
  {
    hide Run, Legal, Inv, Enabled, Apply;
    Reachable(steps);
    var w := Run(START, steps);
    if w.m.turn.Some? {
      more := PublishHeld(w);
    } else {
      var id := NextInLine(w);
      KeepsStep(w, DoTurn(id));
      var rest := PublishHeld(Apply(w, DoTurn(id)));
      more := [DoTurn(id)] + rest;
      StepThen(w, DoTurn(id), rest);
    }
  }

  lemma PublishHeld(w: World) returns (more: seq<Step>)
    requires Inv(w) && w.m.turn.Some?
    ensures |more| == 1 && Legal(w, more) && Run(w, more).m.published == w.m.published + 1
  {
    hide Run, Legal, Enabled, Apply;
    HolderPublishes(w);
    more := [DoPublish(w.m.turn.value)];
    OneStep(w, more[0]);
    assert w.m.handles[w.m.turn.value] == w.m.published + 1 by { hide Epochs, Tables, Retained, AllCompatible, Counts; }
    hide Inv;
  }

  lemma NextInLine(w: World) returns (id: TxId)
    requires Inv(w) && !w.m.poisoned && w.m.published < w.m.lastEpoch && w.m.turn.None?
    ensures Enabled(w, DoTurn(id)) && Apply(w, DoTurn(id)).m.turn == Some(id)
    ensures Apply(w, DoTurn(id)).m.published == w.m.published
  {
    hide Retained, AllCompatible, Counts;
    assert Taken(w.log, w.m.published + 1);
    id :| id in w.log && w.log[id].epoch == w.m.published + 1;
  }

  lemma StepThen(w: World, step: Step, rest: seq<Step>)
    requires Enabled(w, step) && Legal(Apply(w, step), rest)
    ensures Legal(w, [step] + rest) && Run(w, [step] + rest) == Run(Apply(w, step), rest)
  {
    hide Enabled, Apply;
    assert ([step] + rest)[0] == step && ([step] + rest)[1..] == rest;
  }
}
