/** Claims of open transactions: first writer wins, and savepoints give back exactly their claims. */
module TransactionClaims {
  import opened Options
  import opened Transactions
  import opened TransactionLaws
  import opened TransactionTheorems

  // ---- first writer wins

  /** No entity is written by both, no node linked to by one is deleted by the other, no key is shared. */
  predicate Separate(c: Claims, d: Claims) {
    c.writes * d.writes == {} && c.endpoints * d.deletes == {} && c.deletes * d.endpoints == {} &&
    c.keys * d.keys == {}
  }

  ghost predicate FirstWriter(w: World) {
    forall t, u :: t in w.m.txns && u in w.m.txns && t != u && Open(w.m.txns[t].phase) && Open(w.m.txns[u].phase) ==>
                     Separate(w.m.txns[t].claims, w.m.txns[u].claims)
  }

  lemma {:induction false} RecordConcat(info: Info, a: seq<Item>, b: seq<Item>)
    ensures RecordAll(info, a + b) == RecordAll(RecordAll(info, a), b)
    decreases |a|
  {
    if a == [] {
      assert a + b == b;
    } else {
      assert (a + b)[1..] == a[1..] + b;
      RecordConcat(Record(info, a[0]), a[1..], b);
    }
  }

  lemma {:induction false} RecordedSeparate(info: Info, kind: ClaimKind, entities: seq<Entity>, other: Claims)
    requires Separate(info.claims, other) && !RefusesAny(other, kind, entities)
    ensures Separate(RecordAll(info, ItemsOf(kind, entities)).claims, other)
    decreases |entities|
  {
    if entities != [] {
      var e, rest := entities[0], entities[1..];
      var first := EntityItems(kind, e);
      assert !Refuses(other, kind, e);
      var info1 := RecordAll(info, first);
      OneRecorded(info, kind, e, other);
      assert !RefusesAny(other, kind, rest) by {
        forall i | 0 <= i < |rest| ensures !Refuses(other, kind, rest[i]) {
          assert rest[i] == entities[i + 1];
        }
      }
      RecordedSeparate(info1, kind, rest, other);
      RecordConcat(info, first, ItemsOf(kind, rest));
    }
  }

  lemma OneRecorded(info: Info, kind: ClaimKind, e: Entity, other: Claims)
    requires Separate(info.claims, other) && !Refuses(other, kind, e)
    ensures Separate(RecordAll(info, EntityItems(kind, e)).claims, other)
  {
    var items := EntityItems(kind, e);
    if kind == Delete {
      var info1 := Record(info, WriteOf(e));
      assert items[1..] == [DeleteOf(e)] && [DeleteOf(e)][1..] == [];
      assert RecordAll(info1, [DeleteOf(e)]) == Record(info1, DeleteOf(e));
    } else {
      assert items[1..] == [];
    }
  }

  /** With one transaction open, skipping the scan misses nobody. */
  lemma NoOtherOpen(w: World, id: TxId, other: TxId)
    requires Counts(w) && w.m.active <= 1 && id in w.m.txns && Open(w.m.txns[id].phase)
    requires other in w.m.txns && Open(w.m.txns[other].phase)
    ensures other == id
  {
    assert id in OpenIds(w.m.txns) && other in OpenIds(w.m.txns);
    OnlyOne(OpenIds(w.m.txns), id);
  }

  /** A claim is refused as a conflict exactly when another open transaction's claims refuse it. */
  lemma {:induction false} ClaimRefusedExactly(steps: seq<Step>, id: TxId, kind: ClaimKind, entities: seq<Entity>)
    requires Legal(START, steps)
    requires var m := Run(START, steps).m; !m.poisoned && CheckActive(m, id) == Done
    ensures var m := Run(START, steps).m;
            RecordClaims(m, id, kind, entities).1 == (
              if exists other :: other in m.txns && other != id && Open(m.txns[other].phase) &&
                                 RefusesAny(m.txns[other].claims, kind, entities)
              then Conflict else Done)
  {
    hide Run, Legal, RefusesAny, Epochs, Tables, Guards, Retained, AllCompatible, Counts;
    Reachable(steps);
    var w := Run(START, steps);
    if w.m.active <= 1 {
      forall other | other in w.m.txns && Open(w.m.txns[other].phase) ensures other == id {
        NoOtherOpen(w, id, other);
      }
    }
  }

  lemma ClaimKeepsFirstWriter(w: World, id: TxId, kind: ClaimKind, entities: seq<Entity>)
    requires Counts(w) && FirstWriter(w)
    ensures FirstWriter(Apply(w, DoClaim(id, kind, entities)))
  {
    hide RefusesAny, RecordAll, ItemsOf, Counts, Separate;
    var m := w.m;
    if RecordClaims(m, id, kind, entities).1 == Done {
      var info := m.txns[id];
      RecordAllKeeps(info, ItemsOf(kind, entities));
      var info1 := RecordAll(info, ItemsOf(kind, entities));
      forall u | u in m.txns && u != id && Open(m.txns[u].phase)
        ensures Separate(info1.claims, m.txns[u].claims) && Separate(m.txns[u].claims, info1.claims)
      {
        if m.active <= 1 { NoOtherOpen(w, id, u); }
        RecordedSeparate(info, kind, entities, m.txns[u].claims);
        SeparateSymmetric(info1.claims, m.txns[u].claims);
      }
    }
  }

  lemma SeparateSymmetric(c: Claims, d: Claims)
    ensures Separate(c, d) == Separate(d, c)
  {
    assert c.writes * d.writes == d.writes * c.writes && c.keys * d.keys == d.keys * c.keys;
    assert c.endpoints * d.deletes == d.deletes * c.endpoints && c.deletes * d.endpoints == d.endpoints * c.deletes;
  }

  lemma KeyKeepsFirstWriter(w: World, id: TxId, key: Key)
    requires Counts(w) && FirstWriter(w)
    ensures FirstWriter(Apply(w, DoKey(id, key)))
  {
    hide Counts;
    var m := w.m;
    if RecordKey(m, id, key).1 == Done {
      var info1 := Record(m.txns[id], KeyOf(key));
      forall u | u in m.txns && u != id && Open(m.txns[u].phase)
        ensures Separate(info1.claims, m.txns[u].claims) && Separate(m.txns[u].claims, info1.claims)
      {
        if m.active <= 1 { NoOtherOpen(w, id, u); }
        SeparateSymmetric(info1.claims, m.txns[u].claims);
      }
    }
  }

  lemma SeparateWithin(c: Claims, d: Claims, other: Claims)
    requires Within(c, d) && Separate(d, other)
    ensures Separate(c, other) && Separate(other, c)
  {
    SeparateSymmetric(c, other);
  }

  lemma RestoreKeepsFirstWriter(w: World, id: TxId, mark: nat)
    requires FirstWriter(w)
    ensures FirstWriter(Apply(w, DoRestore(id, mark)))
  {
    hide Rewind, Separate;
    var m := w.m;
    if RestoreClaims(m, id, mark).1 == Done {
      var info := m.txns[id];
      var claims := Rewind(info.claims, info.undo.value, mark);
      RewindWithin(info.claims, info.undo.value, mark);
      forall u | u in m.txns && u != id && Open(m.txns[u].phase)
        ensures Separate(claims, m.txns[u].claims) && Separate(m.txns[u].claims, claims)
      {
        SeparateWithin(claims, info.claims, m.txns[u].claims);
      }
    }
  }

  lemma BeginKeepsFirstWriter(w: World, level: Level, private: bool)
    requires FirstWriter(w)
    ensures FirstWriter(Apply(w, DoBegin(level, private)))
  {
    assert forall c :: Separate(NO_CLAIMS, c) && Separate(c, NO_CLAIMS);
  }

  /** Whoever is open was open with the same claims. */
  ghost predicate NoNewClaims(t: map<TxId, Info>, t1: map<TxId, Info>) {
    forall id :: id in t1 && Open(t1[id].phase) ==> id in t && Open(t[id].phase) && t1[id].claims == t[id].claims
  }

  lemma OtherStepsClaimNothing(w: World, step: Step)
    requires Guards(w) && Enabled(w, step)
    requires !step.DoClaim? && !step.DoKey? && !step.DoRestore? && !step.DoBegin?
    ensures NoNewClaims(w.m.txns, Apply(w, step).m.txns)
  {
    hide NoNewClaims, StartCommit, TakeBack, Publish, Abort, Collect, RecordRead, MarkClaims, Guards;
    match step
    case DoRead(id, e) => UpdateClaimsNothing(w.m, id, e);
    case DoMark(id) => UpdateClaimsNothing(w.m, id, Node(None, 0));
    case DoStart(id) => StartClaimsNothing(w.m, id);
    case DoTakeBack(id) => TakeBackClaimsNothing(w, id);
    case DoPublish(id) => PublishClaimsNothing(w.m, id);
    case DoAbort(id) => AbortClaimsNothing(w.m, id);
    case DoGc => GcClaimsNothing(w.m);
    case _ => SameClaims(w.m.txns);
  }

  lemma SameClaims(t: map<TxId, Info>)
    ensures NoNewClaims(t, t)
  {
  }

  lemma UpdateClaimsNothing(m: Manager, id: TxId, e: Entity)
    ensures NoNewClaims(m.txns, RecordRead(m, id, e).0.txns) && NoNewClaims(m.txns, MarkClaims(m, id).0.txns)
  {
  }

  lemma StartClaimsNothing(m: Manager, id: TxId)
    requires m.lock.None?
    ensures NoNewClaims(m.txns, StartCommit(m, id).0.txns)
  {
    hide ClaimConflict, ReadConflict;
  }

  lemma TakeBackClaimsNothing(w: World, id: TxId)
    requires Guards(w) && Enabled(w, DoTakeBack(id))
    ensures NoNewClaims(w.m.txns, TakeBack(w.m, id).txns)
  {
  }

  lemma PublishClaimsNothing(m: Manager, id: TxId)
    requires id in m.handles && id in m.txns && m.active > 0
    ensures NoNewClaims(m.txns, Publish(m, id).txns)
  {
  }

  lemma AbortClaimsNothing(m: Manager, id: TxId)
    requires m.active > 0
    ensures NoNewClaims(m.txns, Abort(m, id).0.txns)
  {
  }

  lemma GcClaimsNothing(m: Manager)
    ensures NoNewClaims(m.txns, Collect(m).txns)
  {
    hide Collectable;
  }

  lemma OtherKeepsFirstWriter(w: World, w1: World)
    requires FirstWriter(w) && NoNewClaims(w.m.txns, w1.m.txns)
    ensures FirstWriter(w1)
  {
    hide Separate;
  }

  lemma KeepsFirstWriter(w: World, step: Step)
    requires Inv(w) && FirstWriter(w) && Enabled(w, step)
    ensures FirstWriter(Apply(w, step))
  {
    hide FirstWriter, Epochs, Tables, Guards, Retained, AllCompatible, Counts, NoNewClaims, Apply;
    match step
    case DoBegin(level, private) => BeginKeepsFirstWriter(w, level, private);
    case DoClaim(id, kind, entities) => ClaimKeepsFirstWriter(w, id, kind, entities);
    case DoKey(id, key) => KeyKeepsFirstWriter(w, id, key);
    case DoRestore(id, mark) => RestoreKeepsFirstWriter(w, id, mark);
    case _ =>
      OtherStepsClaimNothing(w, step);
      OtherKeepsFirstWriter(w, Apply(w, step));
  }

  lemma {:induction false} RunKeepsFirstWriter(w: World, steps: seq<Step>)
    requires Inv(w) && FirstWriter(w) && Legal(w, steps)
    ensures FirstWriter(Run(w, steps))
    decreases |steps|
  {
    hide Inv, FirstWriter, Enabled, Apply;
    if steps != [] {
      KeepsStep(w, steps[0]);
      KeepsFirstWriter(w, steps[0]);
      RunKeepsFirstWriter(Apply(w, steps[0]), steps[1..]);
    }
  }

  /** In every run, the claims of any two open transactions are separate. */
  lemma {:induction false} FirstWriterWins(steps: seq<Step>, t: TxId, u: TxId)
    requires Legal(START, steps)
    requires var m := Run(START, steps).m;
             t in m.txns && u in m.txns && t != u && Open(m.txns[t].phase) && Open(m.txns[u].phase)
    ensures var m := Run(START, steps).m; Separate(m.txns[t].claims, m.txns[u].claims)
  {
    hide Inv, Run, Legal, Separate;
    StartHolds();
    RunKeepsFirstWriter(START, steps);
  }

  // ---- savepoints

  /** Rolling back to a mark and then to an earlier one is rolling back to the earlier one. */
  lemma {:induction false} RewindTwice(c: Claims, log: seq<Item>, inner: nat, outer: nat)
    requires outer <= inner <= |log|
    ensures Rewind(Rewind(c, log, inner), log[..inner], outer) == Rewind(c, log, outer)
    decreases |log|
  {
    if |log| == inner {
      assert log[..inner] == log;
    } else {
      var shorter := log[..|log| - 1];
      assert shorter[..inner] == log[..inner];
      RewindTwice(Remove(c, log[|log| - 1]), shorter, inner, outer);
    }
  }

  lemma RecordRewinds(info: Info, item: Item, mark: nat)
    requires info.undo.Some? && mark <= |info.undo.value|
    ensures var r := Record(info, item);
            r.undo.Some? && mark <= |r.undo.value| &&
            Rewind(r.claims, r.undo.value, mark) == Rewind(info.claims, info.undo.value, mark)
  {
    var log := info.undo.value;
    if !Holds(info.claims, item) {
      assert (log + [item])[..|log|] == log;
      assert Remove(Add(info.claims, item), item) == info.claims;
    }
  }
}
