/** The engine's transaction manager (crates/grafeo-engine/src/transaction/manager.rs) as a state
    machine: each step is one section the manager runs under its locks, and steps of different
    threads interleave freely. The commit lock, which a caller keeps across steps, is a field. */
module Transactions {
  import opened Options

  type TxId = nat
  type Epoch = nat

  /** A node or edge of one graph: the unit of conflict detection. */
  datatype Entity = Node(graph: Option<string>, id: nat) | Edge(graph: Option<string>, id: nat)

  /** A value written under a UNIQUE, PRIMARY KEY or NODE KEY constraint. */
  datatype Key = Key(graph: Option<string>, on: string, properties: seq<string>, values: seq<string>)

  datatype Phase = Active | Committing | Committed | Aborted
  datatype Level = ReadCommitted | SnapshotIsolation | Serializable

  /** What a transaction holds against others. */
  datatype Claims = Claims(writes: set<Entity>, deletes: set<Entity>, endpoints: set<Entity>, keys: set<Key>)

  const NO_CLAIMS := Claims({}, {}, {}, {})

  /** One claim, as the undo log of savepoints lists it. */
  datatype Item = WriteOf(e: Entity) | DeleteOf(e: Entity) | EndpointOf(e: Entity) | KeyOf(k: Key)

  datatype ClaimKind = Write | Delete | Endpoint

  datatype Info = Info(phase: Phase, level: Level, start: Epoch, claims: Claims, readSet: set<Entity>,
                       private: bool, undo: Option<seq<Item>>)

  datatype Manager = Manager(
    nextId: TxId, lastEpoch: Epoch, published: Epoch, active: nat,
    txns: map<TxId, Info>, committed: map<TxId, Epoch>,
    lock: Option<TxId>,              // whose commit guard holds the commit lock
    handles: map<TxId, Epoch>,       // commits decided and not yet published, taken back or dropped
    turn: Option<TxId>,              // whose commit holds the publish turn, its epoch checked
    poisoned: bool, closed: bool,
    unpublishable: Option<Epoch>,    // the lowest epoch that is never published
    readers: multiset<Epoch>,        // the epochs open transactions and pinned reads read at
    floor: Epoch                     // the oldest epoch a read may ask for
  )

  const INITIAL := Manager(2, 0, 0, 0, map[], map[], None, map[], None, false, false, None, multiset{}, 0)

  datatype Outcome = Done | Incomplete | DatabaseClosed | NotFound | NotActive | Conflict |
                     SerializationFailure | BadMark | NotRetained

  predicate Open(phase: Phase) {
    phase == Active || phase == Committing
  }

  // ---- claims

  predicate Holds(c: Claims, item: Item) {
    match item
    case WriteOf(e) => e in c.writes
    case DeleteOf(e) => e in c.deletes
    case EndpointOf(e) => e in c.endpoints
    case KeyOf(k) => k in c.keys
  }

  function Add(c: Claims, item: Item): Claims {
    match item
    case WriteOf(e) => c.(writes := c.writes + {e})
    case DeleteOf(e) => c.(deletes := c.deletes + {e})
    case EndpointOf(e) => c.(endpoints := c.endpoints + {e})
    case KeyOf(k) => c.(keys := c.keys + {k})
  }

  function Remove(c: Claims, item: Item): Claims {
    match item
    case WriteOf(e) => c.(writes := c.writes - {e})
    case DeleteOf(e) => c.(deletes := c.deletes - {e})
    case EndpointOf(e) => c.(endpoints := c.endpoints - {e})
    case KeyOf(k) => c.(keys := c.keys - {k})
  }

  /** Adds a claim, logged for savepoints when it is new and a savepoint was ever set. */
  function Record(info: Info, item: Item): Info {
    if Holds(info.claims, item) then info
    else info.(claims := Add(info.claims, item),
               undo := if info.undo.Some? then Some(info.undo.value + [item]) else None)
  }

  function RecordAll(info: Info, items: seq<Item>): Info
    decreases |items|
  {
    if items == [] then info else RecordAll(Record(info, items[0]), items[1..])
  }

  /** The claims one kind of write makes: the delete of a node is a write of it too. */
  function EntityItems(kind: ClaimKind, e: Entity): seq<Item> {
    match kind
    case Write => [WriteOf(e)]
    case Delete => [WriteOf(e), DeleteOf(e)]
    case Endpoint => [EndpointOf(e)]
  }

  function ItemsOf(kind: ClaimKind, entities: seq<Entity>): seq<Item>
    decreases |entities|
  {
    if entities == [] then [] else EntityItems(kind, entities[0]) + ItemsOf(kind, entities[1..])
  }

  /** Whether another transaction's claims refuse this one. */
  predicate Refuses(other: Claims, kind: ClaimKind, e: Entity) {
    match kind
    case Write => e in other.writes
    case Delete => e in other.writes || e in other.endpoints
    case Endpoint => e in other.deletes
  }

  predicate RefusesAny(other: Claims, kind: ClaimKind, entities: seq<Entity>) {
    exists i :: 0 <= i < |entities| && Refuses(other, kind, entities[i])
  }

  /** Whether claims checked at commit clash with those of a transaction that committed meanwhile. */
  predicate Clash(ours: Claims, other: Claims) {
    || ours.writes * other.writes != {}
    || (exists e :: e in ours.endpoints && Refuses(other, Endpoint, e))
    || (exists e :: e in ours.deletes && Refuses(other, Delete, e))
    || ours.keys * other.keys != {}
  }

  // ---- the manager's operations

  function UpdateInfo(m: Manager, id: TxId, info: Info): Manager {
    m.(txns := m.txns[id := info])
  }

  /** begin and begin_private: reads at the published epoch. */
  function Begin(m: Manager, level: Level, private: bool): (Manager, Outcome) {
    if private && m.closed then (m, DatabaseClosed)
    else
      var info := Info(Active, level, m.published, NO_CLAIMS, {}, private, None);
      (m.(nextId := m.nextId + 1, txns := m.txns[m.nextId := info], active := m.active + 1,
          readers := m.readers + multiset{m.published}), Done)
  }

  /** The checks every change of an open transaction's claims starts with. */
  function CheckActive(m: Manager, id: TxId): Outcome {
    if id !in m.txns then NotFound else if m.txns[id].phase != Active then NotActive else Done
  }

  /** record_claims: first writer wins against open transactions; all entities or none. */
  function RecordClaims(m: Manager, id: TxId, kind: ClaimKind, entities: seq<Entity>): (Manager, Outcome) {
    if m.poisoned then (m, Incomplete)
    else if m.active > 1 && exists other :: other in m.txns && other != id && Open(m.txns[other].phase) &&
                                            RefusesAny(m.txns[other].claims, kind, entities) then (m, Conflict)
    else if CheckActive(m, id) != Done then (m, CheckActive(m, id))
    else (UpdateInfo(m, id, RecordAll(m.txns[id], ItemsOf(kind, entities))), Done)
  }

  /** record_key. */
  function RecordKey(m: Manager, id: TxId, key: Key): (Manager, Outcome) {
    if m.poisoned then (m, Incomplete)
    else if m.active > 1 && exists other :: other in m.txns && other != id && Open(m.txns[other].phase) &&
                                            key in m.txns[other].claims.keys then (m, Conflict)
    else if CheckActive(m, id) != Done then (m, CheckActive(m, id))
    else (UpdateInfo(m, id, Record(m.txns[id], KeyOf(key))), Done)
  }

  /** record_read. */
  function RecordRead(m: Manager, id: TxId, e: Entity): (Manager, Outcome) {
    if CheckActive(m, id) != Done then (m, CheckActive(m, id))
    else (UpdateInfo(m, id, m.txns[id].(readSet := m.txns[id].readSet + {e})), Done)
  }

  /** mark_claims: the position of a savepoint in the undo log, which starts with the first one. */
  function MarkClaims(m: Manager, id: TxId): (Manager, Outcome) {
    if CheckActive(m, id) != Done then (m, CheckActive(m, id))
    else
      var info := m.txns[id];
      (UpdateInfo(m, id, info.(undo := if info.undo.Some? then info.undo else Some([]))), Done)
  }

  /** The claims with the logged ones from the mark on taken back, newest first. */
  function Rewind(c: Claims, log: seq<Item>, mark: nat): Claims
    requires mark <= |log|
    decreases |log|
  {
    if |log| == mark then c else Rewind(Remove(c, log[|log| - 1]), log[..|log| - 1], mark)
  }

  /** restore_claims. */
  function RestoreClaims(m: Manager, id: TxId, mark: nat): (Manager, Outcome) {
    if CheckActive(m, id) != Done then (m, CheckActive(m, id))
    else
      var info := m.txns[id];
      if info.undo.None? || mark > |info.undo.value| then (m, BadMark)
      else (UpdateInfo(m, id, info.(claims := Rewind(info.claims, info.undo.value, mark),
                                    undo := Some(info.undo.value[..mark]))), Done)
  }

  /** The commits start_commit checks a transaction against. */
  predicate Checked(m: Manager, id: TxId, other: TxId)
    requires id in m.txns
  {
    other in m.committed && other != id && m.committed[other] > m.txns[id].start && other in m.txns
  }

  predicate ClaimConflict(m: Manager, id: TxId)
    requires id in m.txns
  {
    m.lastEpoch > m.txns[id].start &&
    exists other :: other in m.committed && Checked(m, id, other) && Clash(m.txns[id].claims, m.txns[other].claims)
  }

  predicate ReadConflict(m: Manager, id: TxId)
    requires id in m.txns
  {
    m.lastEpoch > m.txns[id].start && m.txns[id].level == Serializable &&
    exists other :: other in m.committed && Checked(m, id, other) &&
                    m.txns[id].readSet * m.txns[other].claims.writes != {}
  }

  /** start_commit, with the commit lock just taken: the epoch is assigned when nothing conflicts. */
  function StartCommit(m: Manager, id: TxId): (Manager, Outcome)
    requires m.lock.None?
  {
    if m.poisoned then (m, Incomplete)
    else if m.closed then (m, DatabaseClosed)
    else if CheckActive(m, id) != Done then (m, CheckActive(m, id))
    else if ClaimConflict(m, id) then (m, Conflict)
    else if ReadConflict(m, id) then (m, SerializationFailure)
    else
      var epoch := m.lastEpoch + 1;
      (m.(lastEpoch := epoch, lock := Some(id), handles := m.handles[id := epoch],
          committed := m.committed[id := epoch],
          txns := m.txns[id := m.txns[id].(phase := Committing)]), Done)
  }

  function ReleaseLock(m: Manager, id: TxId): Manager {
    if m.lock == Some(id) then m.(lock := None) else m
  }

  /** CommitGuard::written: the group is in the log, the next commit may start. */
  function Written(m: Manager, id: TxId): Manager
    requires m.lock == Some(id)
  {
    m.(lock := None)
  }

  /** CommitGuard::abort: the commit is taken back, the transaction is active again. */
  function TakeBack(m: Manager, id: TxId): Manager
    requires m.lock == Some(id) && id in m.handles && id in m.txns && m.handles[id] > 0
  {
    m.(lock := None, handles := m.handles - {id}, committed := m.committed - {id},
       lastEpoch := m.handles[id] - 1, txns := m.txns[id := m.txns[id].(phase := Active)])
  }

  predicate Unpublishable(m: Manager, epoch: Epoch) {
    m.unpublishable.Some? && epoch >= m.unpublishable.value
  }

  /** A commit's handle is used up: the commit lock and the turn go with it. */
  function HandleGone(m: Manager, id: TxId): Manager {
    var m1 := ReleaseLock(m.(handles := m.handles - {id}), id);
    if m1.turn == Some(id) then m1.(turn := None) else m1
  }

  /** The first part of Publish::complete_with: the commit takes the turn, unless its epoch is barred. */
  function TakeTurn(m: Manager, id: TxId): (Manager, Outcome)
    requires id in m.handles
  {
    if Unpublishable(m, m.handles[id]) then (HandleGone(m, id), Incomplete)
    else (m.(turn := Some(id)), Done)
  }

  /** The second part, once the commit's ordered steps ran in its turn: nothing is checked again. */
  function Publish(m: Manager, id: TxId): Manager
    requires id in m.handles && id in m.txns && m.active > 0
  {
    var epoch, info := m.handles[id], m.txns[id];
    var drop := info.private && m.active == 1;
    HandleGone(m, id).(
      txns := if drop then m.txns - {id} else m.txns[id := info.(phase := Committed, undo := None)],
      committed := if drop then m.committed - {id} else m.committed,
      active := m.active - 1, readers := m.readers - multiset{info.start},
      published := if epoch > m.published then epoch else m.published)
  }

  /** The first part of incomplete_from, also of poison: no further commit starts. */
  function Poison(m: Manager): Manager {
    m.(poisoned := true)
  }

  /** The second part: no epoch from `epoch` on takes the turn any more. */
  function Bar(m: Manager, epoch: Epoch): Manager {
    m.(unpublishable := Some(if m.unpublishable.Some? && m.unpublishable.value < epoch
                             then m.unpublishable.value else epoch))
  }

  /** Publish as dropped, also by an error of the ordered steps. */
  function DropHandle(m: Manager, id: TxId): Manager {
    Poison(HandleGone(m, id))
  }

  /** abort_registered. */
  function Abort(m: Manager, id: TxId): (Manager, Outcome)
    requires m.active > 0
  {
    if CheckActive(m, id) != Done then (m, CheckActive(m, id))
    else
      var info := m.txns[id];
      (m.(txns := if info.private then m.txns - {id} else m.txns[id := info.(phase := Aborted, undo := None)],
          active := m.active - 1, readers := m.readers - multiset{info.start}), Done)
  }

  /** Whether gc removes a transaction: an aborted one, or one that committed before every active one began. */
  predicate Collectable(m: Manager, id: TxId)
    requires id in m.txns
  {
    var phase := m.txns[id].phase;
    || phase == Aborted
    || (phase == Committed &&
        ((forall other :: other in m.txns ==> m.txns[other].phase != Active) ||
         (id in m.committed &&
          forall other :: other in m.txns && m.txns[other].phase == Active ==>
                            m.committed[id] < m.txns[other].start)))
  }

  /** gc. */
  function Collect(m: Manager): Manager {
    var gone := set id | id in m.txns && Collectable(m, id);
    m.(txns := m.txns - gone, committed := m.committed - gone)
  }

  /** pin_read: a read outside any transaction. */
  function Pin(m: Manager): Manager {
    m.(readers := m.readers + multiset{m.published})
  }

  /** The epoch pin_read_at reads at. */
  function ReadableEpoch(m: Manager, epoch: Epoch): Epoch {
    if epoch < m.published then epoch else m.published
  }

  /** pin_read_at: a time-travel read, refused below the history floor. */
  function PinAt(m: Manager, epoch: Epoch): (Manager, Outcome) {
    if epoch < m.floor then (m, NotRetained)
    else (m.(readers := m.readers + multiset{ReadableEpoch(m, epoch)}), Done)
  }

  function Unpin(m: Manager, epoch: Epoch): Manager {
    m.(readers := m.readers - multiset{epoch})
  }

  /** Whether h is the read horizon: the oldest of the readers' epochs and the published epoch. */
  predicate IsHorizon(m: Manager, h: Epoch) {
    && h <= m.published
    && (forall e :: e in m.readers ==> h <= e)
    && (h == m.published || h in m.readers)
  }

  /** collect_horizon: no later than the horizon and the start of the retention window. */
  function CollectAt(m: Manager, horizon: Epoch, retention: Option<Epoch>): Manager
    requires IsHorizon(m, horizon)
  {
    var at := if retention.Some? && retention.value < horizon then retention.value else horizon;
    m.(floor := if at > m.floor then at else m.floor)
  }

  function Close(m: Manager): Manager
    requires m.lock.None?
  {
    m.(closed := true)
  }
}
