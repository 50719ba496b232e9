/** The Go Transaction of crates/bindings/go/transaction.go: a handle on a transaction of the C layer,
    freed once by the call that ends it or by the finalizer. */
module TransactionHandle {
  import opened Options

  datatype End = Open | Committed | RolledBack | CommitFailed

  /** A call on the transaction, with how the C layer answers if it is asked. */
  datatype Call = Execute(ok: bool) | Commit(ok: bool) | Rollback(ok: bool)

  /** What the C layer is asked to do with a handle. */
  datatype Foreign = Asked(handle: nat, call: Call) | Freed(handle: nat)

  datatype Reply = Done | Failed | AlreadyCommitted | AlreadyRolledBack | NotActive

  datatype State = State(handle: Option<nat>, ended: End, finalizer: bool, log: seq<Foreign>)

  // ---- one call

  /** The C transaction is there exactly while no end is recorded. */
  predicate InUse(s: State) {
    (s.handle.None? <==> s.ended != Open) && (s.finalizer <==> s.handle.Some?)
  }

  function FreedState(s: State): State {
    if s.handle.None? then s else s.(handle := None, log := s.log + [Freed(s.handle.value)])
  }

  function EndedState(s: State, how: End): State {
    FreedState(s.(finalizer := false)).(ended := how)
  }

  function AskedState(s: State, call: Call): State
    requires s.handle.Some?
  {
    s.(log := s.log + [Asked(s.handle.value, call)])
  }

  function After(s: State, call: Call): State
    requires InUse(s)
  {
    if s.ended != Open then s
    else
      var asked := AskedState(s, call);
      match call
      case Execute(_) => asked
      case Commit(ok) => EndedState(asked, if ok then Committed else CommitFailed)
      case Rollback(ok) => if ok then EndedState(asked, RolledBack) else asked
  }

  function ReplyTo(s: State, call: Call): Reply {
    match s.ended
    case Open => if call.ok then Done else Failed
    case Committed => if call.Execute? then NotActive else AlreadyCommitted
    case RolledBack => if call.Execute? then NotActive else AlreadyRolledBack
    case CommitFailed => if call.Rollback? then Done else NotActive
  }

  class Transaction {
    var handle: Option<nat>
    var ended: End
    var finalizer: bool
    ghost var log: seq<Foreign>

    ghost function Now(): State
      reads this
    {
      State(handle, ended, finalizer, log)
    }

    /** BeginTransaction, once the C layer has given a handle. */
    constructor (h: nat)
      ensures Now() == Begun(h)
    {
      handle, ended, finalizer, log := Some(h), Open, true, [];
    }

    method Execute(ok: bool) returns (r: Reply)
      requires InUse(Now())
      modifies this
      ensures Now() == After(old(Now()), Call.Execute(ok)) && r == ReplyTo(old(Now()), Call.Execute(ok))
    {
      if handle.None? { return NotActive; }
      log := log + [Asked(handle.value, Call.Execute(ok))];
      return if ok then Done else Failed;
    }

    method Commit(ok: bool) returns (r: Reply)
      requires InUse(Now())
      modifies this
      ensures Now() == After(old(Now()), Call.Commit(ok)) && r == ReplyTo(old(Now()), Call.Commit(ok))
    {
      match ended {
        case Committed => return AlreadyCommitted;
        case RolledBack => return AlreadyRolledBack;
        case CommitFailed => return NotActive;
        case Open =>
      }
      log := log + [Asked(handle.value, Call.Commit(ok))];
      if ok {
        Finish(Committed);
        return Done;
      }
      Finish(CommitFailed);
      return Failed;
    }

    method Rollback(ok: bool) returns (r: Reply)
      requires InUse(Now())
      modifies this
      ensures Now() == After(old(Now()), Call.Rollback(ok)) && r == ReplyTo(old(Now()), Call.Rollback(ok))
    {
      match ended {
        case Committed => return AlreadyCommitted;
        case RolledBack => return AlreadyRolledBack;
        case CommitFailed => return Done;
        case Open =>
      }
      log := log + [Asked(handle.value, Call.Rollback(ok))];
      if ok {
        Finish(RolledBack);
        return Done;
      }
      return Failed;
    }

    /** end. */
    method Finish(how: End)
      modifies this
      ensures Now() == EndedState(old(Now()), how)
    {
      finalizer := false;
      Free();
      ended := how;
    }

    /** free, also the finalizer. */
    method Free()
      modifies this
      ensures Now() == FreedState(old(Now()))
    {
      if handle.Some? {
        log := log + [Freed(handle.value)];
        handle := None;
      }
    }
  }

  // ---- every run

  function Begun(h: nat): State {
    State(Some(h), Open, true, [])
  }

  function Run(h: nat, calls: seq<Call>): (s: State)
    ensures InUse(s)
  {
    if calls == [] then Begun(h) else After(Run(h, calls[..|calls| - 1]), calls[|calls| - 1])
  }

  /** The state once the garbage collector has taken the transaction: the finalizer runs if it is set. */
  function Collected(s: State): State {
    if s.finalizer then FreedState(s) else s
  }

  /** A commit, or a rollback that succeeds, ends the transaction. */
  predicate Ends(call: Call) {
    call.Commit? || (call.Rollback? && call.ok)
  }

  function EndOf(call: Call): End {
    if call.Rollback? then RolledBack else if call.ok then Committed else CommitFailed
  }

  /** How many calls reach the C layer: those up to the first that ends the transaction. */
  function Reaching(calls: seq<Call>): (n: nat)
    ensures n <= |calls|
  {
    if calls == [] then 0
    else if Ends(calls[0]) then 1
    else 1 + Reaching(calls[1..])
  }

  ghost predicate Undecided(calls: seq<Call>) {
    forall i :: 0 <= i < |calls| ==> !Ends(calls[i])
  }

  function AskedOf(h: nat, calls: seq<Call>): (log: seq<Foreign>)
    ensures |log| == |calls| && forall i :: 0 <= i < |calls| ==> log[i] == Asked(h, calls[i])
  {
    seq(|calls|, i requires 0 <= i < |calls| => Asked(h, calls[i]))
  }

  lemma UndecidedTail(calls: seq<Call>)
    requires calls != []
    ensures Undecided(calls) <==> !Ends(calls[0]) && Undecided(calls[1..])
  {
    hide Ends;
    if Undecided(calls[1..]) && !Ends(calls[0]) {
      forall i | 0 <= i < |calls| ensures !Ends(calls[i]) {
        if i > 0 { assert calls[i] == calls[1..][i - 1]; }
      }
    }
  }

  lemma {:induction false} ReachingAppend(calls: seq<Call>, call: Call)
    ensures Reaching(calls + [call]) == if Undecided(calls) then |calls| + 1 else Reaching(calls)
    ensures Undecided(calls) ==> Reaching(calls) == |calls|
    ensures !Undecided(calls) ==> 0 < Reaching(calls) && Ends(calls[Reaching(calls) - 1])
  {
    if calls != [] {
      ReachingAppend(calls[1..], call);
      assert (calls + [call])[1..] == calls[1..] + [call];
      UndecidedTail(calls);
      hide Undecided, Ends;
    }
  }

  /** The C layer was asked each call up to the one that ends the transaction, then to free it, and
      nothing more; the end recorded is the one that call decides. */
  ghost predicate RanAs(s: State, h: nat, calls: seq<Call>) {
    var n := Reaching(calls);
    if Undecided(calls) then s == State(Some(h), Open, true, AskedOf(h, calls))
    else n > 0 && s == State(None, EndOf(calls[n - 1]), false, AskedOf(h, calls[..n]) + [Freed(h)])
  }

  lemma {:induction false} RunExact(h: nat, calls: seq<Call>)
    ensures RanAs(Run(h, calls), h, calls)
  {
    if calls != [] {
      var m := |calls| - 1;
      RunExact(h, calls[..m]);
      assert calls[..m] + [calls[m]] == calls;
      RanStep(Run(h, calls[..m]), h, calls[..m], calls[m]);
      hide RanAs;
    }
  }

  lemma RanStep(s: State, h: nat, front: seq<Call>, call: Call)
    requires RanAs(s, h, front) && InUse(s)
    ensures RanAs(After(s, call), h, front + [call])
  {
    hide Reaching;
    var calls := front + [call];
    ReachingAppend(front, call);
    UndecidedAppend(front, call);
    if Undecided(front) {
      assert AskedOf(h, calls) == AskedOf(h, front) + [Asked(h, call)] && calls[..|calls|] == calls;
    } else {
      assert calls[..Reaching(front)] == front[..Reaching(front)];
    }
    hide Undecided;
  }

  lemma UndecidedAppend(front: seq<Call>, call: Call)
    ensures Undecided(front + [call]) <==> Undecided(front) && !Ends(call)
  {
    hide Ends;
    var calls := front + [call];
    assert calls[|front|] == call && forall i :: 0 <= i < |front| ==> calls[i] == front[i];
  }

  /** A handle is freed at most once, never used after it, and once collected exactly once. */
  lemma FreedOnce(h: nat, calls: seq<Call>)
    ensures var log := Run(h, calls).log;
            forall i :: 0 <= i < |log| ==> log[i].handle == h && (log[i].Freed? ==> i == |log| - 1)
    ensures var log := Collected(Run(h, calls)).log;
            log != [] && forall i :: 0 <= i < |log| ==> log[i].handle == h && (log[i].Freed? <==> i == |log| - 1)
    ensures Collected(Run(h, calls)).handle.None?
  {
    RunExact(h, calls);
    hide Run;
  }

  /** Once an end is recorded no further call changes anything or reaches the C layer. */
  lemma {:induction false} EndStays(h: nat, calls: seq<Call>, more: seq<Call>)
    requires Run(h, calls).ended != Open
    ensures Run(h, calls + more) == Run(h, calls)
  {
    var all := calls + more;
    if more == [] {
      assert all == calls;
    } else {
      var m := |more| - 1;
      assert all[..|all| - 1] == calls + more[..m];
      EndStays(h, calls, more[..m]);
    }
  }

  /** What a call is answered after others: while none has ended the transaction, as the C layer answers;
      afterwards as the call that ended it says, without asking. */
  ghost function Answer(calls: seq<Call>, call: Call): Reply
    requires Reaching(calls) > 0 || Undecided(calls)
  {
    if Undecided(calls) then (if call.ok then Done else Failed)
    else
      match (call, calls[Reaching(calls) - 1])
      case (Execute(_), _) => NotActive
      case (_, Rollback(_)) => AlreadyRolledBack
      case (_, Commit(true)) => AlreadyCommitted
      case (Rollback(_), Commit(false)) => Done
      case (Commit(_), Commit(false)) => NotActive
      case (_, Execute(_)) => NotActive
  }

  lemma {:induction false} AnswersExact(h: nat, calls: seq<Call>, call: Call)
    ensures Reaching(calls) > 0 || Undecided(calls)
    ensures ReplyTo(Run(h, calls), call) == Answer(calls, call)
  {
    RunExact(h, calls);
    ReachingAppend(calls, call);
    hide Run, Reaching, Undecided;
  }

  /** A rollback after a commit that failed succeeds, asks the C layer nothing and changes nothing. */
  lemma RollbackAfterFailedCommit(h: nat, calls: seq<Call>, ok: bool)
    requires 0 < Reaching(calls) && calls[Reaching(calls) - 1] == Commit(false)
    ensures var s := Run(h, calls); ReplyTo(s, Rollback(ok)) == Done && After(s, Rollback(ok)) == s
  {
    RunExact(h, calls);
    hide Run, Reaching;
  }
}
