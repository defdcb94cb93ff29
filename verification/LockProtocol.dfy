/**
 The two-lock protocol. Library processes take `flock`, then `fcntl`, run one store operation
 in small steps, and drop both; the Hyper-V daemon takes only `fcntl`, cloud-init only `flock`.
 Any number of processes of each kind take turns in any order.
 */
module LockProtocol {
  import opened Results
  import opened PoolLayout
  import opened PoolSpec
  import opened PoolOps

  datatype Role = Library(op: Op) | Daemon(mode: Mode) | CloudInit

  datatype Proc =
    | Waiting(role: Role)
    | HoldsFlock(op: Op)
    | BacksOff(op: Op)
    | Inside(op: Op, local: Local)
    | ForeignInside(role: Role)
    | Ended(role: Role, result: Option<OpResult>)

  /** What has become of the pool: completed and aborted operations, and other programs' writes. */
  datatype Event =
    | Completed(p: nat, op: Op, result: OpResult)
    | Aborted(p: nat, op: Op, at: Local, left: seq<Record>)
    | Wrote(p: nat, pool: seq<Record>)

  datatype State = State(
    procs: map<nat, Proc>,
    flock: map<nat, Mode>,
    fcntl: map<nat, Mode>,
    pool: seq<Record>,
    log: seq<Event>)

  /** May `p` take a lock in `mode`, given its holders? */
  predicate Grants(holders: map<nat, Mode>, p: nat, mode: Mode) {
    forall q :: q in holders && q != p ==> holders[q] == Shared && mode == Shared
  }

  datatype Step =
    | TakeFlock(p: nat)
    | FlockFails(p: nat)
    | TakeFcntl(p: nat)
    | FcntlFails(p: nat)
    | DropFlock(p: nat)
    | WorkOn(p: nat)
    | Finish(p: nat)
    | Unreadable(p: nat)
    | Abort(p: nat)
    | ForeignTake(p: nat)
    | ForeignWrite(p: nat, pool: seq<Record>)
    | ForeignRelease(p: nat)

  predicate Enabled(s: State, step: Step) {
    && step.p in s.procs
    && var proc := s.procs[step.p];
       match step
       case TakeFlock(p) => proc.Waiting? && proc.role.Library? && Grants(s.flock, p, ModeOf(proc.role.op))
       case FlockFails(p) => proc.Waiting? && proc.role.Library?
       case TakeFcntl(p) => proc.HoldsFlock? && Grants(s.fcntl, p, ModeOf(proc.op))
       case FcntlFails(p) => proc.HoldsFlock?
       case DropFlock(p) => proc.BacksOff?
       case WorkOn(p) =>
         && proc.Inside? && LocalOk(proc.op, proc.local, s.pool)
         && !Finished(proc.op, proc.local, s.pool) && !MeetsBad(proc.op, proc.local, s.pool)
       case Unreadable(p) =>
         && proc.Inside? && LocalOk(proc.op, proc.local, s.pool)
         && !Finished(proc.op, proc.local, s.pool) && MeetsBad(proc.op, proc.local, s.pool)
       case Finish(p) => proc.Inside? && Finished(proc.op, proc.local, s.pool)
       case Abort(p) => proc.Inside?
       case ForeignTake(p) =>
         && proc.Waiting?
         && (match proc.role
             case Library(_) => false
             case Daemon(mode) => Grants(s.fcntl, p, mode)
             case CloudInit => Grants(s.flock, p, Exclusive))
       case ForeignWrite(p, _) => proc.ForeignInside? && (proc.role.Daemon? ==> proc.role.mode == Exclusive)
       case ForeignRelease(p) => proc.ForeignInside?
  }

  /** The operation ends with an error where it is. */
  function CutShort(s: State, p: nat, proc: Proc): State
    requires proc.Inside?
  {
    s.(procs := s.procs[p := Ended(Library(proc.op), None)],
       flock := s.flock - {p}, fcntl := s.fcntl - {p},
       log := s.log + [Aborted(p, proc.op, proc.local, s.pool)])
  }

  function After(s: State, step: Step): State
    requires Enabled(s, step)
  {
    var p := step.p;
    var proc := s.procs[p];
    match step
    case TakeFlock(_) =>
      s.(procs := s.procs[p := HoldsFlock(proc.role.op)], flock := s.flock[p := ModeOf(proc.role.op)])
    case FlockFails(_) =>
      s.(procs := s.procs[p := Ended(proc.role, None)])
    case TakeFcntl(_) =>
      s.(procs := s.procs[p := Inside(proc.op, START)], fcntl := s.fcntl[p := ModeOf(proc.op)])
    case FcntlFails(_) =>
      s.(procs := s.procs[p := BacksOff(proc.op)])
    case DropFlock(_) =>
      s.(procs := s.procs[p := Ended(Library(proc.op), None)], flock := s.flock - {p})
    case WorkOn(_) =>
      var (local, pool) := Work(proc.op, proc.local, s.pool);
      s.(procs := s.procs[p := Inside(proc.op, local)], pool := pool)
    case Finish(_) =>
      var result := ResultOf(proc.op, proc.local);
      s.(procs := s.procs[p := Ended(Library(proc.op), Some(result))],
         flock := s.flock - {p}, fcntl := s.fcntl - {p},
         log := s.log + [Completed(p, proc.op, result)])
    case Unreadable(_) => CutShort(s, p, proc)
    case Abort(_) => CutShort(s, p, proc)
    case ForeignTake(_) =>
      var taken := s.(procs := s.procs[p := ForeignInside(proc.role)]);
      if proc.role.CloudInit? then taken.(flock := s.flock[p := Exclusive])
      else taken.(fcntl := s.fcntl[p := proc.role.mode])
    case ForeignWrite(_, pool) =>
      s.(pool := pool, log := s.log + [Wrote(p, pool)])
    case ForeignRelease(_) =>
      var left := s.(procs := s.procs[p := Ended(proc.role, None)]);
      if proc.role.CloudInit? then left.(flock := s.flock - {p}) else left.(fcntl := s.fcntl - {p})
  }

  ghost predicate Init(s: State, pool: seq<Record>) {
    && (forall p :: p in s.procs ==> s.procs[p].Waiting?)
    && s.flock == map[] && s.fcntl == map[] && s.pool == pool && s.log == []
  }

  /** A finite run: states and the steps between them. */
  ghost predicate IsRun(states: seq<State>, steps: seq<Step>, pool: seq<Record>) {
    && |states| == |steps| + 1
    && Init(states[0], pool)
    && forall i :: 0 <= i < |steps| ==> Enabled(states[i], steps[i]) && states[i + 1] == After(states[i], steps[i])
  }

  // The pool as the log tells it.

  function Effect(e: Event, pool: seq<Record>): seq<Record> {
    match e
    case Completed(_, op, _) => Apply(op, pool).0
    case Aborted(_, _, _, left) => left
    case Wrote(_, wrote) => wrote
  }

  function Replay(pool: seq<Record>, log: seq<Event>): seq<Record> {
    if log == [] then pool else Effect(log[|log| - 1], Replay(pool, log[..|log| - 1]))
  }

  /**
   The log explains the results: every completed operation returned what it returns when it acts
   alone, right after everything logged before it, and a dump found every record readable; an
   aborted one left what it had got to.
   */
  ghost predicate Explains(pool: seq<Record>, log: seq<Event>) {
    forall k :: 0 <= k < |log| ==> Explained(Replay(pool, log[..k]), log[k])
  }

  ghost predicate Explained(before: seq<Record>, e: Event) {
    match e
    case Completed(_, op, result) => result == Apply(op, before).1 && (op.DumpAll? ==> AllDecode(before))
    case Aborted(_, op, at, left) => Reached(op, before, at, left)
    case Wrote(_, _) => true
  }

  // The invariant.

  function FlockOf(proc: Proc): Option<Mode> {
    match proc
    case HoldsFlock(op) => Some(ModeOf(op))
    case BacksOff(op) => Some(ModeOf(op))
    case Inside(op, _) => Some(ModeOf(op))
    case ForeignInside(role) => if role.CloudInit? then Some(Exclusive) else None
    case _ => None
  }

  function FcntlOf(proc: Proc): Option<Mode> {
    match proc
    case Inside(op, _) => Some(ModeOf(op))
    case ForeignInside(role) => if role.Daemon? then Some(role.mode) else None
    case _ => None
  }

  /** The lock table agrees with what each process thinks it holds. */
  ghost predicate Held(procs: map<nat, Proc>, holders: map<nat, Mode>, of: Proc -> Option<Mode>) {
    && (forall p :: p in holders <==> p in procs && of(procs[p]).Some?)
    && (forall p :: p in holders ==> of(procs[p]) == Some(holders[p]))
  }

  ghost predicate LocksMatch(s: State) {
    && Held(s.procs, s.flock, FlockOf)
    && Held(s.procs, s.fcntl, FcntlOf)
    && (forall p :: p in s.procs && s.procs[p].ForeignInside? ==> !s.procs[p].role.Library?)
  }

  ghost predicate Compatible(holders: map<nat, Mode>) {
    forall p, q :: p in holders && q in holders && p != q ==> holders[p] == Shared
  }

  predicate WriterInside(proc: Proc) {
    proc.Inside? && ModeOf(proc.op) == Exclusive
  }

  ghost predicate PoolMatches(s: State, pool: seq<Record>) {
    && (forall p :: p in s.procs && s.procs[p].Inside? ==>
          Reached(s.procs[p].op, Replay(pool, s.log), s.procs[p].local, s.pool))
    && ((forall p :: p in s.procs ==> !WriterInside(s.procs[p])) ==> s.pool == Replay(pool, s.log))
  }

  ghost predicate Inv(s: State, pool: seq<Record>) {
    && LocksMatch(s) && Compatible(s.flock) && Compatible(s.fcntl)
    && PoolMatches(s, pool) && Explains(pool, s.log)
  }

  lemma InitInv(s: State, pool: seq<Record>)
    requires Init(s, pool)
    ensures Inv(s, pool)
  {
  }

  /** `p` now holds what `mode` says. */
  function Put(holders: map<nat, Mode>, p: nat, mode: Option<Mode>): map<nat, Mode> {
    if mode.Some? then holders[p := mode.value] else holders - {p}
  }

  lemma PutCompatible(holders: map<nat, Mode>, p: nat, mode: Option<Mode>)
    requires Compatible(holders)
    requires mode.Some? ==> Grants(holders, p, mode.value) || (p in holders && holders[p] == mode.value)
    ensures Compatible(Put(holders, p, mode))
  {
  }

  lemma PutHeld(procs: map<nat, Proc>, holders: map<nat, Mode>, of: Proc -> Option<Mode>, p: nat, proc: Proc)
    requires Held(procs, holders, of) && p in procs
    ensures Held(procs[p := proc], Put(holders, p, of(proc)), of)
  {
  }

  /** A process that goes on holding what it held leaves the lock table as it is. */
  lemma Unmoved(procs: map<nat, Proc>, holders: map<nat, Mode>, of: Proc -> Option<Mode>, p: nat, proc: Proc)
    requires Held(procs, holders, of) && p in procs
    ensures of(proc) == of(procs[p]) ==> Put(holders, p, of(proc)) == holders
    ensures procs[p := procs[p]] == procs
  {
  }

  /** A step moves only its own process, and that process's `flock` as its new state says. */
  lemma StepMovesFlock(s: State, step: Step)
    requires LocksMatch(s) && Enabled(s, step)
    ensures var p := step.p;
            var s' := After(s, step);
            && s'.procs == s.procs[p := s'.procs[p]]
            && s'.flock == Put(s.flock, p, FlockOf(s'.procs[p]))
            && (FlockOf(s'.procs[p]).Some? ==>
                  Grants(s.flock, p, FlockOf(s'.procs[p]).value) || FlockOf(s'.procs[p]) == FlockOf(s.procs[p]))
  {
    hide LocalOk, Finished, Work, Grants, Held, FcntlOf, ResultOf, ModeOf;
    Unmoved(s.procs, s.flock, FlockOf, step.p, After(s, step).procs[step.p]);
  }

  /** The same for `fcntl`. */
  lemma StepMovesFcntl(s: State, step: Step)
    requires LocksMatch(s) && Enabled(s, step)
    ensures var p := step.p;
            var s' := After(s, step);
            && s'.fcntl == Put(s.fcntl, p, FcntlOf(s'.procs[p]))
            && (FcntlOf(s'.procs[p]).Some? ==>
                  Grants(s.fcntl, p, FcntlOf(s'.procs[p]).value) || FcntlOf(s'.procs[p]) == FcntlOf(s.procs[p]))
            && (s'.procs[p].ForeignInside? ==> !s'.procs[p].role.Library?)
  {
    hide LocalOk, Finished, Work, Grants, Held, FlockOf, ResultOf, ModeOf;
    Unmoved(s.procs, s.fcntl, FcntlOf, step.p, After(s, step).procs[step.p]);
  }

  lemma StepKeepsLocks(s: State, step: Step)
    requires LocksMatch(s) && Compatible(s.flock) && Compatible(s.fcntl) && Enabled(s, step)
    ensures var s' := After(s, step); LocksMatch(s') && Compatible(s'.flock) && Compatible(s'.fcntl)
  {
    hide FlockOf, FcntlOf, LocalOk, Finished, Work, ModeOf;
    var p, s' := step.p, After(s, step);
    var proc := s'.procs[p];
    StepMovesFlock(s, step);
    StepMovesFcntl(s, step);
    PutHeld(s.procs, s.flock, FlockOf, p, proc);
    PutHeld(s.procs, s.fcntl, FcntlOf, p, proc);
    PutCompatible(s.flock, p, FlockOf(proc));
    PutCompatible(s.fcntl, p, FcntlOf(proc));
  }

  // Exclusion.

  /** A process that may change the pool, from inside either lock. */
  predicate MayWrite(proc: Proc) {
    WriterInside(proc) || (proc.ForeignInside? && (proc.role.Daemon? ==> proc.role.mode == Exclusive))
  }

  ghost predicate LocksOk(s: State) {
    LocksMatch(s) && Compatible(s.flock) && Compatible(s.fcntl)
  }

  /** A library writer in its critical section holds both locks, and nobody else holds either. */
  lemma WriterAlone(s: State, p: nat)
    requires LocksOk(s) && p in s.procs && WriterInside(s.procs[p])
    ensures s.flock == map[p := Exclusive] && s.fcntl == map[p := Exclusive]
    ensures forall q :: q in s.procs && q != p ==> FlockOf(s.procs[q]).None? && FcntlOf(s.procs[q]).None?
  {
    Sole(s.flock, p);
    Sole(s.fcntl, p);
  }

  lemma Sole(holders: map<nat, Mode>, p: nat)
    requires Compatible(holders) && p in holders && holders[p] == Exclusive
    ensures holders == map[p := Exclusive]
  {
    assert forall q :: q in holders ==> q == p;
  }

  /** Whoever is inside a library operation, nobody else can change the pool. */
  lemma InsideKeepsWritersOut(s: State, p: nat, q: nat)
    requires LocksOk(s) && p in s.procs && q in s.procs && p != q && s.procs[p].Inside?
    ensures !MayWrite(s.procs[q])
  {
    assert p in s.flock && p in s.fcntl;
    assert q in s.flock ==> s.flock[q] == Shared;
    assert q in s.fcntl ==> s.fcntl[q] == Shared;
  }

  /** Does `p` hold a lock with these holders, and just in `mode`? */
  predicate HoldsIn(holders: map<nat, Mode>, p: nat, mode: Option<Mode>) {
    if mode.Some? then p in holders && holders[p] == mode.value else p !in holders
  }

  /**
   What each process holds: a library process `flock` first and `fcntl` only once it is inside, the
   daemon `fcntl`, cloud-init `flock`, and any other process nothing.
   */
  lemma WhatIsHeld(s: State, p: nat)
    requires LocksOk(s) && p in s.procs
    ensures match s.procs[p]
            case HoldsFlock(op) => HoldsIn(s.flock, p, Some(ModeOf(op))) && HoldsIn(s.fcntl, p, None)
            case BacksOff(op) => HoldsIn(s.flock, p, Some(ModeOf(op))) && HoldsIn(s.fcntl, p, None)
            case Inside(op, _) =>
              var mode := if op.DumpAll? then Shared else Exclusive;
              HoldsIn(s.flock, p, Some(mode)) && HoldsIn(s.fcntl, p, Some(mode))
            case ForeignInside(Daemon(mode)) => HoldsIn(s.flock, p, None) && HoldsIn(s.fcntl, p, Some(mode))
            case ForeignInside(CloudInit) => HoldsIn(s.flock, p, Some(Exclusive)) && HoldsIn(s.fcntl, p, None)
            case ForeignInside(Library(_)) => false
            case _ => HoldsIn(s.flock, p, None) && HoldsIn(s.fcntl, p, None)
  {
  }

  // The pool and the log.

  lemma ReplaySnoc(pool: seq<Record>, log: seq<Event>, e: Event)
    ensures Replay(pool, log + [e]) == Effect(e, Replay(pool, log))
  {
    assert (log + [e])[..|log|] == log;
  }

  lemma ExplainsSnoc(pool: seq<Record>, log: seq<Event>, e: Event)
    requires Explains(pool, log) && Explained(Replay(pool, log), e)
    ensures Explains(pool, log + [e])
  {
    var longer := log + [e];
    forall k | 0 <= k < |longer|
      ensures Explained(Replay(pool, longer[..k]), longer[k])
    {
      assert longer[..k] == log[..k];
      assert log[..|log|] == log;
    }
  }

  /** A step that neither writes nor logs, and leaves `p` outside or newly inside. */
  lemma QuietStep(s: State, p: nat, proc: Proc, pool: seq<Record>)
    requires LocksOk(s) && PoolMatches(s, pool) && p in s.procs && !s.procs[p].Inside?
    requires proc.Inside? ==> proc.local == START && forall q :: q in s.procs ==> !WriterInside(s.procs[q])
    ensures PoolMatches(s.(procs := s.procs[p := proc]), pool)
  {
    var s' := s.(procs := s.procs[p := proc]);
    if proc.Inside? {
      ReachedStart(proc.op, s.pool);
    }
    if forall q :: q in s'.procs ==> !WriterInside(s'.procs[q]) {
      forall q | q in s.procs
        ensures !WriterInside(s.procs[q])
      {
        assert q != p ==> s'.procs[q] == s.procs[q];
      }
    }
  }

  lemma PoolMatchesLocks(s: State, flock: map<nat, Mode>, fcntl: map<nat, Mode>, pool: seq<Record>)
    requires PoolMatches(s, pool)
    ensures PoolMatches(s.(flock := flock, fcntl := fcntl), pool)
  {
  }

  lemma SameWriters(s: State, s': State)
    requires s'.procs.Keys == s.procs.Keys
    requires forall q :: q in s.procs ==> WriterInside(s.procs[q]) == WriterInside(s'.procs[q])
    ensures (forall q :: q in s'.procs ==> !WriterInside(s'.procs[q])) <==>
            (forall q :: q in s.procs ==> !WriterInside(s.procs[q]))
  {
  }

  /** One more step inside an operation. */
  lemma WorkStep(s: State, p: nat, pool: seq<Record>)
    requires Inv(s, pool) && Enabled(s, WorkOn(p))
    ensures PoolMatches(After(s, WorkOn(p)), pool)
  {
    hide Work, Outcome, LocalOk, Finished, Apply, MeetsBad, Reached;
    var proc, s' := s.procs[p], After(s, WorkOn(p));
    var done := s'.procs[p].local;
    OneStep(proc.op, proc.local, s.pool);
    ReachedStep(proc.op, Replay(pool, s.log), proc.local, s.pool, done, s'.pool);
    forall q | q in s'.procs && s'.procs[q].Inside?
      ensures Reached(s'.procs[q].op, Replay(pool, s.log), s'.procs[q].local, s'.pool)
    {
      if q != p {
        InsideKeepsWritersOut(s, q, p);
        assert s'.procs[q] == s.procs[q] && s'.pool == s.pool;
      }
    }
    SameWriters(s, s');
    assert WriterInside(proc) == WriterInside(s'.procs[p]);
  }

  lemma OneStep(op: Op, l: Local, pool: seq<Record>)
    requires LocalOk(op, l, pool) && !Finished(op, l, pool) && !MeetsBad(op, l, pool)
    ensures StepsTo(op, Point(l, pool), Point(Work(op, l, pool).0, Work(op, l, pool).1))
    ensures op.DumpAll? ==> Work(op, l, pool).1 == pool
  {
  }

  /** A step that writes `e` to the log and leaves the pool as `e` says. */
  lemma LogStep(s: State, p: nat, proc: Proc, now: seq<Record>, e: Event, pool: seq<Record>)
    requires Inv(s, pool) && p in s.procs && !proc.Inside?
    requires forall q :: q in s.procs && q != p && s.procs[q].Inside? ==>
               !WriterInside(s.procs[q]) && now == s.pool && Effect(e, Replay(pool, s.log)) == Replay(pool, s.log)
    requires Effect(e, Replay(pool, s.log)) == now
    requires Explained(Replay(pool, s.log), e)
    ensures PoolMatches(s.(procs := s.procs[p := proc], pool := now, log := s.log + [e]), pool)
    ensures Explains(pool, s.log + [e])
  {
    ReplaySnoc(pool, s.log, e);
    ExplainsSnoc(pool, s.log, e);
  }

  lemma FinishStep(s: State, p: nat, pool: seq<Record>)
    requires Inv(s, pool) && Enabled(s, Finish(p))
    ensures var s' := After(s, Finish(p)); PoolMatches(s', pool) && Explains(pool, s'.log)
  {
    var proc := s.procs[p];
    var result := ResultOf(proc.op, proc.local);
    ReachedOutcome(proc.op, Replay(pool, s.log), proc.local, s.pool);
    OutcomeAtEnd(proc.op, proc.local, s.pool);
    forall q | q in s.procs && q != p && s.procs[q].Inside?
      ensures !WriterInside(s.procs[q])
      ensures Effect(Completed(p, proc.op, result), Replay(pool, s.log)) == Replay(pool, s.log)
    {
      InsideKeepsWritersOut(s, p, q);
      InsideKeepsWritersOut(s, q, p);
    }
    LogStep(s, p, Ended(Library(proc.op), Some(result)), s.pool, Completed(p, proc.op, result), pool);
  }

  lemma ReaderSeesLog(s: State, p: nat, pool: seq<Record>)
    requires Inv(s, pool) && p in s.procs && s.procs[p].Inside? && !WriterInside(s.procs[p])
    ensures forall q :: q in s.procs ==> !WriterInside(s.procs[q])
    ensures s.pool == Replay(pool, s.log)
  {
    forall q | q in s.procs
      ensures !WriterInside(s.procs[q])
    {
      if q != p {
        InsideKeepsWritersOut(s, p, q);
      }
    }
  }

  /** A batch cut short has written a prefix of itself, in one piece. */
  lemma AbortedBatch(records: seq<Record>, before: seq<Record>, at: Local, left: seq<Record>)
    requires Reached(AppendBatch(records), before, at, left)
    ensures at.i <= |records| && left == before + records[..at.i]
  {
    ReachedOutcome(AppendBatch(records), before, at, left);
    var n := |before| + at.i;
    assert left + records[at.i..] == before + records;
    assert |left| == n;
    assert left == (left + records[at.i..])[..n] == (before + records)[..n];
  }

  lemma AbortStep(s: State, p: nat, pool: seq<Record>)
    requires Inv(s, pool) && p in s.procs && s.procs[p].Inside?
    ensures var s' := CutShort(s, p, s.procs[p]); PoolMatches(s', pool) && Explains(pool, s'.log)
  {
    hide Reached;
    var proc, before := s.procs[p], Replay(pool, s.log);
    forall q | q in s.procs && q != p && s.procs[q].Inside?
      ensures !WriterInside(s.procs[q]) && s.pool == before
    {
      InsideKeepsWritersOut(s, p, q);
      InsideKeepsWritersOut(s, q, p);
      ReaderSeesLog(s, p, pool);
    }
    LogStep(s, p, Ended(Library(proc.op), None), s.pool, Aborted(p, proc.op, proc.local, s.pool), pool);
  }

  lemma ForeignWriteStep(s: State, p: nat, wrote: seq<Record>, pool: seq<Record>)
    requires Inv(s, pool) && Enabled(s, ForeignWrite(p, wrote))
    ensures var s' := After(s, ForeignWrite(p, wrote)); PoolMatches(s', pool) && Explains(pool, s'.log)
  {
    forall q | q in s.procs && q != p
      ensures !s.procs[q].Inside?
    {
      if s.procs[q].Inside? {
        InsideKeepsWritersOut(s, q, p);
      }
    }
    LogStep(s, p, s.procs[p], wrote, Wrote(p, wrote), pool);
    assert s.procs == s.procs[p := s.procs[p]];
  }

  /** Entering a library operation: nobody is writing, so the operation starts from the log's pool. */
  lemma EnterStep(s: State, p: nat, pool: seq<Record>)
    requires Inv(s, pool) && Enabled(s, TakeFcntl(p))
    ensures PoolMatches(After(s, TakeFcntl(p)), pool)
  {
    forall q | q in s.procs
      ensures !WriterInside(s.procs[q])
    {
      if q != p && WriterInside(s.procs[q]) {
        WriterAlone(s, q);
      }
    }
    QuietStep(s, p, Inside(s.procs[p].op, START), pool);
    PoolMatchesLocks(s.(procs := s.procs[p := Inside(s.procs[p].op, START)]), s.flock,
                     After(s, TakeFcntl(p)).fcntl, pool);
  }

  lemma StepKeepsInv(s: State, step: Step, pool: seq<Record>)
    requires Inv(s, pool) && Enabled(s, step)
    ensures Inv(After(s, step), pool)
  {
    hide LocalOk, Finished, PoolMatches, Explains, ModeOf, LocksMatch, Compatible;
    StepKeepsLocks(s, step);
    match step
    case WorkOn(p) => WorkStep(s, p, pool);
    case Finish(p) => FinishStep(s, p, pool);
    case Unreadable(p) => AbortStep(s, p, pool);
    case Abort(p) => AbortStep(s, p, pool);
    case ForeignWrite(p, wrote) => ForeignWriteStep(s, p, wrote, pool);
    case TakeFcntl(p) => EnterStep(s, p, pool);
    case _ =>
      var s' := After(s, step);
      QuietStep(s, step.p, s'.procs[step.p], pool);
      PoolMatchesLocks(s.(procs := s'.procs), s'.flock, s'.fcntl, pool);
  }

  /** Every state of every run satisfies the invariant. */
  lemma {:induction false} RunInv(states: seq<State>, steps: seq<Step>, pool: seq<Record>, i: nat)
    requires IsRun(states, steps, pool) && i < |states|
    ensures Inv(states[i], pool)
  {
    if i == 0 {
      InitInv(states[0], pool);
    } else {
      RunInv(states, steps, pool, i - 1);
      StepKeepsInv(states[i - 1], steps[i - 1], pool);
    }
  }

  lemma RunStart(states: seq<State>, steps: seq<Step>, pool: seq<Record>)
    requires IsRun(states, steps, pool)
    ensures |states| == |steps| + 1 && states[0].pool == pool
  {
  }

  lemma RunStep(states: seq<State>, steps: seq<Step>, pool: seq<Record>, i: nat)
    requires IsRun(states, steps, pool) && i < |steps|
    ensures |states| == |steps| + 1 && Enabled(states[i], steps[i]) && states[i + 1] == After(states[i], steps[i])
  {
    hide Enabled, After;
  }

  // What holds in all runs.

  /** In its critical section a library writer excludes every other lock holder of either kind. */
  lemma MutualExclusion(states: seq<State>, steps: seq<Step>, pool: seq<Record>, i: nat, p: nat)
    requires IsRun(states, steps, pool) && i < |states|
    requires p in states[i].procs && WriterInside(states[i].procs[p])
    ensures states[i].flock.Keys == states[i].fcntl.Keys == {p}
    ensures forall q :: q in states[i].procs && q != p ==>
              !states[i].procs[q].Inside? && !states[i].procs[q].ForeignInside?
  {
    RunInv(states, steps, pool, i);
    WriterAlone(states[i], p);
  }

  /** A process that failed or finished, at whatever point, holds neither lock. */
  lemma EndedHoldsNothing(states: seq<State>, steps: seq<Step>, pool: seq<Record>, i: nat, p: nat)
    requires IsRun(states, steps, pool) && i < |states|
    requires p in states[i].procs && states[i].procs[p].Ended?
    ensures p !in states[i].flock && p !in states[i].fcntl
  {
    RunInv(states, steps, pool, i);
  }

  /**
   Every completed operation returned what it returns alone after everything logged before it:
   a dump, in particular, is exactly the pool those events leave.
   */
  lemma DumpsAreAtomic(states: seq<State>, steps: seq<Step>, pool: seq<Record>, i: nat, k: nat)
    requires IsRun(states, steps, pool) && i < |states| && k < |states[i].log|
    requires states[i].log[k].Completed?
    ensures states[i].log[k].result == Apply(states[i].log[k].op, Replay(pool, states[i].log[..k])).1
    ensures states[i].log[k].op == DumpAll ==>
              && states[i].log[k].result == Dumped(Replay(pool, states[i].log[..k]))
              && AllDecode(Replay(pool, states[i].log[..k]))
  {
    RunInv(states, steps, pool, i);
    assert Explained(Replay(pool, states[i].log[..k]), states[i].log[k]);
  }

  /** A completed batch stands in one piece behind what was there; an aborted one leaves a prefix. */
  lemma BatchesDoNotInterleave(states: seq<State>, steps: seq<Step>, pool: seq<Record>, i: nat, k: nat)
    requires IsRun(states, steps, pool) && i < |states| && k < |states[i].log|
    requires !states[i].log[k].Wrote? && states[i].log[k].op.AppendBatch?
    ensures var e, before := states[i].log[k], Replay(pool, states[i].log[..k]);
            exists n: nat :: n <= |e.op.records| && (e.Completed? ==> n == |e.op.records|)
                             && Replay(pool, states[i].log[..k + 1]) == before + e.op.records[..n]
  {
    hide LocksMatch, Compatible, PoolMatches;
    RunInv(states, steps, pool, i);
    var log := states[i].log;
    var before := Replay(pool, log[..k]);
    assert Explained(before, log[k]);
    assert log[..k + 1] == log[..k] + [log[k]];
    ReplaySnoc(pool, log[..k], log[k]);
    if log[k].Completed? {
      assert log[k].op.records[..|log[k].op.records|] == log[k].op.records;
    } else {
      AbortedBatch(log[k].op.records, before, log[k].at, log[k].left);
    }
  }

  /** While no library writer is inside, the pool is what the log says. */
  lemma PoolIsLogged(states: seq<State>, steps: seq<Step>, pool: seq<Record>, i: nat)
    requires IsRun(states, steps, pool) && i < |states|
    requires forall p :: p in states[i].procs ==> !WriterInside(states[i].procs[p])
    ensures states[i].pool == Replay(pool, states[i].log)
  {
    RunInv(states, steps, pool, i);
  }

  /** A step by which a process gets on, as opposed to a failure. */
  predicate Progress(step: Step) {
    !step.FlockFails? && !step.FcntlFails? && !step.Abort?
  }

  /** What a process inside does next. */
  function NextInside(s: State, q: nat): Step
    requires q in s.procs && s.procs[q].Inside? && LocalOk(s.procs[q].op, s.procs[q].local, s.pool)
  {
    if Finished(s.procs[q].op, s.procs[q].local, s.pool) then Finish(q)
    else if MeetsBad(s.procs[q].op, s.procs[q].local, s.pool) then Unreadable(q)
    else WorkOn(q)
  }

  /** A process inside can take its next step, or finish, or fail at an unreadable record. */
  lemma InsideGoesOn(s: State, pool: seq<Record>, q: nat)
    requires PoolMatches(s, pool) && q in s.procs && s.procs[q].Inside?
    ensures LocalOk(s.procs[q].op, s.procs[q].local, s.pool) && Enabled(s, NextInside(s, q))
  {
    ReachedOutcome(s.procs[q].op, Replay(pool, s.log), s.procs[q].local, s.pool);
    hide Reached, LocalOk, Finished, MeetsBad;
  }

  lemma NobodyInside(s: State)
    requires LocksMatch(s)
    requires forall q :: q in s.procs ==> !s.procs[q].Inside? && !s.procs[q].ForeignInside?
    ensures s.fcntl == map[]
    ensures (forall q :: q in s.procs ==> !s.procs[q].BacksOff? && !s.procs[q].HoldsFlock?) ==> s.flock == map[]
  {
    assert forall q :: q !in s.fcntl;
  }

  /** No reachable state is deadlocked: as long as someone has not ended, someone can get on. */
  lemma NoDeadlock(states: seq<State>, steps: seq<Step>, pool: seq<Record>, i: nat, p: nat)
    requires IsRun(states, steps, pool) && i < |states|
    requires p in states[i].procs && !states[i].procs[p].Ended?
    ensures exists step :: Progress(step) && Enabled(states[i], step)
  {
    hide LocalOk, Finished, PoolMatches, Explains, ModeOf, LocksMatch, Compatible;
    var s := states[i];
    RunInv(states, steps, pool, i);
    if q :| q in s.procs && s.procs[q].Inside? {
      InsideGoesOn(s, pool, q);
    } else if q :| q in s.procs && s.procs[q].ForeignInside? {
      assert Enabled(s, ForeignRelease(q));
    } else if q :| q in s.procs && s.procs[q].BacksOff? {
      assert Enabled(s, DropFlock(q));
    } else if q :| q in s.procs && s.procs[q].HoldsFlock? {
      NobodyInside(s);
      assert Enabled(s, TakeFcntl(q));
    } else {
      NobodyInside(s);
      assert Enabled(s, if s.procs[p].role.Library? then TakeFlock(p) else ForeignTake(p));
    }
  }

  function RoleOf(proc: Proc): Role {
    match proc
    case Waiting(role) => role
    case HoldsFlock(op) => Library(op)
    case BacksOff(op) => Library(op)
    case Inside(op, _) => Library(op)
    case ForeignInside(role) => role
    case Ended(role, _) => role
  }

  /** A step moves only its own process, which keeps its role; only work and foreign writes change the pool. */
  lemma StepMovesOne(s: State, step: Step)
    requires LocksMatch(s) && Enabled(s, step)
    ensures var p := step.p;
            var s' := After(s, step);
            && p in s.procs && p in s'.procs && s'.procs == s.procs[p := s'.procs[p]]
            && RoleOf(s'.procs[p]) == RoleOf(s.procs[p])
            && (!step.WorkOn? && !step.ForeignWrite? ==> s'.pool == s.pool)
            && (step.ForeignWrite? ==> s'.pool == step.pool)
  {
    hide Work, LocalOk, Finished, MeetsBad, Held, Grants, ModeOf, FlockOf, FcntlOf, ResultOf;
    UpdateSame(s.procs, step.p);
  }

  lemma UpdateSame(procs: map<nat, Proc>, p: nat)
    ensures p in procs ==> procs[p := procs[p]] == procs
  {
  }

  lemma WorkedPool(s: State, p: nat)
    requires Enabled(s, WorkOn(p))
    ensures p in s.procs && s.procs[p].Inside? && LocalOk(s.procs[p].op, s.procs[p].local, s.pool)
    ensures !Finished(s.procs[p].op, s.procs[p].local, s.pool)
    ensures After(s, WorkOn(p)).pool == Work(s.procs[p].op, s.procs[p].local, s.pool).1
  {
    hide Work, LocalOk, Finished, MeetsBad;
  }

  // Everybody can finish.

  /** Steps by which processes get on lead from `s` to `s'`. */
  ghost predicate Follows(s: State, steps: seq<Step>, s': State)
    decreases |steps|
  {
    if steps == [] then s' == s
    else Enabled(s, steps[0]) && Progress(steps[0]) && Follows(After(s, steps[0]), steps[1..], s')
  }

  lemma {:induction false} FollowsConcat(s: State, a: seq<Step>, t: State, b: seq<Step>, u: State)
    requires Follows(s, a, t) && Follows(t, b, u)
    ensures Follows(s, a + b, u)
    decreases |a|
  {
    hide Enabled, After;
    if a == [] {
      assert a + b == b;
    } else {
      FollowsConcat(After(s, a[0]), a[1..], t, b, u);
      assert (a + b)[1..] == a[1..] + b;
    }
  }

  /** From `s` process `q` has ended and everybody else is where he was. */
  ghost predicate EndedOne(s: State, s': State, q: nat, pool: seq<Record>) {
    && Inv(s', pool) && q in s.procs && q in s'.procs
    && s'.procs == s.procs[q := s'.procs[q]] && s'.procs[q].Ended?
  }

  lemma FollowsNone(s: State)
    ensures Follows(s, [], s)
  {
  }

  lemma FollowsCons(s: State, step: Step, rest: seq<Step>, s': State)
    requires Enabled(s, step) && Progress(step) && Follows(After(s, step), rest, s')
    ensures Follows(s, [step] + rest, s')
  {
    hide Enabled, After, Progress;
    assert ([step] + rest)[1..] == rest;
  }

  lemma EndedStays(s: State, t: State, s': State, q: nat, pool: seq<Record>)
    requires q in s.procs && q in t.procs && t.procs == s.procs[q := t.procs[q]] && EndedOne(t, s', q, pool)
    ensures EndedOne(s, s', q, pool)
  {
    hide Inv;
  }

  /** One step of `q`, then the rest of its way. */
  lemma OneThenRest(s: State, step: Step, rest: seq<Step>, s': State, pool: seq<Record>)
    requires Inv(s, pool) && Enabled(s, step) && Progress(step)
    requires Follows(After(s, step), rest, s') && EndedOne(After(s, step), s', step.p, pool)
    ensures Follows(s, [step] + rest, s') && EndedOne(s, s', step.p, pool)
  {
    assert LocksMatch(s);
    hide *;
    StepMovesOne(s, step);
    EndedStays(s, After(s, step), s', step.p, pool);
    FollowsCons(s, step, rest, s');
  }

  /** One step that ends `q`. */
  lemma OneEnds(s: State, step: Step, pool: seq<Record>)
    requires Inv(s, pool) && Enabled(s, step) && Progress(step) && After(s, step).procs[step.p].Ended?
    ensures Follows(s, [step], After(s, step)) && EndedOne(s, After(s, step), step.p, pool)
  {
    assert LocksMatch(s);
    hide Enabled, After, Inv, Progress, Follows, LocksMatch;
    StepKeepsInv(s, step, pool);
    StepMovesOne(s, step);
    FollowsNone(After(s, step));
    FollowsCons(s, step, [], After(s, step));
    assert [step] + [] == [step];
  }

  function StepsLeft(s: State, q: nat): nat
    requires q in s.procs && s.procs[q].Inside?
  {
    var left := Remaining(s.procs[q].op, s.procs[q].local, s.pool);
    if left < 0 then 0 else left
  }

  lemma WorkComesCloser(s: State, q: nat, pool: seq<Record>)
    requires Inv(s, pool) && Enabled(s, WorkOn(q))
    ensures var s' := After(s, WorkOn(q));
            q in s'.procs && s'.procs[q].Inside? && StepsLeft(s', q) < StepsLeft(s, q)
  {
    hide Work, Finished, MeetsBad, Remaining, LocalOk;
    WorkKeepsOutcome(s.procs[q].op, s.procs[q].local, s.pool);
  }

  /** A process inside can go on to its end. */
  lemma {:induction false} InsideEnds(s: State, pool: seq<Record>, q: nat) returns (steps: seq<Step>, s': State)
    requires Inv(s, pool) && q in s.procs && s.procs[q].Inside?
    ensures Follows(s, steps, s') && EndedOne(s, s', q, pool)
    decreases StepsLeft(s, q)
  {
    InsideGoesOn(s, pool, q);
    var step := NextInside(s, q);
    hide Follows, EndedOne, Inv, StepsLeft;
    if step.WorkOn? {
      StepKeepsInv(s, step, pool);
      WorkComesCloser(s, q, pool);
      var rest;
      rest, s' := InsideEnds(After(s, step), pool, q);
      OneThenRest(s, step, rest, s', pool);
      steps := [step] + rest;
    } else {
      OneEnds(s, step, pool);
      steps, s' := [step], After(s, step);
    }
  }

  /** A process that holds `flock`, with nobody inside, can go on to its end. */
  lemma HolderEnds(s: State, pool: seq<Record>, q: nat) returns (steps: seq<Step>, s': State)
    requires Inv(s, pool) && q in s.procs && s.procs[q].HoldsFlock? && s.fcntl == map[]
    ensures Follows(s, steps, s') && EndedOne(s, s', q, pool)
  {
    hide *;
    var step := TakeFcntl(q);
    Enters(s, q, pool);
    StepKeepsInv(s, step, pool);
    var rest;
    rest, s' := InsideEnds(After(s, step), pool, q);
    OneThenRest(s, step, rest, s', pool);
    steps := [step] + rest;
  }

  lemma Enters(s: State, q: nat, pool: seq<Record>)
    requires Inv(s, pool) && q in s.procs && s.procs[q].HoldsFlock? && s.fcntl == map[]
    ensures Enabled(s, TakeFcntl(q)) && Progress(TakeFcntl(q))
    ensures var t := After(s, TakeFcntl(q)); q in t.procs && t.procs[q].Inside?
  {
  }

  /** A process that waits, with no lock held, can go on to its end. */
  lemma WaiterEnds(s: State, pool: seq<Record>, q: nat) returns (steps: seq<Step>, s': State)
    requires Inv(s, pool) && q in s.procs && s.procs[q].Waiting? && s.flock == map[] && s.fcntl == map[]
    ensures Follows(s, steps, s') && EndedOne(s, s', q, pool)
  {
    hide *;
    var step := if s.procs[q].role.Library? then TakeFlock(q) else ForeignTake(q);
    Starts(s, q);
    StepKeepsInv(s, step, pool);
    var t := After(s, step);
    var rest;
    if t.procs[q].HoldsFlock? {
      rest, s' := HolderEnds(t, pool, q);
    } else {
      OneEnds(t, ForeignRelease(q), pool);
      rest, s' := [ForeignRelease(q)], After(t, ForeignRelease(q));
    }
    OneThenRest(s, step, rest, s', pool);
    steps := [step] + rest;
  }

  lemma Starts(s: State, q: nat)
    requires q in s.procs && s.procs[q].Waiting? && s.flock == map[] && s.fcntl == map[]
    ensures var step := if s.procs[q].role.Library? then TakeFlock(q) else ForeignTake(q);
            && Enabled(s, step) && Progress(step) && step.p == q
            && var t := After(s, step);
               && q in t.procs
               && (t.procs[q].HoldsFlock? ==> t.fcntl == map[])
               && (!t.procs[q].HoldsFlock? ==>
                     && Enabled(t, ForeignRelease(q)) && Progress(ForeignRelease(q))
                     && q in After(t, ForeignRelease(q)).procs && After(t, ForeignRelease(q)).procs[q].Ended?)
  {
  }

  /** Somebody who has not ended can go on to his end. */
  lemma SomebodyEnds(s: State, pool: seq<Record>, p: nat) returns (steps: seq<Step>, s': State, q: nat)
    requires Inv(s, pool) && p in s.procs && !s.procs[p].Ended?
    ensures Follows(s, steps, s') && EndedOne(s, s', q, pool) && !s.procs[q].Ended?
  {
    hide LocalOk, Finished, PoolMatches, Explains, ModeOf, LocksMatch, Compatible, Follows, EndedOne;
    if r :| r in s.procs && s.procs[r].Inside? {
      q := r;
      steps, s' := InsideEnds(s, pool, q);
    } else if r :| r in s.procs && s.procs[r].ForeignInside? {
      q := r;
      OneEnds(s, ForeignRelease(q), pool);
      steps, s' := [ForeignRelease(q)], After(s, ForeignRelease(q));
    } else if r :| r in s.procs && s.procs[r].BacksOff? {
      q := r;
      OneEnds(s, DropFlock(q), pool);
      steps, s' := [DropFlock(q)], After(s, DropFlock(q));
    } else if r :| r in s.procs && s.procs[r].HoldsFlock? {
      q := r;
      NobodyInside(s);
      steps, s' := HolderEnds(s, pool, q);
    } else {
      q := p;
      NobodyInside(s);
      steps, s' := WaiterEnds(s, pool, q);
    }
  }

  function Unended(s: State): set<nat> {
    set p | p in s.procs && !s.procs[p].Ended?
  }

  lemma {:induction false} AllEnd(s: State, pool: seq<Record>) returns (steps: seq<Step>, s': State)
    requires Inv(s, pool)
    ensures Follows(s, steps, s') && s'.procs.Keys == s.procs.Keys && Unended(s') == {}
    decreases |Unended(s)|
  {
    hide Inv;
    if Unended(s) == {} {
      steps, s' := [], s;
    } else {
      var p :| p in Unended(s);
      var first, t, q := SomebodyEnds(s, pool, p);
      assert Unended(t) == Unended(s) - {q};
      var rest;
      rest, s' := AllEnd(t, pool);
      FollowsConcat(s, first, t, rest, s');
      steps := first + rest;
    }
  }

  /** From every reachable state some continuation without failures lets every process end. */
  lemma EverybodyCanEnd(states: seq<State>, steps: seq<Step>, pool: seq<Record>, i: nat)
    requires IsRun(states, steps, pool) && i < |states|
    ensures exists more: seq<Step>, last: State ::
              && Follows(states[i], more, last)
              && last.procs.Keys == states[i].procs.Keys
              && forall p :: p in last.procs ==> last.procs[p].Ended?
  {
    RunInv(states, steps, pool, i);
    hide Inv, IsRun, Follows;
    var more, last := AllEnd(states[i], pool);
    forall p | p in last.procs
      ensures last.procs[p].Ended?
    {
      assert p !in Unended(last);
    }
    assert Follows(states[i], more, last);
  }

  // Readability.

  /** All that library processes write is UTF-8. */
  ghost predicate ReadableProcs(s: State) {
    forall p :: p in s.procs && RoleOf(s.procs[p]).Library? ==> WritesReadable(RoleOf(s.procs[p]).op)
  }

  /** And so is what other programs write. */
  ghost predicate ReadableWrite(step: Step) {
    step.ForeignWrite? ==> AllDecode(step.pool)
  }

  lemma StepKeepsReadable(s: State, step: Step, pool: seq<Record>)
    requires Inv(s, pool) && Enabled(s, step) && ReadableProcs(s) && AllDecode(s.pool) && ReadableWrite(step)
    ensures ReadableProcs(After(s, step)) && AllDecode(After(s, step).pool)
  {
    assert LocksMatch(s) && (step.ForeignWrite? ==> AllDecode(step.pool));
    hide *;
    StepMovesOne(s, step);
    if step.WorkOn? {
      WorkedPool(s, step.p);
      ReadableProc(s, step.p);
      WorkKeepsReadable(s.procs[step.p].op, s.procs[step.p].local, s.pool);
    }
    ReadableStays(s, step.p, After(s, step));
  }

  lemma ReadableProc(s: State, p: nat)
    requires ReadableProcs(s) && p in s.procs && s.procs[p].Inside?
    ensures WritesReadable(s.procs[p].op)
  {
    hide WritesReadable;
    assert RoleOf(s.procs[p]) == Library(s.procs[p].op);
  }

  lemma ReadableStays(s: State, p: nat, s': State)
    requires ReadableProcs(s) && p in s.procs && p in s'.procs && s'.procs == s.procs[p := s'.procs[p]]
    requires RoleOf(s'.procs[p]) == RoleOf(s.procs[p])
    ensures ReadableProcs(s')
  {
    hide WritesReadable, RoleOf;
  }

  /** A readable pool into which only UTF-8 is written stays readable, and no operation is ever turned away. */
  lemma {:induction false} RunStaysReadable(states: seq<State>, steps: seq<Step>, pool: seq<Record>, i: nat)
    requires IsRun(states, steps, pool) && i < |states| && AllDecode(pool) && ReadableProcs(states[0])
    requires forall j :: 0 <= j < i ==> ReadableWrite(steps[j])
    ensures ReadableProcs(states[i]) && AllDecode(states[i].pool)
    ensures forall p :: p in states[i].procs ==> !Enabled(states[i], Unreadable(p))
  {
    hide *;
    RunStart(states, steps, pool);
    if i > 0 {
      RunStaysReadable(states, steps, pool, i - 1);
      RunInv(states, steps, pool, i - 1);
      RunStep(states, steps, pool, i - 1);
      StepKeepsReadable(states[i - 1], steps[i - 1], pool);
    }
    forall p | p in states[i].procs
      ensures !Enabled(states[i], Unreadable(p))
    {
      NobodyTurnedAway(states[i], p);
    }
  }

  lemma NobodyTurnedAway(s: State, p: nat)
    requires ReadableProcs(s) && AllDecode(s.pool) && p in s.procs
    ensures !Enabled(s, Unreadable(p))
  {
    if Enabled(s, Unreadable(p)) {
      assert RoleOf(s.procs[p]) == Library(s.procs[p].op);
      WorkKeepsReadable(s.procs[p].op, s.procs[p].local, s.pool);
    }
  }

  // One after the other.

  /** From `s` process `q` has completed its operation, and everything else is as it was. */
  ghost predicate CompletedOne(s: State, s': State, q: nat, op: Op, result: OpResult, pool: seq<Record>) {
    && Inv(s', pool) && q in s.procs && AllDecode(s'.pool)
    && s'.procs == s.procs[q := Ended(Library(op), Some(result))]
    && s'.flock == s.flock - {q} && s'.fcntl == s.fcntl - {q}
    && s'.log == s.log + [Completed(q, op, result)]
  }

  lemma CompletedLater(s: State, t: State, s': State, q: nat, op: Op, result: OpResult, pool: seq<Record>)
    requires q in s.procs && q in t.procs && t.procs == s.procs[q := t.procs[q]] && t.log == s.log
    requires t.flock - {q} == s.flock - {q} && t.fcntl - {q} == s.fcntl - {q}
    requires CompletedOne(t, s', q, op, result, pool)
    ensures CompletedOne(s, s', q, op, result, pool)
  {
    hide Inv, AllDecode;
  }

  lemma WorkedOn(s: State, q: nat)
    requires Enabled(s, WorkOn(q)) && AllDecode(s.pool) && WritesReadable(s.procs[q].op)
    ensures var t := After(s, WorkOn(q));
            && q in t.procs && t.procs == s.procs[q := t.procs[q]] && t.log == s.log
            && t.flock == s.flock && t.fcntl == s.fcntl
            && t.procs[q].Inside? && t.procs[q].op == s.procs[q].op && AllDecode(t.pool)
  {
    WorkKeepsReadable(s.procs[q].op, s.procs[q].local, s.pool);
    hide Work, LocalOk, Finished, MeetsBad, AllDecode, WritesReadable;
  }

  lemma FinishCompletes(s: State, q: nat, pool: seq<Record>)
    requires Inv(s, pool) && Enabled(s, Finish(q)) && AllDecode(s.pool)
    ensures CompletedOne(s, After(s, Finish(q)), q, s.procs[q].op, ResultOf(s.procs[q].op, s.procs[q].local), pool)
  {
    hide Finished, ResultOf, Inv, AllDecode;
    StepKeepsInv(s, Finish(q), pool);
  }

  /** An operation inside a readable pool goes on to its completion. */
  lemma {:induction false} InsideCompletes(s: State, pool: seq<Record>, q: nat)
    returns (steps: seq<Step>, s': State, result: OpResult)
    requires Inv(s, pool) && q in s.procs && s.procs[q].Inside? && AllDecode(s.pool)
    requires WritesReadable(s.procs[q].op)
    ensures Follows(s, steps, s') && CompletedOne(s, s', q, s.procs[q].op, result, pool)
    decreases StepsLeft(s, q)
  {
    hide Follows, CompletedOne, StepsLeft;
    InsideGoesOn(s, pool, q);
    var op, step := s.procs[q].op, NextInside(s, q);
    if step.Unreadable? {
      WorkKeepsReadable(op, s.procs[q].local, s.pool);
      assert false;
    }
    hide Inv, AllDecode, WritesReadable;
    if step.WorkOn? {
      StepKeepsInv(s, step, pool);
      WorkComesCloser(s, q, pool);
      WorkedOn(s, q);
      var rest;
      rest, s', result := InsideCompletes(After(s, step), pool, q);
      CompletedLater(s, After(s, step), s', q, op, result, pool);
      FollowsCons(s, step, rest, s');
      steps := [step] + rest;
    } else {
      FinishCompletes(s, q, pool);
      steps, s', result := [step], After(s, step), ResultOf(op, s.procs[q].local);
      FollowsNone(s');
      FollowsCons(s, step, [], s');
      assert [step] + [] == [step];
    }
  }

  lemma Entered(s: State, q: nat, op: Op)
    requires q in s.procs && s.procs[q] == Waiting(Library(op)) && s.flock == map[] && s.fcntl == map[]
    ensures Enabled(s, TakeFlock(q)) && Enabled(After(s, TakeFlock(q)), TakeFcntl(q))
    ensures var t := After(After(s, TakeFlock(q)), TakeFcntl(q));
            && t.procs == s.procs[q := Inside(op, START)] && t.log == s.log && t.pool == s.pool
            && t.flock - {q} == map[] && t.fcntl - {q} == map[]
  {
  }

  lemma Gets(q: nat)
    ensures Progress(TakeFlock(q)) && Progress(TakeFcntl(q))
  {
  }

  /** A waiting operation that nobody disturbs takes the locks, completes, and drops them. */
  lemma TakesTurn(s: State, pool: seq<Record>, q: nat, op: Op) returns (steps: seq<Step>, s': State, result: OpResult)
    requires Inv(s, pool) && q in s.procs && s.procs[q] == Waiting(Library(op)) && s.flock == map[] && s.fcntl == map[]
    requires AllDecode(s.pool) && WritesReadable(op)
    ensures Follows(s, steps, s') && CompletedOne(s, s', q, op, result, pool)
  {
    hide *;
    Entered(s, q, op);
    Gets(q);
    var s1 := After(s, TakeFlock(q));
    var s2 := After(s1, TakeFcntl(q));
    StepKeepsInv(s, TakeFlock(q), pool);
    StepKeepsInv(s1, TakeFcntl(q), pool);
    var rest;
    rest, s', result := InsideCompletes(s2, pool, q);
    CompletedLater(s, s2, s', q, op, result, pool);
    FollowsCons(s1, TakeFcntl(q), rest, s');
    FollowsCons(s, TakeFlock(q), [TakeFcntl(q)] + rest, s');
    steps := [TakeFlock(q)] + ([TakeFcntl(q)] + rest);
  }

  /** Processes with these operations, none of which has begun. */
  function Starters(ops: seq<Op>): map<nat, Proc> {
    map p: nat | p < |ops| :: Waiting(Library(ops[p]))
  }

  /** The first `n` operations have completed in their order; the others wait. */
  ghost predicate InTurn(s: State, ops: seq<Op>, n: nat, pool: seq<Record>)
    requires n <= |ops|
  {
    && Inv(s, pool) && AllDecode(s.pool) && s.flock == map[] && s.fcntl == map[] && |s.log| == n
    && (forall i :: 0 <= i < n ==> s.log[i].Completed? && s.log[i].p == i && s.log[i].op == ops[i])
    && (forall p: nat :: p in s.procs <==> p < |ops|)
    && (forall p: nat :: n <= p < |ops| ==> s.procs[p] == Waiting(Library(ops[p])))
  }

  lemma NextTurn(s: State, s': State, ops: seq<Op>, n: nat, result: OpResult, pool: seq<Record>)
    requires n < |ops| && InTurn(s, ops, n, pool) && CompletedOne(s, s', n, ops[n], result, pool)
    ensures InTurn(s', ops, n + 1, pool)
  {
    hide Inv, AllDecode;
  }

  lemma {:induction false} TakeTurns(ops: seq<Op>, n: nat, s: State, pool: seq<Record>)
    returns (steps: seq<Step>, s': State)
    requires n <= |ops| && s == State(Starters(ops), map[], map[], pool, [])
    requires AllDecode(pool) && forall i :: 0 <= i < |ops| ==> WritesReadable(ops[i])
    ensures Follows(s, steps, s') && InTurn(s', ops, n, pool)
  {
    if n == 0 {
      InitInv(s, pool);
      hide Inv, AllDecode;
      steps, s' := [], s;
    } else {
      hide Follows, InTurn, CompletedOne, AllDecode, WritesReadable, Inv;
      var first, t := TakeTurns(ops, n - 1, s, pool);
      NextWaits(t, ops, n - 1, pool);
      var rest, result;
      rest, s', result := TakesTurn(t, pool, n - 1, ops[n - 1]);
      NextTurn(t, s', ops, n - 1, result, pool);
      FollowsConcat(s, first, t, rest, s');
      steps := first + rest;
    }
  }

  lemma NextWaits(s: State, ops: seq<Op>, n: nat, pool: seq<Record>)
    requires n < |ops| && InTurn(s, ops, n, pool)
    ensures Inv(s, pool) && AllDecode(s.pool) && s.flock == map[] && s.fcntl == map[]
    ensures n in s.procs && s.procs[n] == Waiting(Library(ops[n]))
  {
  }

  ghost predicate IsPath(states: seq<State>, steps: seq<Step>) {
    && |states| == |steps| + 1
    && forall i :: 0 <= i < |steps| ==> Enabled(states[i], steps[i]) && states[i + 1] == After(states[i], steps[i])
  }

  lemma {:induction false} PathOf(s: State, steps: seq<Step>, s': State) returns (states: seq<State>)
    requires Follows(s, steps, s')
    ensures IsPath(states, steps) && states[0] == s && states[|steps|] == s'
    decreases |steps|
  {
    if steps == [] {
      states := [s];
    } else {
      var rest := PathOf(After(s, steps[0]), steps[1..], s');
      states := [s] + rest;
      PathCons(s, steps, rest);
    }
  }

  lemma PathCons(s: State, steps: seq<Step>, rest: seq<State>)
    requires steps != [] && Enabled(s, steps[0]) && IsPath(rest, steps[1..]) && rest[0] == After(s, steps[0])
    ensures IsPath([s] + rest, steps)
  {
    hide Enabled, After;
    var states := [s] + rest;
    forall i | 0 <= i < |steps|
      ensures Enabled(states[i], steps[i]) && states[i + 1] == After(states[i], steps[i])
    {
      if i > 0 {
        assert steps[i] == steps[1..][i - 1] && states[i] == rest[i - 1] && states[i + 1] == rest[i];
      }
    }
  }

  lemma NobodyWriting(s: State, pool: seq<Record>)
    requires Inv(s, pool) && s.flock == map[]
    ensures s.pool == Replay(pool, s.log)
  {
    forall p | p in s.procs
      ensures !WriterInside(s.procs[p])
    {
      assert p !in s.flock;
    }
  }

  /**
   Any operations that write UTF-8 can run one after the other on a readable pool: there is a run
   in which they complete in that order, and nothing else happens.
   */
  lemma RunsInTurn(ops: seq<Op>, pool: seq<Record>) returns (states: seq<State>, steps: seq<Step>)
    requires AllDecode(pool) && forall i :: 0 <= i < |ops| ==> WritesReadable(ops[i])
    ensures IsRun(states, steps, pool)
    ensures var log := states[|steps|].log;
            && |log| == |ops| && Explains(pool, log)
            && forall i :: 0 <= i < |ops| ==> log[i].Completed? && log[i].p == i && log[i].op == ops[i]
    ensures states[|steps|].pool == Replay(pool, states[|steps|].log)
  {
    var s := State(Starters(ops), map[], map[], pool, []);
    var last;
    steps, last := TakeTurns(ops, |ops|, s, pool);
    NobodyWriting(last, pool);
    hide Follows, Enabled, After, WritesReadable, AllDecode;
    states := PathOf(s, steps, last);
  }

  // The foreign programs.

  /**
   Two processes can both be writing only if both are foreign, and then exactly if one of them is
   cloud-init and the other the daemon.
   */
  lemma WritersOverlapExactly(states: seq<State>, steps: seq<Step>, pool: seq<Record>, i: nat, p: nat, q: nat)
    requires IsRun(states, steps, pool) && i < |states| && p in states[i].procs && q in states[i].procs && p != q
    requires MayWrite(states[i].procs[p]) && MayWrite(states[i].procs[q])
    ensures states[i].procs[p].ForeignInside? && states[i].procs[q].ForeignInside?
    ensures states[i].procs[p].role.CloudInit? <==> states[i].procs[q].role.Daemon?
    ensures states[i].procs[p].role.Daemon? <==> states[i].procs[q].role.CloudInit?
  {
    RunInv(states, steps, pool, i);
    var s := states[i];
    hide IsRun, PoolMatches, Explains;
    if s.procs[p].Inside? {
      InsideKeepsWritersOut(s, p, q);
    }
    if s.procs[q].Inside? {
      InsideKeepsWritersOut(s, q, p);
    }
    assert p in s.flock || p in s.fcntl;
    assert q in s.flock || q in s.fcntl;
  }

  /** That pair does occur: neither sees the other's lock. Only the library's double lock keeps either out. */
  lemma ForeignersOverlap(pool: seq<Record>)
    ensures exists states: seq<State>, steps: seq<Step> ::
              && IsRun(states, steps, pool)
              && |steps| == 2
              && states[2].procs.Keys == {0, 1}
              && MayWrite(states[2].procs[0]) && MayWrite(states[2].procs[1])
  {
    var s0 := State(map[0 := Waiting(Daemon(Exclusive)), 1 := Waiting(CloudInit)], map[], map[], pool, []);
    var s1 := After(s0, ForeignTake(0));
    var s2 := After(s1, ForeignTake(1));
    var states, steps := [s0, s1, s2], [ForeignTake(0), ForeignTake(1)];
    assert IsRun(states, steps, pool);
  }
}
