/**
 Reference counting and closing of one descriptor, from its creation to its
 release: any number of threads run socket calls, epoll_ctl and close on it, one
 atomic memory access at a time, in any interleaving.
 */
module FdProtocol {

  /** FD_OPEN, FD_CLOSING and FD_CLOSE. */
  datatype Status = Open | Closing | Closed

  datatype Call = SocketCall | EpollCtl | CloseCall

  /** INC_FD_REF .. UNLOCK_BASE: counted; read FD_OPEN; read another status. */
  datatype OpPc = OpIn | OpUse | OpOut

  /**
   LOCK_EPOLL_CTRL .. UNLOCK_EPOLL_CTRL: counted and waiting for the lock; before and
   after nstack_getValidInf read FD_OPEN; in the body; second read failed; unlocked.
   */
  datatype EpPc = EpIn | EpLocked | EpCheck | EpUse(checked: bool) | EpFail | EpOut

  /**
   nstack_close: waiting for the lock; before the status test; test passed or
   failed; FD_CLOSING written; unlocked with the reference of the open still counted.
   */
  datatype ClPc = ClWait | ClLocked | ClOk | ClBad | ClSet | ClDec

  /**
   release_fd: waiting for the lock; before the status test; before the count test;
   tests failed or passed; FD_CLOSE written; count, lock and status of the record reset.
   */
  datatype RelPc = RelWait | RelLocked | RelStat | RelSkip | RelGo | RelWork | RelZero | RelFree | RelReset

  /** Where a thread is; each step reads or writes one shared field. */
  datatype Pc = Idle | InOp(op: OpPc) | InEp(ep: EpPc) | InCl(cl: ClPc) | InRel(rel: RelPc)

  /**
   The lock record of the descriptor. The last five components are history: whether
   count and lock were reset, whether since then no thread has unlocked a lock that was
   free, and how many closes and releases succeeded.
   */
  datatype Shared = Shared(
    fdRef: int,
    status: Status,
    locked: bool,
    countReset: bool,
    lockReset: bool,
    excess: bool,
    closes: nat,
    releases: nat)

  datatype State = State(sh: Shared, pcs: seq<Pc>)

  /** Outcome of one step of one thread. */
  datatype Local = Local(sh: Shared, pc: Pc)

  /** A descriptor just opened: the open holds one reference. */
  function Init(n: nat): State {
    State(Shared(1, Open, false, false, false, false, 0, 0), seq(n, _ => Idle))
  }

  /** atomic_dec; the thread that brings the count to zero goes on to release_fd. */
  function Drop(sh: Shared): Local {
    Local(sh.(fdRef := sh.fdRef - 1), if sh.fdRef - 1 == 0 then InRel(RelWait) else Idle)
  }

  /** Spin lock: the thread stays at pc while the lock is taken. */
  function Acquire(sh: Shared, pc: Pc, pc': Pc): Local {
    if sh.locked then Local(sh, pc) else Local(sh.(locked := true), pc')
  }

  function Release(sh: Shared, pc: Pc): Local {
    Local(sh.(locked := false, excess := sh.excess && sh.locked), pc)
  }

  function StartStep(sh: Shared, call: Call): Local {
    match call
    case SocketCall => Local(sh.(fdRef := sh.fdRef + 1), InOp(OpIn))
    case EpollCtl => Local(sh.(fdRef := sh.fdRef + 1), InEp(EpIn))
    case CloseCall => Local(sh, if sh.status == Open then InCl(ClWait) else Idle)
  }

  function OpStep(sh: Shared, op: OpPc): Local {
    match op
    case OpIn => Local(sh, InOp(if sh.status == Open then OpUse else OpOut))
    case OpUse => Drop(sh)
    case OpOut => Drop(sh)
  }

  function EpStep(sh: Shared, ep: EpPc): Local {
    match ep
    case EpIn => Acquire(sh, InEp(EpIn), InEp(EpLocked))
    case EpLocked => Local(sh, InEp(if sh.status == Open then EpCheck else EpUse(false)))
    case EpCheck => Local(sh, InEp(if sh.status == Open then EpUse(true) else EpFail))
    case EpUse(_) => Release(sh, InEp(EpOut))
    case EpFail => Release(sh, InEp(EpOut))
    case EpOut => Drop(sh)
  }

  function ClStep(sh: Shared, cl: ClPc): Local {
    match cl
    case ClWait => Acquire(sh, InCl(ClWait), InCl(ClLocked))
    case ClLocked => Local(sh, InCl(if sh.status == Open then ClOk else ClBad))
    case ClBad => Release(sh, Idle)
    case ClOk => Local(sh.(status := Closing, closes := sh.closes + 1), InCl(ClSet))
    case ClSet => Release(sh, InCl(ClDec))
    case ClDec => Local(sh.(fdRef := sh.fdRef - 1), if sh.fdRef - 1 > 0 then Idle else InRel(RelWait))
  }

  function RelStep(sh: Shared, rel: RelPc): Local {
    match rel
    case RelWait => Acquire(sh, InRel(RelWait), InRel(RelLocked))
    case RelLocked => Local(sh, InRel(if sh.status == Closing then RelStat else RelSkip))
    case RelStat => Local(sh, InRel(if sh.fdRef > 0 then RelSkip else RelGo))
    case RelSkip => Release(sh, Idle)
    case RelGo => Local(sh.(status := Closed, releases := sh.releases + 1), InRel(RelWork))
    case RelWork => Local(sh.(fdRef := 0, countReset := true), InRel(RelZero))
    case RelZero => Local(sh.(locked := false, lockReset := true, excess := true), InRel(RelFree))
    case RelFree => Local(sh.(status := Closed), InRel(RelReset))
    case RelReset => Release(sh, Idle)
  }

  /** One step of a thread at pc; an idle thread starts the given call. */
  function ThreadStep(sh: Shared, pc: Pc, call: Call): Local {
    match pc
    case Idle => StartStep(sh, call)
    case InOp(op) => OpStep(sh, op)
    case InEp(ep) => EpStep(sh, ep)
    case InCl(cl) => ClStep(sh, cl)
    case InRel(rel) => RelStep(sh, rel)
  }

  function Step(s: State, t: nat, call: Call): State
    requires t < |s.pcs|
  {
    var l := ThreadStep(s.sh, s.pcs[t], call);
    State(l.sh, s.pcs[t := l.pc])
  }

  datatype Move = Move(thread: nat, call: Call)

  /** The state after a schedule; moves of threads that do not exist do nothing. */
  function Run(s: State, moves: seq<Move>): State
    decreases moves
  {
    if moves == [] then s
    else
      var last := moves[|moves| - 1];
      var s' := Run(s, moves[..|moves| - 1]);
      if last.thread < |s'.pcs| then Step(s', last.thread, last.call) else s'
  }

  // ---------- counting threads ----------

  ghost function Bit(b: bool): nat {
    if b then 1 else 0
  }

  ghost function Count(p: Pc -> bool, pcs: seq<Pc>): nat {
    if pcs == [] then 0 else Count(p, pcs[..|pcs| - 1]) + Bit(p(pcs[|pcs| - 1]))
  }

  lemma {:induction false} CountMove(p: Pc -> bool, pcs: seq<Pc>, t: nat, pc: Pc)
    requires t < |pcs|
    ensures Count(p, pcs[t := pc]) + Bit(p(pcs[t])) == Count(p, pcs) + Bit(p(pc))
    decreases |pcs|
  {
    var n := |pcs| - 1;
    if t < n {
      assert pcs[t := pc][..n] == pcs[..n][t := pc];
      CountMove(p, pcs[..n], t, pc);
    } else {
      assert pcs[t := pc][..n] == pcs[..n];
    }
  }

  lemma {:induction false} CountNone(p: Pc -> bool, pcs: seq<Pc>)
    ensures Count(p, pcs) == 0 <==> forall t :: 0 <= t < |pcs| ==> !p(pcs[t])
    decreases |pcs|
  {
    if pcs != [] {
      var n := |pcs| - 1;
      CountNone(p, pcs[..n]);
      assert forall t :: 0 <= t < n ==> pcs[t] == pcs[..n][t];
    }
  }

  lemma {:induction false} CountTwo(p: Pc -> bool, pcs: seq<Pc>)
    ensures Count(p, pcs) >= 2 <==> exists t, u :: 0 <= t < u < |pcs| && p(pcs[t]) && p(pcs[u])
    decreases |pcs|
  {
    if pcs != [] {
      var n := |pcs| - 1;
      CountTwo(p, pcs[..n]);
      CountNone(p, pcs[..n]);
      assert forall t :: 0 <= t < n ==> pcs[t] == pcs[..n][t];
    }
  }

  /** When at most one thread is in a class that excludes idle threads, a member is alone in it. */
  lemma OnlyMember(p: Pc -> bool, pcs: seq<Pc>, t: nat)
    requires t < |pcs| && p(pcs[t]) && Count(p, pcs) <= 1 && !p(Idle)
    ensures forall u :: 0 <= u < |pcs| && u != t ==> !p(pcs[u])
  {
    CountMove(p, pcs, t, Idle);
    CountNone(p, pcs[t := Idle]);
    assert forall u :: 0 <= u < |pcs| && u != t ==> pcs[u] == pcs[t := Idle][u];
  }

  // ---------- classes of positions ----------

  /** Holds a counted reference of its own. */
  predicate Holds(pc: Pc) {
    pc.InOp? || pc.InEp?
  }

  /** Owns the close lock. */
  predicate InLock(pc: Pc) {
    match pc
    case InEp(ep) => !ep.EpIn? && !ep.EpOut?
    case InCl(cl) => !cl.ClWait? && !cl.ClDec?
    case InRel(rel) => !rel.RelWait?
    case _ => false
  }

  /** Has closed the descriptor but not yet dropped the reference of the open. */
  predicate Pending(pc: Pc) {
    pc.InCl? && (pc.cl.ClSet? || pc.cl.ClDec?)
  }

  /** Read FD_OPEN and uses the descriptor. */
  predicate Checked(pc: Pc) {
    match pc
    case InOp(op) => op.OpUse?
    case InEp(ep) => ep.EpCheck? || (ep.EpUse? && ep.checked)
    case _ => false
  }

  /** Refused because of the status it read. */
  predicate TurnedAway(pc: Pc) {
    pc == InOp(OpOut) || pc == InCl(ClBad) || pc == InEp(EpFail)
  }

  /** On its way to the tests in release_fd, or past them but not yet releasing. */
  predicate Releasing(pc: Pc) {
    pc.InRel? && (pc.rel.RelWait? || pc.rel.RelLocked? || pc.rel.RelStat? || pc.rel.RelGo?)
  }

  /** Past the tests in release_fd. */
  predicate Going(pc: Pc) {
    pc.InRel? && (pc.rel.RelGo? || pc.rel.RelWork?)
  }

  // ---------- the invariant ----------

  /** What a thread's position says about the shared record. */
  ghost predicate PosOk(sh: Shared, pc: Pc) {
    && (pc.InCl? && pc.cl.ClOk? ==> sh.status == Open)
    && (TurnedAway(pc) ==> sh.status != Open)
    && (Pending(pc) ==> sh.status == Closing)
    && (Checked(pc) ==> sh.status != Closed)
    && (pc.InEp? ==>
        (Checked(pc) ==> sh.status == Open) && !pc.ep.EpFail? && (pc.ep == EpUse(false) ==> sh.status != Open))
    && (pc.InRel? ==>
      && (pc.rel.RelStat? || pc.rel.RelGo? ==> sh.status == Closing)
      && (pc.rel.RelWork? ==> sh.status == Closed && !sh.countReset)
      && (pc.rel.RelZero? ==> sh.countReset && !sh.lockReset)
      && (pc.rel.RelFree? || pc.rel.RelReset? ==> sh.lockReset))
  }

  /** History and status agree. */
  ghost predicate HistoryOk(sh: Shared) {
    && (sh.countReset ==> sh.status == Closed) && (sh.lockReset ==> sh.countReset)
    && sh.closes == Bit(sh.status != Open) && sh.releases == Bit(sh.status == Closed)
  }

  /** The lock bit counts its owners, but for the one in whose hands it was reset. */
  ghost predicate LockOk(sh: Shared, inLock: nat) {
    inLock == Bit(sh.locked) + Bit(sh.excess) && (sh.excess ==> sh.lockReset)
  }

  /** Until it is reset the count is the number of references held. */
  ghost predicate RefOk(sh: Shared, holds: nat, pending: nat) {
    !sh.countReset ==> sh.fdRef == holds + (if sh.status == Open then 1 else pending)
  }

  ghost predicate Counters(s: State) {
    LockOk(s.sh, Count(InLock, s.pcs)) && RefOk(s.sh, Count(Holds, s.pcs), Count(Pending, s.pcs))
  }

  ghost predicate Positions(s: State) {
    forall t :: 0 <= t < |s.pcs| ==> PosOk(s.sh, s.pcs[t])
  }

  /** Past the tests of release_fd, no thread uses the descriptor and the reference of the open is gone. */
  ghost predicate Quiet(s: State) {
    Count(Going, s.pcs) > 0 ==> Count(Checked, s.pcs) == 0 && Count(Pending, s.pcs) == 0
  }

  /** A closed descriptor without references has a thread on its way to release it. */
  ghost predicate NotLost(s: State) {
    s.sh.status == Closing && s.sh.fdRef <= 0 ==> Count(Releasing, s.pcs) > 0
  }

  ghost predicate Inv(s: State) {
    HistoryOk(s.sh) && Positions(s) && Counters(s) && Quiet(s) && NotLost(s)
  }

  lemma InitInv(n: nat)
    ensures Inv(Init(n))
  {
    var s := Init(n);
    CountNone(InLock, s.pcs);
    CountNone(Holds, s.pcs);
    CountNone(Going, s.pcs);
  }

  // ---------- one step of one thread ----------

  lemma LocalHistory(sh: Shared, pc: Pc, call: Call)
    requires PosOk(sh, pc) && HistoryOk(sh)
    ensures HistoryOk(ThreadStep(sh, pc, call).sh)
  {
  }

  lemma LocalPosition(sh: Shared, pc: Pc, call: Call)
    requires PosOk(sh, pc) && HistoryOk(sh)
    ensures var l := ThreadStep(sh, pc, call); PosOk(l.sh, l.pc)
  {
    match pc
    case InRel(rel) => LocalRelease(sh, rel);
    case InEp(ep) => LocalEpoll(sh, ep);
    case _ =>
  }

  lemma LocalEpoll(sh: Shared, ep: EpPc)
    requires PosOk(sh, InEp(ep)) && HistoryOk(sh)
    ensures var l := EpStep(sh, ep); PosOk(l.sh, l.pc)
  {
  }

  lemma LocalRelease(sh: Shared, rel: RelPc)
    requires PosOk(sh, InRel(rel)) && HistoryOk(sh)
    ensures var l := RelStep(sh, rel); PosOk(l.sh, l.pc)
  {
  }

  /** A thread elsewhere keeps its position right: it neither shares the lock nor uses a descriptor past the tests. */
  lemma LocalOther(sh: Shared, pc: Pc, call: Call, other: Pc)
    requires PosOk(sh, pc) && HistoryOk(sh) && PosOk(sh, other)
    requires InLock(pc) && !sh.lockReset ==> !InLock(other)
    requires Going(pc) ==> !Checked(other) && !Pending(other)
    ensures PosOk(ThreadStep(sh, pc, call).sh, other)
  {
  }

  lemma LocalLock(sh: Shared, pc: Pc, call: Call, inLock: nat, inLock': nat)
    requires PosOk(sh, pc) && LockOk(sh, inLock) && (InLock(pc) ==> inLock > 0)
    requires inLock' + Bit(InLock(pc)) == inLock + Bit(InLock(ThreadStep(sh, pc, call).pc))
    ensures LockOk(ThreadStep(sh, pc, call).sh, inLock')
  {
  }

  lemma LocalRef(sh: Shared, pc: Pc, call: Call, holds: nat, pending: nat, holds': nat, pending': nat)
    requires PosOk(sh, pc) && HistoryOk(sh) && RefOk(sh, holds, pending)
    requires sh.status == Open ==> pending == 0
    requires var pc' := ThreadStep(sh, pc, call).pc;
      && holds' + Bit(Holds(pc)) == holds + Bit(Holds(pc'))
      && pending' + Bit(Pending(pc)) == pending + Bit(Pending(pc'))
    ensures RefOk(ThreadStep(sh, pc, call).sh, holds', pending')
  {
    match pc
    case InRel(rel) => ReleaseRef(sh, rel, holds, pending);
    case _ =>
  }

  lemma ReleaseRef(sh: Shared, rel: RelPc, holds: nat, pending: nat)
    requires PosOk(sh, InRel(rel)) && HistoryOk(sh) && RefOk(sh, holds, pending)
    ensures var l := RelStep(sh, rel); RefOk(l.sh, holds, pending) && !Holds(l.pc) && !Pending(l.pc)
  {
  }

  lemma LocalQuiet(sh: Shared, pc: Pc, call: Call, holds: nat, pending: nat, going: nat, checked: nat, pending': nat,
                   going': nat, checked': nat)
    requires PosOk(sh, pc) && HistoryOk(sh) && RefOk(sh, holds, pending) && checked <= holds
    requires going > 0 ==> checked == 0 && pending == 0
    requires sh.status == Open ==> going == 0
    requires var pc' := ThreadStep(sh, pc, call).pc;
      && pending' + Bit(Pending(pc)) == pending + Bit(Pending(pc'))
      && going' + Bit(Going(pc)) == going + Bit(Going(pc'))
      && checked' + Bit(Checked(pc)) == checked + Bit(Checked(pc'))
    ensures going' > 0 ==> checked' == 0 && pending' == 0
  {
  }

  lemma LocalNotLost(sh: Shared, pc: Pc, call: Call, holds: nat, pending: nat, releasing: nat, releasing': nat)
    requires PosOk(sh, pc) && HistoryOk(sh) && RefOk(sh, holds, pending)
    requires Holds(pc) ==> holds > 0
    requires sh.status == Closing && sh.fdRef <= 0 ==> releasing > 0
    requires releasing' + Bit(Releasing(pc)) == releasing + Bit(Releasing(ThreadStep(sh, pc, call).pc))
    ensures var sh' := ThreadStep(sh, pc, call).sh; sh'.status == Closing && sh'.fdRef <= 0 ==> releasing' > 0
  {
  }

  // ---------- one step of the system ----------

  lemma {:induction false} CountSub(pcs: seq<Pc>)
    ensures Count(Checked, pcs) <= Count(Holds, pcs)
    decreases |pcs|
  {
    if pcs != [] {
      CountSub(pcs[..|pcs| - 1]);
    }
  }

  /** Facts about all threads that a step of thread t relies on. */
  lemma Others(s: State, t: nat)
    requires Inv(s) && t < |s.pcs|
    ensures InLock(s.pcs[t]) && !s.sh.lockReset ==> forall u :: 0 <= u < |s.pcs| && u != t ==> !InLock(s.pcs[u])
    ensures Going(s.pcs[t]) ==> forall u :: 0 <= u < |s.pcs| ==> !Checked(s.pcs[u]) && !Pending(s.pcs[u])
    ensures s.sh.status == Open ==> Count(Going, s.pcs) == 0 && Count(Pending, s.pcs) == 0
    ensures Holds(s.pcs[t]) ==> Count(Holds, s.pcs) > 0
    ensures InLock(s.pcs[t]) ==> Count(InLock, s.pcs) > 0
  {
    CountNone(InLock, s.pcs);
    CountNone(Pending, s.pcs);
    CountNone(Going, s.pcs);
    CountNone(Checked, s.pcs);
    CountNone(Holds, s.pcs);
    if InLock(s.pcs[t]) && !s.sh.lockReset {
      OnlyMember(InLock, s.pcs, t);
    }
  }

  lemma StepPositions(s: State, t: nat, call: Call)
    requires Inv(s) && t < |s.pcs|
    ensures Positions(Step(s, t, call)) && HistoryOk(Step(s, t, call).sh)
  {
    hide Count, ThreadStep, PosOk, HistoryOk, Going, Checked, Pending, InLock, Holds;
    Others(s, t);
    LocalHistory(s.sh, s.pcs[t], call);
    LocalPosition(s.sh, s.pcs[t], call);
    var s' := Step(s, t, call);
    forall u | 0 <= u < |s'.pcs| ensures PosOk(s'.sh, s'.pcs[u]) {
      if u != t {
        LocalOther(s.sh, s.pcs[t], call, s.pcs[u]);
      }
    }
  }

  lemma StepCounters(s: State, t: nat, call: Call)
    requires Inv(s) && t < |s.pcs|
    ensures Counters(Step(s, t, call))
  {
    hide Count, ThreadStep, PosOk, HistoryOk, LockOk, RefOk, Going, Checked, Pending, InLock, Holds, Releasing, Bit;
    Others(s, t);
    var pcs := s.pcs;
    var pc' := ThreadStep(s.sh, pcs[t], call).pc;
    var pcs' := pcs[t := pc'];
    CountMove(InLock, pcs, t, pc');
    CountMove(Holds, pcs, t, pc');
    CountMove(Pending, pcs, t, pc');
    LocalLock(s.sh, pcs[t], call, Count(InLock, pcs), Count(InLock, pcs'));
    LocalRef(s.sh, pcs[t], call, Count(Holds, pcs), Count(Pending, pcs), Count(Holds, pcs'), Count(Pending, pcs'));
  }

  lemma StepQuiet(s: State, t: nat, call: Call)
    requires Inv(s) && t < |s.pcs|
    ensures Quiet(Step(s, t, call))
  {
    hide Count, ThreadStep, PosOk, HistoryOk, LockOk, RefOk, Going, Checked, Pending, InLock, Holds, Releasing, Bit;
    Others(s, t);
    CountSub(s.pcs);
    var pcs := s.pcs;
    var pc' := ThreadStep(s.sh, pcs[t], call).pc;
    var pcs' := pcs[t := pc'];
    CountMove(Pending, pcs, t, pc');
    CountMove(Going, pcs, t, pc');
    CountMove(Checked, pcs, t, pc');
    LocalQuiet(s.sh, pcs[t], call, Count(Holds, pcs), Count(Pending, pcs), Count(Going, pcs), Count(Checked, pcs),
               Count(Pending, pcs'), Count(Going, pcs'), Count(Checked, pcs'));
  }

  lemma StepNotLost(s: State, t: nat, call: Call)
    requires Inv(s) && t < |s.pcs|
    ensures NotLost(Step(s, t, call))
  {
    hide Count, ThreadStep, PosOk, HistoryOk, LockOk, RefOk, Going, Checked, Pending, InLock, Holds, Releasing, Bit;
    Others(s, t);
    var pcs := s.pcs;
    var pc' := ThreadStep(s.sh, pcs[t], call).pc;
    CountMove(Releasing, pcs, t, pc');
    LocalNotLost(s.sh, pcs[t], call, Count(Holds, pcs), Count(Pending, pcs), Count(Releasing, pcs),
                 Count(Releasing, pcs[t := pc']));
  }

  /** Every step of every thread keeps the invariant. */
  lemma StepInv(s: State, t: nat, call: Call)
    requires Inv(s) && t < |s.pcs|
    ensures Inv(Step(s, t, call))
  {
    hide Step, HistoryOk, Positions, Counters, Quiet, NotLost;
    StepPositions(s, t, call);
    StepCounters(s, t, call);
    StepQuiet(s, t, call);
    StepNotLost(s, t, call);
  }

  // ---------- whole runs ----------

  /** The invariant holds after every schedule of every number of threads. */
  lemma {:induction false} RunInv(n: nat, moves: seq<Move>)
    ensures Inv(Run(Init(n), moves)) && |Run(Init(n), moves).pcs| == n
    decreases moves
  {
    hide Inv, Step;
    if moves == [] {
      InitInv(n);
    } else {
      RunInv(n, moves[..|moves| - 1]);
      var s, m := Run(Init(n), moves[..|moves| - 1]), moves[|moves| - 1];
      if m.thread < n {
        StepInv(s, m.thread, m.call);
        StepSize(s, m.thread, m.call);
      }
    }
  }

  lemma StepSize(s: State, t: nat, call: Call)
    requires t < |s.pcs|
    ensures |Step(s, t, call).pcs| == |s.pcs|
  {
  }

  /** In every run at most one close succeeds and the release is done at most once. */
  lemma OnceOnly(n: nat, moves: seq<Move>)
    ensures var sh := Run(Init(n), moves).sh; sh.closes <= 1 && sh.releases <= sh.closes
  {
    hide Run;
    RunInv(n, moves);
  }

  /** In every run a call is turned away only from a descriptor that is not open. */
  lemma OnlyClosedRefuses(n: nat, moves: seq<Move>, t: nat)
    requires t < n
    ensures var s := Run(Init(n), moves); |s.pcs| == n && (TurnedAway(s.pcs[t]) ==> s.sh.status != Open)
  {
    hide Run;
    RunInv(n, moves);
  }

  /** Thread t takes k steps in a row. */
  function Alone(s: State, t: nat, call: Call, k: nat): (r: State)
    requires t < |s.pcs|
    ensures |r.pcs| == |s.pcs|
  {
    if k == 0 then s else Step(Alone(s, t, call, k - 1), t, call)
  }

  lemma AloneNext(s: State, t: nat, call: Call, k: nat, l: Local)
    requires t < |s.pcs| && Alone(s, t, call, k) == State(l.sh, s.pcs[t := l.pc])
    ensures var n := ThreadStep(l.sh, l.pc, call); Alone(s, t, call, k + 1) == State(n.sh, s.pcs[t := n.pc])
  {
  }

  lemma AloneStart(s: State, t: nat, call: Call)
    requires t < |s.pcs|
    ensures Alone(s, t, call, 0) == State(s.sh, s.pcs[t := s.pcs[t]])
  {
  }

  /**
   Whatever the other threads hold: a socket call of an idle thread is served if and only
   if the descriptor is open, with a reference of its own, and gives the reference back.
   */
  lemma SocketServed(s: State, t: nat)
    requires t < |s.pcs| && s.pcs[t].Idle?
    ensures var pc := InOp(if s.sh.status == Open then OpUse else OpOut);
            Alone(s, t, SocketCall, 2) == State(s.sh.(fdRef := s.sh.fdRef + 1), s.pcs[t := pc])
    ensures var pc := if s.sh.fdRef == 0 then InRel(RelWait) else Idle;
            Alone(s, t, SocketCall, 3) == State(s.sh, s.pcs[t := pc])
  {
    hide Alone;
    var more := s.sh.(fdRef := s.sh.fdRef + 1);
    AloneStart(s, t, SocketCall);
    AloneNext(s, t, SocketCall, 0, Local(s.sh, Idle));
    AloneNext(s, t, SocketCall, 1, Local(more, InOp(OpIn)));
    AloneNext(s, t, SocketCall, 2, Local(more, InOp(if s.sh.status == Open then OpUse else OpOut)));
  }

  /** An idle thread closes an open descriptor whose lock is free, whatever references there are. */
  lemma CloseServed(s: State, t: nat)
    requires t < |s.pcs| && s.pcs[t].Idle? && s.sh.status == Open && !s.sh.locked
    ensures Alone(s, t, CloseCall, 3) == State(s.sh.(locked := true), s.pcs[t := InCl(ClOk)])
    ensures var closed := s.sh.(status := Closing, closes := s.sh.closes + 1);
            Alone(s, t, CloseCall, 5) == State(closed, s.pcs[t := InCl(ClDec)])
  {
    hide Alone;
    var locked := s.sh.(locked := true);
    AloneStart(s, t, CloseCall);
    AloneNext(s, t, CloseCall, 0, Local(s.sh, Idle));
    AloneNext(s, t, CloseCall, 1, Local(s.sh, InCl(ClWait)));
    AloneNext(s, t, CloseCall, 2, Local(locked, InCl(ClLocked)));
    AloneNext(s, t, CloseCall, 3, Local(locked, InCl(ClOk)));
    AloneNext(s, t, CloseCall, 4, Local(locked.(status := Closing, closes := s.sh.closes + 1), InCl(ClSet)));
  }

  /** The body of epoll_ctl runs with both reads passed if and only if the descriptor is open. */
  lemma EpollServed(s: State, t: nat)
    requires t < |s.pcs| && s.pcs[t].Idle? && !s.sh.locked
    ensures var held := s.sh.(fdRef := s.sh.fdRef + 1, locked := true);
            if s.sh.status == Open then Alone(s, t, EpollCtl, 4) == State(held, s.pcs[t := InEp(EpUse(true))])
            else Alone(s, t, EpollCtl, 3) == State(held, s.pcs[t := InEp(EpUse(false))])
  {
    hide Alone;
    var more := s.sh.(fdRef := s.sh.fdRef + 1);
    AloneStart(s, t, EpollCtl);
    AloneNext(s, t, EpollCtl, 0, Local(s.sh, Idle));
    AloneNext(s, t, EpollCtl, 1, Local(more, InEp(EpIn)));
    AloneNext(s, t, EpollCtl, 2, Local(more.(locked := true), InEp(EpLocked)));
    if s.sh.status == Open {
      AloneNext(s, t, EpollCtl, 3, Local(more.(locked := true), InEp(EpCheck)));
    }
  }

  /** In every run, no thread that read FD_OPEN still uses the descriptor when it is released, or later. */
  lemma NotReleasedInUse(n: nat, moves: seq<Move>, t: nat, u: nat)
    requires t < n && u < n
    ensures var s := Run(Init(n), moves);
            |s.pcs| == n && (Going(s.pcs[t]) || s.sh.status == Closed ==> !Checked(s.pcs[u]))
  {
    hide Run;
    RunInv(n, moves);
    Others(Run(Init(n), moves), t);
  }

  /** In every run, once a close succeeded and all threads are idle again, the descriptor is released. */
  lemma NotLeaked(n: nat, moves: seq<Move>)
    requires var s := Run(Init(n), moves); s.sh.closes > 0 && forall t :: 0 <= t < |s.pcs| ==> s.pcs[t].Idle?
    ensures var s := Run(Init(n), moves); s.sh.status == Closed && s.sh.releases == 1
  {
    hide Run;
    RunInv(n, moves);
    var s := Run(Init(n), moves);
    CountNone(Releasing, s.pcs);
    CountNone(Holds, s.pcs);
    CountNone(Pending, s.pcs);
  }

  /**
   In every run two threads own the close lock exactly when it is taken and no thread has
   unlocked it while it was free since the release reset it; three never do.
   */
  lemma LockExclusive(n: nat, moves: seq<Move>)
    ensures var s := Run(Init(n), moves);
      && |s.pcs| == n && Count(InLock, s.pcs) <= 2 && (s.sh.excess ==> s.sh.lockReset)
      && (s.sh.locked && s.sh.excess <==> exists t, u :: 0 <= t < u < n && InLock(s.pcs[t]) && InLock(s.pcs[u]))
  {
    hide Run, InLock;
    RunInv(n, moves);
    CountTwo(InLock, Run(Init(n), moves).pcs);
  }

  /** Thread 0 resets the lock it owns, and thread 1 takes it before thread 0 has left. */
  lemma LockShared() returns (moves: seq<Move>)
    ensures var s := Run(Init(2), moves); |s.pcs| == 2 && InLock(s.pcs[0]) && InLock(s.pcs[1])
  {
    hide Run, Step;
    moves := CloseRun(12);
    for k := 0 to 2
      invariant Run(Init(2), moves) == SharedScript(k)
    {
      SharedScriptStep(k);
      RunOne(Init(2), moves, Move(1, EpollCtl));
      moves := moves + [Move(1, EpollCtl)];
    }
  }

  /** States of thread 1 entering epoll_ctl after the lock was reset. */
  function SharedScript(k: nat): (s: State)
    requires k <= 2
    ensures |s.pcs| == 2 && (k == 0 ==> s == CloseScript(12)) && (k == 2 ==> InLock(s.pcs[0]) && InLock(s.pcs[1]))
  {
    State(Shared(if k > 0 then 1 else 0, Closed, k == 2, true, true, true, 1, 1),
          [InRel(RelFree), [Idle, InEp(EpIn), InEp(EpLocked)][k]])
  }

  lemma SharedScriptStep(k: nat)
    requires k < 2
    ensures Step(SharedScript(k), 1, EpollCtl) == SharedScript(k + 1)
  {
  }

  /** Thread 0 makes the first steps of closing and releasing the descriptor. */
  lemma CloseRun(n: nat) returns (moves: seq<Move>)
    requires n <= 14
    ensures Run(Init(2), moves) == CloseScript(n)
  {
    hide Run, Step;
    moves := [];
    RunNone(Init(2));
    CloseScript0();
    for k := 0 to n
      invariant Run(Init(2), moves) == CloseScript(k)
    {
      CloseScriptStep(k);
      RunOne(Init(2), moves, Move(0, CloseCall));
      moves := moves + [Move(0, CloseCall)];
    }
  }

  /**
   In every run the second status test of LOCK_EPOLL_CTRL never fails, and the body of
   epoll_ctl runs on an open descriptor exactly when nstack_getValidInf read FD_OPEN.
   */
  lemma EpollBody(n: nat, moves: seq<Move>, t: nat)
    requires t < n
    ensures var s := Run(Init(n), moves);
      && |s.pcs| == n && s.pcs[t] != InEp(EpFail)
      && (s.pcs[t].InEp? && s.pcs[t].ep.EpUse? ==> (s.pcs[t].ep.checked <==> s.sh.status == Open))
  {
    hide Run;
    RunInv(n, moves);
  }

  lemma RunOne(s: State, moves: seq<Move>, m: Move)
    requires m.thread < |Run(s, moves).pcs|
    ensures Run(s, moves + [m]) == Step(Run(s, moves), m.thread, m.call)
  {
    assert (moves + [m])[..|moves|] == moves;
  }

  /** Thread 0 closes and releases the descriptor, then thread 1 runs the body of epoll_ctl on it. */
  lemma EpollAfterRelease() returns (moves: seq<Move>)
    ensures var s := Run(Init(2), moves); s.sh.status == Closed && |s.pcs| == 2 && s.pcs[1] == InEp(EpUse(false))
  {
    hide Run, Step;
    moves := CloseRun(14);
    for k := 0 to 3
      invariant Run(Init(2), moves) == EpollScript(k)
    {
      EpollScriptStep(k);
      RunOne(Init(2), moves, Move(1, EpollCtl));
      moves := moves + [Move(1, EpollCtl)];
    }
  }

  lemma RunNone(s: State)
    ensures Run(s, []) == s
  {
  }

  /** States of thread 0 closing and releasing, thread 1 idle. */
  function CloseScript(k: nat): (s: State)
    requires k <= 14
    ensures |s.pcs| == 2
  {
    var close := [Idle, InCl(ClWait), InCl(ClLocked), InCl(ClOk), InCl(ClSet), InCl(ClDec), InRel(RelWait),
                  InRel(RelLocked), InRel(RelStat), InRel(RelGo), InRel(RelWork), InRel(RelZero), InRel(RelFree),
                  InRel(RelReset), Idle];
    State(Shared(if k <= 5 then 1 else 0,
                 if k < 4 then Open else if k < 10 then Closing else Closed,
                 (2 <= k <= 4) || (7 <= k <= 11), k >= 11, k >= 12, 12 <= k <= 13,
                 if k < 4 then 0 else 1, if k < 10 then 0 else 1),
          [close[k], Idle])
  }

  /** States of thread 1 in epoll_ctl after that. */
  function EpollScript(k: nat): (s: State)
    requires k <= 3
    ensures |s.pcs| == 2 && (k == 0 ==> s == CloseScript(14)) &&
            (k == 3 ==> s.sh.status == Closed && s.pcs[1] == InEp(EpUse(false)))
  {
    State(Shared(if k > 0 then 1 else 0, Closed, k >= 2, true, true, false, 1, 1),
          [Idle, [Idle, InEp(EpIn), InEp(EpLocked), InEp(EpUse(false))][k]])
  }

  lemma CloseScript0()
    ensures CloseScript(0) == Init(2)
  {
    assert seq(2, _ => Idle) == [Idle, Idle];
  }

  lemma CloseScriptStep(k: nat)
    requires k < 14
    ensures Step(CloseScript(k), 0, CloseCall) == CloseScript(k + 1)
  {
  }

  lemma EpollScriptStep(k: nat)
    requires k < 3
    ensures Step(EpollScript(k), 1, EpollCtl) == EpollScript(k + 1)
  {
  }
}
