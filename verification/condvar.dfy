/**
 * port_win.cc: a condition variable made of a mutex, a counter and two semaphores, as steps of
 * any number of threads. A step is the smallest piece of the code that other threads can see:
 * locking or unlocking a mutex, one semaphore call, or a change to `waiting_`, which only the
 * holder of `wait_mtx_` touches.
 */
module CondVars {
  import opened Options
  import opened Sequences

  type Thread = nat

  /** Where a thread is. `held` says whether a signaller owns `mu_`, which `Signal` does not ask for. */
  datatype Pc =
    | Outside                                    // client code, without mu_
    | Inside                                     // client code, holding mu_
    // Wait, lines 86 to 95; mu_ is held up to WUnlockMu
    | WLock | WCount | WUnlock | WUnlockMu | WSem1 | WSem2 | WLockMu
    // Signal, lines 99 to 107; `saw` is what the test of waiting_ found
    | SLock(held: bool) | STest(held: bool) | SPost(held: bool) | SAck(held: bool) | SUnlock(held: bool, saw: bool)
    // SignalAll, lines 111 to 119; `n` is waiting_ on entry, `d` the decrements so far
    | ALock(held: bool) | ALoop(held: bool, n: nat, i: nat) | APost(held: bool, n: nat)
    | AInner(held: bool, n: nat, d: nat) | AAck(held: bool, n: nat, d: nat) | AUnlock(held: bool, n: nat)

  predicate HoldsMu(p: Pc) {
    p in {Inside, WLock, WCount, WUnlock, WUnlockMu} ||
    match p
    case SLock(h) => h case STest(h) => h case SPost(h) => h case SAck(h) => h case SUnlock(h, _) => h
    case ALock(h) => h case ALoop(h, _, _) => h case APost(h, _) => h
    case AInner(h, _, _) => h case AAck(h, _, _) => h case AUnlock(h, _) => h
    case _ => false
  }

  predicate HoldsWaitMutex(p: Pc) {
    p.WCount? || p.WUnlock? || InSignal(p)
  }

  /** Between taking wait_mtx_ and giving it back in Signal or SignalAll. */
  predicate InSignal(p: Pc) {
    p.STest? || p.SPost? || p.SAck? || p.SUnlock? || p.ALoop? || p.APost? || p.AInner? || p.AAck? || p.AUnlock?
  }

  /** Counted in `waiting_` once and not yet past `sem1_`. */
  predicate IsCounted(p: Pc) {
    p.WUnlock? || p.WUnlockMu? || p.WSem1?
  }

  /** Past `sem1_`, not yet acknowledged on `sem2_`. */
  predicate IsWoken(p: Pc) {
    p.WSem2?
  }

  /**
   * A finished Signal or SignalAll: who was counted when it took wait_mtx_, whether it saw anyone,
   * whom it released.
   */
  datatype Record = Record(eligible: set<Thread>, saw: bool, released: seq<Thread>)

  /** The last four fields are history: they are written and never read by a step. */
  datatype State = State(
    pc: map<Thread, Pc>, mu: Option<Thread>, waitMutex: Option<Thread>,
    waiting: int, sem1: nat, sem2: nat,
    eligible: set<Thread>, released: seq<Thread>, finished: seq<Record>, wakes: seq<Thread>)

  const SEMAPHORE_CAP := 10000

  /** ReleaseSemaphore: at its cap a semaphore stays as it is. */
  function Post(sem: nat): nat {
    if sem < SEMAPHORE_CAP then sem + 1 else sem
  }

  function Counted(pc: map<Thread, Pc>): set<Thread> {
    set t | t in pc && IsCounted(pc[t])
  }

  function Woken(pc: map<Thread, Pc>): set<Thread> {
    set t | t in pc && IsWoken(pc[t])
  }

  /** What a thread in client code may do next; elsewhere it can only proceed. */
  datatype Action = Lock | Unlock | CallWait | CallSignal | CallSignalAll | Proceed

  function Init(threads: set<Thread>): State {
    State(map t | t in threads :: Outside, None, None, 0, 0, 0, {}, [], [], [])
  }

  /** One step of thread `t`, if it is not blocked. */
  function Step(s: State, t: Thread, a: Action): Option<State>
    requires t in s.pc
  {
    var p := s.pc[t];
    if IsWait(p) then (if a == Proceed then WaitStep(s, t) else None)
    else if IsSignal(p) then (if a == Proceed then SignalStep(s, t) else None)
    else if IsSignalAll(p) then (if a == Proceed then SignalAllStep(s, t) else None)
    else ClientStep(s, t, p.Inside?, a)
  }

  function ClientStep(s: State, t: Thread, inside: bool, a: Action): Option<State> {
    match a
    case Lock => if inside || s.mu.Some? then None else Some(s.(pc := s.pc[t := Inside], mu := Some(t)))
    case Unlock => if inside then Some(s.(pc := s.pc[t := Outside], mu := None)) else None
    case CallWait => if inside then Some(s.(pc := s.pc[t := WLock])) else None
    case CallSignal => Some(s.(pc := s.pc[t := SLock(inside)]))
    case CallSignalAll => Some(s.(pc := s.pc[t := ALock(inside)]))
    case Proceed => None
  }

  predicate IsWait(p: Pc) {
    p.WLock? || p.WCount? || p.WUnlock? || p.WUnlockMu? || p.WSem1? || p.WSem2? || p.WLockMu?
  }

  predicate IsSignal(p: Pc) {
    p.SLock? || p.STest? || p.SPost? || p.SAck? || p.SUnlock?
  }

  predicate IsSignalAll(p: Pc) {
    p.ALock? || p.ALoop? || p.APost? || p.AInner? || p.AAck? || p.AUnlock?
  }

  function WaitStep(s: State, t: Thread): Option<State>
    requires t in s.pc && IsWait(s.pc[t])
  {
    match s.pc[t]
    case WLock => if s.waitMutex.Some? then None else Some(s.(pc := s.pc[t := WCount], waitMutex := Some(t)))
    case WCount => Some(s.(pc := s.pc[t := WUnlock], waiting := s.waiting + 1))
    case WUnlock => Some(s.(pc := s.pc[t := WUnlockMu], waitMutex := None))
    case WUnlockMu => Some(s.(pc := s.pc[t := WSem1], mu := None))
    case WSem1 =>
      if s.sem1 == 0 then None
      else Some(s.(pc := s.pc[t := WSem2], sem1 := s.sem1 - 1, released := s.released + [t], wakes := s.wakes + [t]))
    case WSem2 => Some(s.(pc := s.pc[t := WLockMu], sem2 := Post(s.sem2)))
    case WLockMu => if s.mu.Some? then None else Some(s.(pc := s.pc[t := Inside], mu := Some(t)))
  }

  function SignalStep(s: State, t: Thread): Option<State>
    requires t in s.pc && IsSignal(s.pc[t])
  {
    match s.pc[t]
    case SLock(h) =>
      if s.waitMutex.Some? then None
      else Some(s.(pc := s.pc[t := STest(h)], waitMutex := Some(t), eligible := Counted(s.pc), released := []))
    case STest(h) =>
      if s.waiting > 0 then Some(s.(pc := s.pc[t := SPost(h)], waiting := s.waiting - 1))
      else Some(s.(pc := s.pc[t := SUnlock(h, false)]))
    case SPost(h) => Some(s.(pc := s.pc[t := SAck(h)], sem1 := Post(s.sem1)))
    case SAck(h) => if s.sem2 == 0 then None else Some(s.(pc := s.pc[t := SUnlock(h, true)], sem2 := s.sem2 - 1))
    case SUnlock(h, saw) => Some(Finish(s, t, h, saw))
  }

  function SignalAllStep(s: State, t: Thread): Option<State>
    requires t in s.pc && IsSignalAll(s.pc[t])
  {
    match s.pc[t]
    case ALock(h) =>
      if s.waitMutex.Some? then None
      else Some(s.(pc := s.pc[t := ALoop(h, if s.waiting < 0 then 0 else s.waiting, 0)], waitMutex := Some(t),
                   eligible := Counted(s.pc), released := []))
    case ALoop(h, n, i) =>
      if i < s.waiting then Some(s.(pc := s.pc[t := APost(h, n)])) else Some(s.(pc := s.pc[t := AUnlock(h, n)]))
    case APost(h, n) => Some(s.(pc := s.pc[t := AInner(h, n, 0)], sem1 := Post(s.sem1)))
    case AInner(h, n, d) =>
      if s.waiting > 0 then Some(s.(pc := s.pc[t := AAck(h, n, d + 1)], waiting := s.waiting - 1))
      else Some(s.(pc := s.pc[t := ALoop(h, n, 1)]))
    case AAck(h, n, d) => if s.sem2 == 0 then None else Some(s.(pc := s.pc[t := AInner(h, n, d)], sem2 := s.sem2 - 1))
    case AUnlock(h, n) => Some(Finish(s, t, h, n > 0))
  }

  function Finish(s: State, t: Thread, held: bool, saw: bool): State {
    s.(pc := s.pc[t := if held then Inside else Outside], waitMutex := None,
       finished := s.finished + [Record(s.eligible, saw, s.released)], released := [])
  }

  // ---------- Invariants ----------

  ghost predicate MutexInv(s: State) {
    && (s.mu.Some? ==> s.mu.value in s.pc)
    && (s.waitMutex.Some? ==> s.waitMutex.value in s.pc)
    && forall t :: t in s.pc ==>
      && (HoldsMu(s.pc[t]) <==> s.mu == Some(t))
      && (HoldsWaitMutex(s.pc[t]) <==> s.waitMutex == Some(t))
  }

  /** Where the holder of wait_mtx_ is; Outside stands for nobody. */
  function Holder(s: State): Pc {
    if s.waitMutex.Some? && s.waitMutex.value in s.pc then s.pc[s.waitMutex.value] else Outside
  }

  /** Threads counted out of `waiting_` by the holder for whom no permit has been posted yet. */
  function Owed(p: Pc): int {
    match p
    case SPost(_) => 1
    case ALoop(_, n, i) => if i == 0 then 0 else n - 1
    case AInner(_, n, d) => d - 1
    case AAck(_, n, d) => d - 1
    case AUnlock(_, n) => if n == 0 then 0 else n - 1
    case _ => 0
  }

  /** Permits the holder has posted on `sem1_` and not had acknowledged on `sem2_`. */
  function Pending(p: Pc): int {
    match p
    case SAck(_) => 1
    case ALoop(_, n, i) => if i == 0 then 0 else 1 - n
    case AInner(_, n, d) => 1 - d
    case AAck(_, n, d) => 2 - d
    case AUnlock(_, n) => if n == 0 then 0 else 1 - n
    case _ => 0
  }

  /** What the loop variables of SignalAll say about `waiting_`. */
  predicate LoopInv(p: Pc, waiting: int) {
    match p
    case ALoop(_, n, i) => (i == 0 && n == waiting) || (i == 1 && n > 0 && waiting == 0)
    case APost(_, n) => n == waiting > 0
    case AInner(_, n, d) => d <= n && waiting == n - d && n > 0
    case AAck(_, n, d) => 1 <= d <= n && waiting == n - d
    case AUnlock(_, n) => waiting == 0
    case _ => true
  }

  /** Permits are conserved, with `counted` and `woken` threads and the holder of wait_mtx_ at `p`. */
  predicate Balance(counted: nat, woken: nat, waiting: int, sem1: nat, sem2: nat, p: Pc) {
    && waiting >= 0 && LoopInv(p, waiting)
    && counted == waiting + sem1 + Owed(p)
    && sem1 + woken + sem2 == Pending(p)
  }

  ghost predicate CountInv(s: State) {
    Balance(|Counted(s.pc)|, |Woken(s.pc)|, s.waiting, s.sem1, s.sem2, Holder(s))
  }

  function Flatten(rs: seq<Record>): seq<Thread> {
    if rs == [] then [] else Flatten(rs[..|rs| - 1]) + rs[|rs| - 1].released
  }

  /**
   * A finished signal that saw a waiter released exactly one thread, counted before it started; one
   * that saw none found none counted.
   */
  ghost predicate Fair(r: Record) {
    && (r.saw ==> |r.released| == 1 && r.released[0] in r.eligible)
    && (!r.saw ==> r.released == [] && r.eligible == {})
  }

  /** How many threads the signal in progress has let through `sem1_`. */
  function Passed(p: Pc, sem1: nat): int {
    match p
    case SAck(_) => 1 - sem1
    case SUnlock(_, saw) => Bit(saw)
    case ALoop(_, n, i) => if i == 0 then 0 else 1
    case AInner(_, _, _) => 1 - sem1
    case AAck(_, _, _) => 1 - sem1
    case AUnlock(_, n) => Bit(n > 0)
    case _ => 0
  }

  /**
   * The signal in progress, at `p`, has nobody counted behind its back, and releases only those
   * counted when it began.
   */
  ghost predicate Tally(counted: set<Thread>, eligible: set<Thread>, released: seq<Thread>, p: Pc, sem1: nat) {
    && |released| == Passed(p, sem1)
    && (InSignal(p) ==> counted <= eligible)
    && (|released| == 1 ==> released[0] in eligible)
    && (p.STest? || (p.ALoop? && p.i == 0) ==> counted == eligible)
    && ((p.SUnlock? && !p.saw) || (p.AUnlock? && p.n == 0) ==> eligible == {})
  }

  /** The history: every finished signal was fair, and the threads woken are those the signals released, in order. */
  ghost predicate Ledger(finished: seq<Record>, released: seq<Thread>, wakes: seq<Thread>) {
    && (forall r :: r in finished ==> Fair(r))
    && wakes == Flatten(finished) + released
  }

  ghost predicate TheftInv(s: State) {
    && Tally(Counted(s.pc), s.eligible, s.released, Holder(s), s.sem1)
    && Ledger(s.finished, s.released, s.wakes)
  }

  ghost predicate Inv(s: State) {
    MutexInv(s) && CountInv(s) && TheftInv(s)
  }

  // ---------- Every step keeps them ----------

  lemma SizeWithOrWithout(a: set<Thread>, t: Thread, stays: bool)
    ensures |if stays then a + {t} else a - {t}| == |a| - Bit(t in a) + Bit(stays)
  {
    if stays {
      if t in a { assert a + {t} == a; }
    } else {
      if t !in a { assert a - {t} == a; }
    }
  }

  lemma CountedMoves(pc: map<Thread, Pc>, t: Thread, p: Pc)
    requires t in pc
    ensures Counted(pc[t := p]) == if IsCounted(p) then Counted(pc) + {t} else Counted(pc) - {t}
    ensures |Counted(pc[t := p])| == |Counted(pc)| - Bit(IsCounted(pc[t])) + Bit(IsCounted(p))
  {
    assert Counted(pc[t := p]) == if IsCounted(p) then Counted(pc) + {t} else Counted(pc) - {t};
    SizeWithOrWithout(Counted(pc), t, IsCounted(p));
  }

  lemma WokenMoves(pc: map<Thread, Pc>, t: Thread, p: Pc)
    requires t in pc
    ensures |Woken(pc[t := p])| == |Woken(pc)| - Bit(IsWoken(pc[t])) + Bit(IsWoken(p))
  {
    assert Woken(pc[t := p]) == if IsWoken(p) then Woken(pc) + {t} else Woken(pc) - {t};
    SizeWithOrWithout(Woken(pc), t, IsWoken(p));
  }

  /** Thread `t` went from one place to another, and took or gave back the mutexes that go with those. */
  ghost predicate MovesOne(s: State, t: Thread, s': State)
    requires t in s.pc
  {
    && t in s'.pc && s'.pc == s.pc[t := s'.pc[t]]
    && s'.mu == (if HoldsMu(s'.pc[t]) then Some(t) else if HoldsMu(s.pc[t]) then None else s.mu)
    && (HoldsMu(s'.pc[t]) && !HoldsMu(s.pc[t]) ==> s.mu == None)
    && s'.waitMutex ==
       (if HoldsWaitMutex(s'.pc[t]) then Some(t) else if HoldsWaitMutex(s.pc[t]) then None else s.waitMutex)
    && (HoldsWaitMutex(s'.pc[t]) && !HoldsWaitMutex(s.pc[t]) ==> s.waitMutex == None)
    && (!IsWait(s.pc[t]) ==> !IsCounted(s'.pc[t]) && !IsWoken(s'.pc[t]))
  }

  lemma WaitMovesOne(s: State, t: Thread, s': State)
    requires t in s.pc && IsWait(s.pc[t]) && WaitStep(s, t) == Some(s')
    requires HoldsMu(s.pc[t]) <==> s.mu == Some(t)
    requires HoldsWaitMutex(s.pc[t]) <==> s.waitMutex == Some(t)
    ensures MovesOne(s, t, s')
  {
  }

  lemma SignalMovesOne(s: State, t: Thread, s': State)
    requires t in s.pc && IsSignal(s.pc[t]) && SignalStep(s, t) == Some(s')
    requires HoldsMu(s.pc[t]) <==> s.mu == Some(t)
    requires HoldsWaitMutex(s.pc[t]) <==> s.waitMutex == Some(t)
    ensures MovesOne(s, t, s')
  {
  }

  lemma SignalAllMovesOne(s: State, t: Thread, s': State)
    requires t in s.pc && IsSignalAll(s.pc[t]) && SignalAllStep(s, t) == Some(s')
    requires HoldsMu(s.pc[t]) <==> s.mu == Some(t)
    requires HoldsWaitMutex(s.pc[t]) <==> s.waitMutex == Some(t)
    ensures MovesOne(s, t, s')
  {
  }

  lemma StepMovesOne(s: State, t: Thread, a: Action, s': State)
    requires MutexInv(s) && t in s.pc && Step(s, t, a) == Some(s')
    ensures MovesOne(s, t, s')
  {
    var p := s.pc[t];
    if IsWait(p) {
      WaitMovesOne(s, t, s');
    } else if IsSignal(p) {
      SignalMovesOne(s, t, s');
    } else if IsSignalAll(p) {
      SignalAllMovesOne(s, t, s');
    }
  }

  lemma StepKeepsMutex(s: State, t: Thread, a: Action, s': State)
    requires MutexInv(s) && t in s.pc && Step(s, t, a) == Some(s')
    ensures MutexInv(s')
  {
    StepMovesOne(s, t, a, s');
  }

  /**
   * Who holds wait_mtx_ after a step: unchanged, unless the stepping thread takes it, moves with it
   * or gives it back.
   */
  ghost predicate HolderFollows(s: State, t: Thread, s': State)
    requires t in s.pc && t in s'.pc
  {
    && Holder(s') ==
       (if HoldsWaitMutex(s'.pc[t]) then s'.pc[t] else if HoldsWaitMutex(s.pc[t]) then Outside else Holder(s))
    && (HoldsWaitMutex(s.pc[t]) ==> Holder(s) == s.pc[t])
    && (HoldsWaitMutex(s'.pc[t]) && !HoldsWaitMutex(s.pc[t]) ==> Holder(s) == Outside)
  }

  lemma HolderMoves(s: State, t: Thread, s': State)
    requires MutexInv(s) && MutexInv(s') && t in s.pc && MovesOne(s, t, s')
    ensures HolderFollows(s, t, s')
  {
  }

  predicate Balanced(s: State, counted: nat, woken: nat) {
    Balance(counted, woken, s.waiting, s.sem1, s.sem2, Holder(s))
  }

  lemma WaitBalances(s: State, t: Thread, s': State, c: nat, w: nat, c': nat, w': nat)
    requires t in s.pc && t in s'.pc && IsWait(s.pc[t]) && WaitStep(s, t) == Some(s')
    requires Balanced(s, c, w) && HolderFollows(s, t, s')
    requires c' == c - Bit(IsCounted(s.pc[t])) + Bit(IsCounted(s'.pc[t]))
    requires w' == w - Bit(IsWoken(s.pc[t])) + Bit(IsWoken(s'.pc[t]))
    ensures Balanced(s', c', w')
  {
  }

  lemma SignalBalances(s: State, t: Thread, s': State, c: nat, w: nat)
    requires t in s.pc && t in s'.pc && IsSignal(s.pc[t]) && SignalStep(s, t) == Some(s')
    requires Balanced(s, c, w) && HolderFollows(s, t, s')
    ensures Balanced(s', c, w)
  {
  }

  lemma SignalAllBalances(s: State, t: Thread, s': State, c: nat, w: nat)
    requires t in s.pc && t in s'.pc && IsSignalAll(s.pc[t]) && SignalAllStep(s, t) == Some(s')
    requires Balanced(s, c, w) && HolderFollows(s, t, s')
    ensures Balanced(s', c, w)
  {
  }

  lemma ClientBalances(s: State, t: Thread, a: Action, s': State, c: nat, w: nat)
    requires t in s.pc && t in s'.pc && ClientStep(s, t, s.pc[t].Inside?, a) == Some(s')
    requires Balanced(s, c, w) && HolderFollows(s, t, s') && (s.pc[t].Inside? || s.pc[t].Outside?)
    ensures Balanced(s', c, w)
  {
  }

  lemma StepKeepsCount(s: State, t: Thread, a: Action, s': State)
    requires MutexInv(s) && MutexInv(s') && CountInv(s) && t in s.pc && Step(s, t, a) == Some(s')
    ensures CountInv(s')
  {
    StepMovesOne(s, t, a, s');
    HolderMoves(s, t, s');
    CountedMoves(s.pc, t, s'.pc[t]);
    WokenMoves(s.pc, t, s'.pc[t]);
    var c, w := |Counted(s.pc)|, |Woken(s.pc)|;
    if IsWait(s.pc[t]) {
      WaitBalances(s, t, s', c, w, |Counted(s'.pc)|, |Woken(s'.pc)|);
    } else if IsSignal(s.pc[t]) {
      SignalBalances(s, t, s', c, w);
    } else if IsSignalAll(s.pc[t]) {
      SignalAllBalances(s, t, s', c, w);
    } else {
      ClientBalances(s, t, a, s', c, w);
    }
  }

  lemma WaitTallies(s: State, t: Thread, s': State, counted: set<Thread>, c: nat, w: nat, counted': set<Thread>)
    requires t in s.pc && t in s'.pc && IsWait(s.pc[t]) && WaitStep(s, t) == Some(s') && HolderFollows(s, t, s')
    requires Balanced(s, c, w) && (IsCounted(s.pc[t]) <==> t in counted)
    requires counted' == if IsCounted(s'.pc[t]) then counted + {t} else counted - {t}
    requires Tally(counted, s.eligible, s.released, Holder(s), s.sem1)
    ensures Tally(counted', s'.eligible, s'.released, Holder(s'), s'.sem1)
  {
    if s.pc[t].WSem1? {
      assert s'.released == s.released + [t];
    }
  }

  lemma SignalTallies(s: State, t: Thread, s': State, counted: set<Thread>, c: nat, w: nat)
    requires t in s.pc && t in s'.pc && IsSignal(s.pc[t]) && SignalStep(s, t) == Some(s') && HolderFollows(s, t, s')
    requires Balanced(s, c, w) && (c == 0 ==> counted == {}) && counted == Counted(s.pc)
    requires Tally(counted, s.eligible, s.released, Holder(s), s.sem1)
    ensures Tally(counted, s'.eligible, s'.released, Holder(s'), s'.sem1)
    ensures !s.pc[t].SUnlock? ==> s'.released == s.released && s'.finished == s.finished && s'.wakes == s.wakes
    ensures s.pc[t].SUnlock? ==> Fair(Record(s.eligible, s.pc[t].saw, s.released))
  {
  }

  lemma SignalAllTallies(s: State, t: Thread, s': State, counted: set<Thread>, c: nat, w: nat)
    requires t in s.pc && t in s'.pc && IsSignalAll(s.pc[t])
    requires SignalAllStep(s, t) == Some(s') && HolderFollows(s, t, s')
    requires Balanced(s, c, w) && (c == 0 ==> counted == {}) && counted == Counted(s.pc)
    requires Tally(counted, s.eligible, s.released, Holder(s), s.sem1)
    ensures Tally(counted, s'.eligible, s'.released, Holder(s'), s'.sem1)
    ensures !s.pc[t].AUnlock? ==> s'.released == s.released && s'.finished == s.finished && s'.wakes == s.wakes
    ensures s.pc[t].AUnlock? ==> Fair(Record(s.eligible, s.pc[t].n > 0, s.released))
  {
  }

  lemma FinishKeepsLedger(s: State, t: Thread, held: bool, saw: bool)
    requires Ledger(s.finished, s.released, s.wakes) && Fair(Record(s.eligible, saw, s.released))
    ensures var s' := Finish(s, t, held, saw); Ledger(s'.finished, s'.released, s'.wakes)
  {
    assert (s.finished + [Record(s.eligible, saw, s.released)])[..|s.finished|] == s.finished;
  }

  /** Only waiters are counted, so the other code changes nothing there. */
  lemma OthersCountNobody(s: State, t: Thread, s': State)
    requires t in s.pc && !IsWait(s.pc[t]) && MovesOne(s, t, s')
    ensures Counted(s'.pc) == Counted(s.pc)
  {
    CountedMoves(s.pc, t, s'.pc[t]);
  }

  lemma StepKeepsTally(s: State, t: Thread, a: Action, s': State)
    requires CountInv(s) && TheftInv(s) && t in s.pc && Step(s, t, a) == Some(s')
    requires MovesOne(s, t, s') && HolderFollows(s, t, s')
    ensures Tally(Counted(s'.pc), s'.eligible, s'.released, Holder(s'), s'.sem1)
  {
    var counted, w := Counted(s.pc), |Woken(s.pc)|;
    if IsWait(s.pc[t]) {
      CountedMoves(s.pc, t, s'.pc[t]);
      WaitTallies(s, t, s', counted, |counted|, w, Counted(s'.pc));
    } else {
      OthersCountNobody(s, t, s');
      if IsSignal(s.pc[t]) {
        SignalTallies(s, t, s', counted, |counted|, w);
      } else if IsSignalAll(s.pc[t]) {
        SignalAllTallies(s, t, s', counted, |counted|, w);
      }
    }
  }

  lemma WaitKeepsLedger(s: State, t: Thread, s': State)
    requires t in s.pc && IsWait(s.pc[t]) && WaitStep(s, t) == Some(s')
    requires Ledger(s.finished, s.released, s.wakes)
    ensures Ledger(s'.finished, s'.released, s'.wakes)
  {
    AppendAssociates(Flatten(s.finished), s.released, [t]);
  }

  lemma StepKeepsLedger(s: State, t: Thread, a: Action, s': State)
    requires CountInv(s) && TheftInv(s) && t in s.pc && t in s'.pc && HolderFollows(s, t, s')
    requires Step(s, t, a) == Some(s')
    ensures Ledger(s'.finished, s'.released, s'.wakes)
  {
    var counted, w, p := Counted(s.pc), |Woken(s.pc)|, s.pc[t];
    if IsWait(p) {
      WaitKeepsLedger(s, t, s');
    } else if IsSignal(p) {
      SignalTallies(s, t, s', counted, |counted|, w);
      if p.SUnlock? { FinishKeepsLedger(s, t, p.held, p.saw); }
    } else if IsSignalAll(p) {
      SignalAllTallies(s, t, s', counted, |counted|, w);
      if p.AUnlock? { FinishKeepsLedger(s, t, p.held, p.n > 0); }
    }
  }

  lemma StepKeepsInv(s: State, t: Thread, a: Action, s': State)
    requires Inv(s) && t in s.pc && Step(s, t, a) == Some(s')
    ensures Inv(s')
  {
    StepKeepsMutex(s, t, a, s');
    StepKeepsCount(s, t, a, s');
    StepMovesOne(s, t, a, s');
    HolderMoves(s, t, s');
    StepKeepsTally(s, t, a, s');
    StepKeepsLedger(s, t, a, s');
  }

  // ---------- Whole runs ----------

  datatype Move = Move(t: Thread, a: Action)

  /** The state after a sequence of steps, in any interleaving, if each was possible when it came. */
  function Run(s: State, moves: seq<Move>): Option<State>
    decreases moves
  {
    if moves == [] then Some(s)
    else if moves[0].t !in s.pc then None
    else
      match Step(s, moves[0].t, moves[0].a)
      case None => None
      case Some(s') => Run(s', moves[1..])
  }

  lemma InitInv(threads: set<Thread>)
    ensures Inv(Init(threads))
  {
    var s := Init(threads);
    assert Counted(s.pc) == {} && Woken(s.pc) == {};
  }

  lemma {:induction false} RunKeepsInv(s: State, moves: seq<Move>, s': State)
    requires Inv(s) && Run(s, moves) == Some(s')
    ensures Inv(s')
    decreases moves
  {
    if moves != [] {
      var next := Step(s, moves[0].t, moves[0].a).value;
      StepKeepsInv(s, moves[0].t, moves[0].a, next);
      RunKeepsInv(next, moves[1..], s');
    }
  }

  /** How many of the finished signals saw a waiter. */
  function Seen(rs: seq<Record>): nat {
    if rs == [] then 0 else Seen(rs[..|rs| - 1]) + Bit(rs[|rs| - 1].saw)
  }

  lemma {:induction false} FairReleases(rs: seq<Record>)
    requires forall r :: r in rs ==> Fair(r)
    ensures |Flatten(rs)| == Seen(rs)
  {
    if rs != [] {
      FairReleases(rs[..|rs| - 1]);
      assert Fair(rs[|rs| - 1]);
    }
  }

  /**
   * No signal is stolen and none is lost. Over every run of any threads, a signal that has returned
   * released exactly one thread, one that was already counted when the signal took wait_mtx_, if
   * anyone was counted then, and nobody otherwise; and no thread has been woken but by such a
   * signal or by the one in progress.
   */
  lemma NoTheft(threads: set<Thread>, moves: seq<Move>, s: State)
    requires Run(Init(threads), moves) == Some(s)
    ensures forall r :: r in s.finished ==>
      (if r.eligible != {} then exists t :: r.released == [t] && t in r.eligible else r.released == [])
    ensures s.wakes == Flatten(s.finished) + s.released
    ensures |s.wakes| == Seen(s.finished) + |s.released| && |s.released| <= 1
    ensures !InSignal(Holder(s)) ==> s.released == []
  {
    InitInv(threads);
    RunKeepsInv(Init(threads), moves, s);
    forall r | r in s.finished
      ensures if r.eligible != {} then exists t :: r.released == [t] && t in r.eligible else r.released == []
    {
      assert Fair(r);
      if r.eligible != {} { assert r.released == [r.released[0]]; }
    }
    FairReleases(s.finished);
  }

  /** A signaller has posted its permit on `sem1_` and waits for the acknowledgement on `sem2_`. */
  predicate AwaitsAck(p: Pc) {
    p.SAck? || (p.AAck? && p.d == 1)
  }

  /**
   * Conservation of permits in every reachable state. Threads counted and not released are those
   * in `waiting_`, those with a permit, and the one a signaller is about to give its permit to; a
   * permit, its woken thread or its acknowledgement is there exactly while a signaller is between
   * posting and being acknowledged; so neither semaphore ever holds more than one.
   */
  lemma PermitsConserved(threads: set<Thread>, moves: seq<Move>, s: State)
    requires Run(Init(threads), moves) == Some(s)
    ensures |Counted(s.pc)| == s.waiting + s.sem1 + Owed(Holder(s))
    ensures !IsSignalAll(Holder(s)) ==> Owed(Holder(s)) == Bit(Holder(s).SPost?)
    ensures s.sem1 + |Woken(s.pc)| + s.sem2 == Bit(AwaitsAck(Holder(s)) || (Holder(s).AInner? && Holder(s).d == 0))
    ensures s.sem1 + s.sem2 <= 1 && s.sem1 < SEMAPHORE_CAP && s.sem2 < SEMAPHORE_CAP
  {
    InitInv(threads);
    RunKeepsInv(Init(threads), moves, s);
  }

  // ---------- Progress ----------

  function Unlocking(pc: map<Thread, Pc>): set<Thread> {
    set t | t in pc && pc[t].WUnlockMu?
  }

  /** The steps by which waiters take a permit and acknowledge it. */
  predicate InHandshake(p: Pc) {
    p.WUnlockMu? || p.WSem1? || p.WSem2?
  }

  /** How many of those steps there can be before the acknowledgement is there. */
  function Distance(s: State): nat {
    |Unlocking(s.pc)| + 2 * s.sem1 + |Woken(s.pc)|
  }

  lemma UnlockingMoves(pc: map<Thread, Pc>, t: Thread, p: Pc)
    requires t in pc
    ensures |Unlocking(pc[t := p])| == |Unlocking(pc)| - Bit(pc[t].WUnlockMu?) + Bit(p.WUnlockMu?)
  {
    var pc' := pc[t := p];
    assert Unlocking(pc') == if p.WUnlockMu? then Unlocking(pc) + {t} else Unlocking(pc) - {t};
    assert pc[t].WUnlockMu? <==> t in Unlocking(pc);
  }

  /**
   * A signaller awaiting its acknowledgement is never deadlocked, even if it holds mu_: it can go
   * on, or some waiter can take a handshake step without mu_.
   */
  lemma HandshakeEnabled(s: State, t: Thread)
    requires Inv(s) && t in s.pc && AwaitsAck(s.pc[t])
    ensures Step(s, t, Proceed).Some? ||
            exists u :: u in s.pc && InHandshake(s.pc[u]) && Step(s, u, Proceed).Some?
    ensures Distance(s) == 0 ==> Step(s, t, Proceed).Some?
  {
    assert Holder(s) == s.pc[t];
    if s.sem2 == 0 {
      if s.sem1 > 0 {
        assert Counted(s.pc) != {} by { assert |Counted(s.pc)| > 0; }
        var u :| u in Counted(s.pc);
        assert Step(s, u, Proceed).Some?;
      } else {
        assert Woken(s.pc) != {} by { assert |Woken(s.pc)| > 0; }
        var u :| u in Woken(s.pc);
        assert Step(s, u, Proceed).Some?;
      }
    }
  }

  /** While it waits no step of another thread takes it further away, and every handshake step brings it nearer. */
  lemma HandshakeNears(s: State, t: Thread, u: Thread, a: Action, s': State)
    requires Inv(s) && t in s.pc && AwaitsAck(s.pc[t])
    requires u in s.pc && u != t && Step(s, u, a) == Some(s')
    ensures t in s'.pc && s'.pc[t] == s.pc[t]
    ensures Distance(s') + Bit(InHandshake(s.pc[u])) <= Distance(s)
  {
    StepMovesOne(s, u, a, s');
    WokenMoves(s.pc, u, s'.pc[u]);
    UnlockingMoves(s.pc, u, s'.pc[u]);
    assert Holder(s) == s.pc[t] && !HoldsWaitMutex(s.pc[u]);
  }

  /** How many handshake steps a run takes. */
  function HandshakeSteps(s: State, moves: seq<Move>): nat
    requires Run(s, moves).Some?
    decreases moves
  {
    if moves == [] then 0
    else Bit(InHandshake(s.pc[moves[0].t])) + HandshakeSteps(Step(s, moves[0].t, moves[0].a).value, moves[1..])
  }

  /** However the others are scheduled, at most `Distance` handshake steps come before the signaller can go on. */
  lemma {:induction false} HandshakeBounded(s: State, moves: seq<Move>, s': State, t: Thread)
    requires Inv(s) && t in s.pc && AwaitsAck(s.pc[t])
    requires Run(s, moves) == Some(s') && forall m :: m in moves ==> m.t != t
    ensures t in s'.pc && s'.pc[t] == s.pc[t]
    ensures HandshakeSteps(s, moves) + Distance(s') <= Distance(s) <= 3
    decreases moves
  {
    UnlockersHoldMu(s);
    if moves != [] {
      var m := moves[0];
      assert m in moves;
      var next := Step(s, m.t, m.a).value;
      HandshakeNears(s, t, m.t, m.a, next);
      StepKeepsInv(s, m.t, m.a, next);
      HandshakeBounded(next, moves[1..], s', t);
    }
  }

  lemma UnlockersHoldMu(s: State)
    requires MutexInv(s)
    ensures |Unlocking(s.pc)| <= 1
  {
    var who := if s.mu.Some? then {s.mu.value} else {};
    assert Unlocking(s.pc) <= who;
    if s.mu.Some? && Unlocking(s.pc) != {} { assert Unlocking(s.pc) == {s.mu.value}; }
  }

  // ---------- SignalAll as written ----------

  /** `t` is in a SignalAll that found `n` threads in `waiting_`, all those in `all`, when it took wait_mtx_. */
  ghost predicate InCall(s: State, t: Thread, n: nat, all: set<Thread>) {
    && t in s.pc && s.eligible == all && |all| == n
    && match s.pc[t]
       case ALoop(_, m, _) => m == n
       case APost(_, m) => m == n
       case AInner(_, m, _) => m == n
       case AAck(_, m, _) => m == n
       case AUnlock(_, m) => m == n
       case _ => false
  }

  /** How many steps of its own the call has left at most, waits included. */
  function CallLeft(p: Pc): nat {
    match p
    case ALoop(_, _, i) => if i == 0 then 6 else 1
    case APost(_, _) => 5
    case AInner(_, _, d) => if d == 0 then 4 else 2
    case AAck(_, _, d) => if d == 1 then 3 else 1
    case _ => 0
  }

  /** The second wait, for an acknowledgement nobody will give. */
  predicate AtSecondWait(p: Pc) {
    p.AAck? && p.d == 2
  }

  lemma CallStarts(s: State, t: Thread)
    requires Inv(s) && t in s.pc && s.pc[t].ALoop? && s.pc[t].i == 0
    ensures InCall(s, t, s.pc[t].n, Counted(s.pc))
  {
    assert Holder(s) == s.pc[t];
  }

  /** Until it has ended a step keeps the call going, and its own steps bring it on. */
  lemma CallGoesOn(s: State, t: Thread, n: nat, all: set<Thread>, u: Thread, a: Action, s': State)
    requires Inv(s) && InCall(s, t, n, all) && u in s.pc && Step(s, u, a) == Some(s')
    ensures u == t && s.pc[t].AUnlock? ==> |s'.finished| > |s.finished|
    ensures !(u == t && s.pc[t].AUnlock?) ==> InCall(s', t, n, all) && s'.finished == s.finished
    ensures !(u == t && s.pc[t].AUnlock?) ==> CallLeft(s'.pc[t]) + Bit(u == t) <= CallLeft(s.pc[t])
  {
    assert Holder(s) == s.pc[t];
    if u == t {
      OwnStepGoesOn(s, t, n, all, a, s');
    } else {
      OtherStepGoesOn(s, t, u, a, s');
    }
  }

  lemma OwnStepGoesOn(s: State, t: Thread, n: nat, all: set<Thread>, a: Action, s': State)
    requires CountInv(s) && InCall(s, t, n, all) && Holder(s) == s.pc[t] && Step(s, t, a) == Some(s')
    ensures s.pc[t].AUnlock? ==> |s'.finished| > |s.finished|
    ensures !s.pc[t].AUnlock? ==> InCall(s', t, n, all) && s'.finished == s.finished
    ensures !s.pc[t].AUnlock? ==> CallLeft(s'.pc[t]) < CallLeft(s.pc[t])
  {
  }

  lemma OtherStepGoesOn(s: State, t: Thread, u: Thread, a: Action, s': State)
    requires MutexInv(s) && t in s.pc && HoldsWaitMutex(s.pc[t]) && u in s.pc && u != t && Step(s, u, a) == Some(s')
    ensures t in s'.pc && s'.pc[t] == s.pc[t] && s'.eligible == s.eligible && s'.finished == s.finished
  {
    StepMovesOne(s, u, a, s');
  }

  /**
   * Where a call can stand: it can step, or awaits its handshake, or, with two or more waiters,
   * stands at the second wait.
   */
  lemma CallStands(s: State, t: Thread, n: nat, all: set<Thread>)
    requires Inv(s) && InCall(s, t, n, all)
    ensures n <= 1 ==> Step(s, t, Proceed).Some? || AwaitsAck(s.pc[t])
    ensures n >= 2 ==> Step(s, t, Proceed).Some? || AwaitsAck(s.pc[t]) || AtSecondWait(s.pc[t])
    ensures AtSecondWait(s.pc[t]) ==> n >= 2 && Step(s, t, Proceed) == None
    ensures s.pc[t].AUnlock? ==> n <= 1 && Counted(s.pc) <= all && (set x | x in s.released) == all
  {
    assert Holder(s) == s.pc[t];
    if s.pc[t].AUnlock? {
      assert |s.released| == n;
      if n == 1 {
        assert s.released == [s.released[0]] && s.released[0] in all;
        assert |all - {s.released[0]}| == 0;
      }
    }
  }

  lemma {:induction false} FinishedGrows(s: State, moves: seq<Move>, s': State)
    requires Inv(s) && Run(s, moves) == Some(s')
    ensures |s.finished| <= |s'.finished|
    decreases moves
  {
    if moves != [] {
      var m := moves[0];
      var next := Step(s, m.t, m.a).value;
      StepKeepsInv(s, m.t, m.a, next);
      FinishedNearGrows(s, m.t, m.a, next);
      FinishedGrows(next, moves[1..], s');
    }
  }

  lemma FinishedNearGrows(s: State, t: Thread, a: Action, s': State)
    requires t in s.pc && Step(s, t, a) == Some(s')
    ensures |s.finished| <= |s'.finished|
  {
  }

  /** How many steps of a run are `t`'s own. */
  function OwnSteps(moves: seq<Move>, t: Thread): nat {
    if moves == [] then 0 else Bit(moves[0].t == t) + OwnSteps(moves[1..], t)
  }

  lemma {:induction false} CallRuns(s: State, t: Thread, n: nat, all: set<Thread>, moves: seq<Move>, s': State)
    requires Inv(s) && InCall(s, t, n, all) && Run(s, moves) == Some(s')
    ensures s'.finished == s.finished || n >= 2 ==>
              s'.finished == s.finished && Inv(s') && InCall(s', t, n, all)
    ensures s'.finished == s.finished || n >= 2 ==> OwnSteps(moves, t) + CallLeft(s'.pc[t]) <= CallLeft(s.pc[t])
    decreases moves
  {
    if moves != [] {
      var m := moves[0];
      var next := Step(s, m.t, m.a).value;
      CallGoesOn(s, t, n, all, m.t, m.a, next);
      StepKeepsInv(s, m.t, m.a, next);
      FinishedGrows(next, moves[1..], s');
      CallStands(s, t, n, all);
      if !(m.t == t && s.pc[t].AUnlock?) {
        CallRuns(next, t, n, all, moves[1..], s');
      }
    }
  }

  /**
   * With at most one waiter the call is never stuck. As long as it has not returned it has made at
   * most six steps, and can make the next or awaits its one handshake, which `HandshakeBounded`
   * bounds; and when it comes to unlock it has released everyone it found.
   */
  lemma SignalAllEndsForOne(s: State, t: Thread, moves: seq<Move>, s': State)
    requires Inv(s) && t in s.pc && s.pc[t].ALoop? && s.pc[t].i == 0 && s.pc[t].n <= 1
    requires Run(s, moves) == Some(s') && s'.finished == s.finished
    ensures t in s'.pc && OwnSteps(moves, t) + CallLeft(s'.pc[t]) <= 6
    ensures Step(s', t, Proceed).Some? || AwaitsAck(s'.pc[t])
    ensures s'.pc[t].AUnlock? ==> (set x | x in s'.released) == Counted(s.pc)
  {
    CallStarts(s, t);
    CallRuns(s, t, s.pc[t].n, Counted(s.pc), moves, s');
    CallStands(s', t, s.pc[t].n, Counted(s.pc));
  }

  /**
   * With two or more no run brings it to unlock: it makes at most five steps, then stands at its
   * second wait; before that it can step or awaits its one handshake.
   */
  lemma SignalAllComesToBlock(s: State, t: Thread, moves: seq<Move>, s': State)
    requires Inv(s) && t in s.pc && s.pc[t].ALoop? && s.pc[t].i == 0 && s.pc[t].n >= 2
    requires Run(s, moves) == Some(s')
    ensures s'.finished == s.finished && t in s'.pc && !s'.pc[t].AUnlock?
    ensures OwnSteps(moves, t) + CallLeft(s'.pc[t]) <= 6
    ensures Step(s', t, Proceed).Some? || AwaitsAck(s'.pc[t]) || AtSecondWait(s'.pc[t])
    ensures AtSecondWait(s'.pc[t]) <==> CallLeft(s'.pc[t]) == 1
  {
    CallStarts(s, t);
    CallRuns(s, t, s.pc[t].n, Counted(s.pc), moves, s');
    CallStands(s', t, s.pc[t].n, Counted(s.pc));
    assert Holder(s') == s'.pc[t];
  }

  /** From its second wait on it stays there, holding wait_mtx_, for ever. */
  lemma {:induction false} SignalAllBlocks(s: State, t: Thread, moves: seq<Move>, s': State)
    requires Inv(s) && t in s.pc && s.pc[t].AAck? && s.pc[t].d >= 2
    requires Run(s, moves) == Some(s')
    ensures t in s'.pc && s'.pc[t] == s.pc[t] && s'.waitMutex == Some(t)
    ensures Step(s', t, Proceed) == None
    decreases moves
  {
    assert Holder(s) == s.pc[t];
    if moves != [] {
      var m := moves[0];
      var next := Step(s, m.t, m.a).value;
      StepMovesOne(s, m.t, m.a, next);
      StepKeepsInv(s, m.t, m.a, next);
      SignalAllBlocks(next, t, moves[1..], s');
    }
  }

  /** A run in which the call gets to unlock wait_mtx_. */
  ghost predicate Unlocks(s: State, t: Thread, moves: seq<Move>) {
    match Run(s, moves)
    case None => false
    case Some(s') => s'.finished == s.finished && t in s'.pc && s'.pc[t].AUnlock?
  }

  lemma RunFirst(s: State, m: Move, moves: seq<Move>)
    requires m.t in s.pc && Step(s, m.t, m.a).Some?
    ensures Run(s, [m] + moves) == Run(Step(s, m.t, m.a).value, moves)
  {
    assert ([m] + moves)[1..] == moves;
  }

  lemma {:induction false} SignalAllCanEnd(s: State, t: Thread, n: nat, all: set<Thread>) returns (moves: seq<Move>)
    requires Inv(s) && InCall(s, t, n, all) && n <= 1
    ensures Unlocks(s, t, moves)
    decreases CallLeft(s.pc[t]), Distance(s)
  {
    moves := [];
    if !s.pc[t].AUnlock? {
      CallStands(s, t, n, all);
      var u := t;
      if Step(s, t, Proceed).None? {
        HandshakeEnabled(s, t);
        u :| u in s.pc && InHandshake(s.pc[u]) && Step(s, u, Proceed).Some?;
        HandshakeNears(s, t, u, Proceed, Step(s, u, Proceed).value);
      }
      var next := Step(s, u, Proceed).value;
      CallGoesOn(s, t, n, all, u, Proceed, next);
      StepKeepsInv(s, u, Proceed, next);
      moves := SignalAllCanEnd(next, t, n, all);
      RunFirst(s, Move(u, Proceed), moves);
      moves := [Move(u, Proceed)] + moves;
    }
  }

  /** So `SignalAll` can return exactly when it finds at most one waiter. */
  lemma SignalAllReturns(s: State, t: Thread)
    requires Inv(s) && t in s.pc && s.pc[t].ALoop? && s.pc[t].i == 0
    ensures (exists moves :: Unlocks(s, t, moves)) <==> s.pc[t].n <= 1
  {
    CallStarts(s, t);
    if s.pc[t].n <= 1 {
      var moves := SignalAllCanEnd(s, t, s.pc[t].n, Counted(s.pc));
    } else if moves :| Unlocks(s, t, moves) {
      SignalAllComesToBlock(s, t, moves, Run(s, moves).value);
      assert false;
    }
  }

  lemma RunBoth(s: State, a: seq<Move>, b: seq<Move>)
    requires Run(s, a).Some?
    ensures Run(s, a + b) == Run(Run(s, a).value, b)
    decreases a
  {
    if a == [] {
      assert a + b == b;
    } else {
      assert (a + b)[1..] == a[1..] + b;
      RunBoth(Step(s, a[0].t, a[0].a).value, a[1..], b);
    }
  }

  lemma RunOne(s: State, t: Thread, a: Action)
    requires t in s.pc && Step(s, t, a).Some?
    ensures Run(s, [Move(t, a)]) == Step(s, t, a)
  {
    assert [Move(t, a)][1..] == [];
  }

  /** A thread from outside comes to wait on `sem1_`, if nobody holds a mutex. */
  lemma WaiterArrives(s: State, t: Thread) returns (moves: seq<Move>)
    requires t in s.pc && s.pc[t].Outside? && s.mu.None? && s.waitMutex.None?
    ensures Run(s, moves) == Some(s.(pc := s.pc[t := WSem1], waiting := s.waiting + 1))
  {
    var s1 := Step(s, t, Lock).value;
    var s2 := Step(s1, t, CallWait).value;
    var s3 := Step(s2, t, Proceed).value;
    var s4 := Step(s3, t, Proceed).value;
    var s5 := Step(s4, t, Proceed).value;
    var s6 := Step(s5, t, Proceed).value;
    assert s6.pc == s.pc[t := WSem1];
    moves := [Move(t, Proceed)];
    RunOne(s5, t, Proceed);
    moves := RunBefore(s4, t, Proceed, moves);
    moves := RunBefore(s3, t, Proceed, moves);
    moves := RunBefore(s2, t, Proceed, moves);
    moves := RunBefore(s1, t, CallWait, moves);
    moves := RunBefore(s, t, Lock, moves);
  }

  lemma RunBefore(s: State, t: Thread, a: Action, rest: seq<Move>) returns (moves: seq<Move>)
    requires t in s.pc && Step(s, t, a).Some?
    ensures Run(s, moves) == Run(Step(s, t, a).value, rest)
  {
    RunFirst(s, Move(t, a), rest);
    moves := [Move(t, a)] + rest;
  }

  /** From outside a call of SignalAll comes to its loop, if nobody holds wait_mtx_. */
  lemma SignalAllStarts(s: State, t: Thread) returns (moves: seq<Move>, s': State)
    requires t in s.pc && s.pc[t].Outside? && s.waitMutex.None? && s.waiting >= 0
    ensures Run(s, moves) == Some(s')
    ensures s'.pc == s.pc[t := ALoop(false, s.waiting, 0)]
    ensures s'.waiting == s.waiting && s'.sem1 == s.sem1 && s'.sem2 == s.sem2
  {
    var s1 := Step(s, t, CallSignalAll).value;
    s' := Step(s1, t, Proceed).value;
    assert s'.pc == s.pc[t := ALoop(false, s.waiting, 0)];
    RunOne(s1, t, Proceed);
    moves := RunBefore(s, t, CallSignalAll, [Move(t, Proceed)]);
  }

  /** It posts one permit, counts one waiter out and waits for the first time. */
  lemma FirstWaitComes(s: State, t: Thread, n: nat) returns (moves: seq<Move>, s': State)
    requires t in s.pc && s.pc[t] == ALoop(false, n, 0) && s.waiting == n > 0 && s.sem1 == 0
    ensures Run(s, moves) == Some(s') && s'.pc == s.pc[t := AAck(false, n, 1)]
    ensures s'.waiting == n - 1 && s'.sem1 == 1 && s'.sem2 == s.sem2
  {
    var s1 := Step(s, t, Proceed).value;
    var s2 := Step(s1, t, Proceed).value;
    s' := Step(s2, t, Proceed).value;
    assert s'.pc == s.pc[t := AAck(false, n, 1)];
    RunOne(s2, t, Proceed);
    moves := RunBefore(s1, t, Proceed, [Move(t, Proceed)]);
    moves := RunBefore(s, t, Proceed, moves);
  }

  /** A waiter takes the permit and acknowledges it. */
  lemma WaiterAcknowledges(s: State, u: Thread) returns (moves: seq<Move>, s': State)
    requires u in s.pc && s.pc[u].WSem1? && s.sem1 == 1 && s.sem2 == 0
    ensures Run(s, moves) == Some(s') && s'.pc == s.pc[u := WLockMu]
    ensures s'.waiting == s.waiting && s'.sem1 == 0 && s'.sem2 == 1
    ensures s'.mu == s.mu && s'.wakes == s.wakes + [u]
  {
    var s1 := Step(s, u, Proceed).value;
    s' := Step(s1, u, Proceed).value;
    assert s'.pc == s.pc[u := WLockMu];
    RunOne(s1, u, Proceed);
    moves := RunBefore(s, u, Proceed, [Move(u, Proceed)]);
  }

  /** Acknowledged once, with someone left in `waiting_`, it waits again. */
  lemma SecondWaitComes(s: State, t: Thread, n: nat) returns (moves: seq<Move>, s': State)
    requires t in s.pc && s.pc[t] == AAck(false, n, 1) && s.waiting > 0 && s.sem2 == 1
    ensures Run(s, moves) == Some(s') && t in s'.pc && AtSecondWait(s'.pc[t])
  {
    var s1 := Step(s, t, Proceed).value;
    s' := Step(s1, t, Proceed).value;
    RunOne(s1, t, Proceed);
    moves := RunBefore(s, t, Proceed, [Move(t, Proceed)]);
  }

  /** Two threads come to wait, and a third calls SignalAll: a run that takes it to its loop. */
  lemma SignalAllFindsTwo(threads: set<Thread>) returns (moves: seq<Move>, s: State)
    requires threads == {0, 1, 2}
    ensures Run(Init(threads), moves) == Some(s) && s.pc == map[0 := WSem1, 1 := WSem1, 2 := ALoop(false, 2, 0)]
    ensures s.waiting == 2 && s.sem1 == 0 && s.sem2 == 0
  {
    var s0 := Init(threads);
    var first := WaiterArrives(s0, 0);
    var s1 := Run(s0, first).value;
    var second := WaiterArrives(s1, 1);
    var s2 := Run(s1, second).value;
    var call;
    call, s := SignalAllStarts(s2, 2);
    RunBoth(s0, first, second);
    RunBoth(s0, first + second, call);
    moves := first + second + call;
  }

  /** And on to its second wait. */
  lemma SignalAllWaitsTwice(threads: set<Thread>) returns (moves: seq<Move>, s: State)
    requires threads == {0, 1, 2}
    ensures Run(Init(threads), moves) == Some(s) && 2 in s.pc && AtSecondWait(s.pc[2])
  {
    var s0 := Init(threads);
    var s1, s2, s3, more;
    moves, s1 := SignalAllFindsTwo(threads);
    more, s2 := FirstWaitComes(s1, 2, 2);
    RunBoth(s0, moves, more);
    moves := moves + more;
    more, s3 := WaiterAcknowledges(s2, 0);
    RunBoth(s0, moves, more);
    moves := moves + more;
    more, s := SecondWaitComes(s3, 2, 2);
    RunBoth(s0, moves, more);
    moves := moves + more;
  }

  /** `t` is where it was, and cannot go on. */
  predicate StuckSince(s: State, t: Thread, s': State) {
    t in s.pc && t in s'.pc && s'.pc[t] == s.pc[t] && Step(s', t, Proceed) == None
  }

  lemma SecondWaitLasts(s: State, t: Thread, rest: seq<Move>, s': State)
    requires Inv(s) && t in s.pc && AtSecondWait(s.pc[t]) && Run(s, rest) == Some(s')
    ensures StuckSince(s, t, s')
  {
    SignalAllBlocks(s, t, rest, s');
  }

  /** So three threads can bring a call of SignalAll to where it blocks for ever. */
  lemma SignalAllBlocksThree(threads: set<Thread>) returns (moves: seq<Move>, s: State)
    requires threads == {0, 1, 2}
    ensures Run(Init(threads), moves) == Some(s) && 2 in s.pc && AtSecondWait(s.pc[2])
    ensures forall rest :: Run(s, rest).Some? ==> StuckSince(s, 2, Run(s, rest).value)
  {
    moves, s := SignalAllWaitsTwice(threads);
    InitInv(threads);
    RunKeepsInv(Init(threads), moves, s);
    forall rest | Run(s, rest).Some? ensures StuckSince(s, 2, Run(s, rest).value) {
      SecondWaitLasts(s, 2, rest, Run(s, rest).value);
    }
  }

  // ---------- Calls and their returns ----------

  /** The call a thread is in; `held` is the side of mu_ it was made from. Wait is called holding mu_. */
  datatype Call = NoCall | Waiting | Signalling(held: bool) | SignallingAll(held: bool)

  function CallOf(p: Pc): Call {
    if IsWait(p) then Waiting
    else if IsSignal(p) then Signalling(HoldsMu(p))
    else if IsSignalAll(p) then SignallingAll(HoldsMu(p))
    else NoCall
  }

  /** The call an action of client code makes. */
  function CallBy(a: Action, held: bool): Call {
    match a
    case CallWait => Waiting
    case CallSignal => Signalling(held)
    case CallSignalAll => SignallingAll(held)
    case _ => NoCall
  }

  /** `t` is in client code again, on the side of mu_ it called from: holding it, if it did then. */
  predicate BackFrom(s: State, t: Thread, c: Call) {
    && t in s.pc && s.pc[t] == (if c.Waiting? || (!c.NoCall? && c.held) then Inside else Outside)
    && (s.pc[t].Inside? <==> s.mu == Some(t))
  }

  /** How many steps of its own a call has left at most. */
  function StepsLeft(p: Pc): nat {
    match p
    case WLock => 7 case WCount => 6 case WUnlock => 5 case WUnlockMu => 4 case WSem1 => 3 case WSem2 => 2
    case WLockMu => 1
    case SLock(_) => 5 case STest(_) => 4 case SPost(_) => 3 case SAck(_) => 2 case SUnlock(_, _) => 1
    case ALock(_) => 8
    case _ => 1 + CallLeft(p)
  }

  function Budget(c: Call): nat {
    match c
    case Waiting => 7
    case Signalling(_) => 5
    case SignallingAll(_) => 8
    case NoCall => 0
  }

  /** A step of client code takes or leaves mu_, or enters the call it makes. */
  lemma ClientCalls(s: State, t: Thread, a: Action, s': State)
    requires MutexInv(s) && t in s.pc && CallOf(s.pc[t]).NoCall? && Step(s, t, a) == Some(s')
    ensures t in s'.pc && CallOf(s'.pc[t]) == CallBy(a, s.mu == Some(t))
    ensures !CallBy(a, s.mu == Some(t)).NoCall? ==> StepsLeft(s'.pc[t]) == Budget(CallOf(s'.pc[t]))
    ensures a.Lock? ==> s'.pc[t].Inside? && s'.mu == Some(t)
    ensures a.Unlock? ==> s'.pc[t].Outside? && s'.mu == None
    ensures s'.finished == s.finished && s'.wakes == s.wakes
  {
    var inside := s.pc[t].Inside?;
    assert inside <==> s.mu == Some(t);
    ClientEnters(s, t, inside, a, s');
  }

  lemma ClientEnters(s: State, t: Thread, inside: bool, a: Action, s': State)
    requires ClientStep(s, t, inside, a) == Some(s')
    ensures t in s'.pc && s'.finished == s.finished && s'.wakes == s.wakes
    ensures CallOf(s'.pc[t]) == CallBy(a, inside)
    ensures !CallBy(a, inside).NoCall? ==> StepsLeft(s'.pc[t]) == Budget(CallBy(a, inside))
    ensures a.Lock? ==> s'.pc[t].Inside? && s'.mu == Some(t)
    ensures a.Unlock? ==> s'.pc[t].Outside? && s'.mu == None
  {
  }

  /** A step from `p` inside a call brings it on, or ends it on the side of mu_ it was made from. */
  ghost predicate Advances(p: Pc, s': State, t: Thread) {
    && t in s'.pc
    && if CallOf(s'.pc[t]).NoCall? then BackFrom(s', t, CallOf(p)) && StepsLeft(p) == 1
       else CallOf(s'.pc[t]) == CallOf(p) && StepsLeft(s'.pc[t]) < StepsLeft(p)
  }

  lemma WaitAdvances(s: State, t: Thread, s': State)
    requires MutexInv(s) && t in s.pc && IsWait(s.pc[t]) && WaitStep(s, t) == Some(s')
    ensures Advances(s.pc[t], s', t) && s'.finished == s.finished
  {
  }

  lemma SignalAdvances(s: State, t: Thread, s': State)
    requires MutexInv(s) && t in s.pc && IsSignal(s.pc[t]) && SignalStep(s, t) == Some(s')
    ensures Advances(s.pc[t], s', t)
    ensures s'.finished ==
            s.finished + if s.pc[t].SUnlock? then [Record(s.eligible, s.pc[t].saw, s.released)] else []
    ensures s.pc[t].SUnlock? <==> CallOf(s'.pc[t]).NoCall?
  {
  }

  lemma SignalAllAdvances(s: State, t: Thread, s': State, c: nat, w: nat)
    requires t in s.pc && IsSignalAll(s.pc[t]) && SignalAllStep(s, t) == Some(s')
    requires Balanced(s, c, w) && (InSignal(s.pc[t]) ==> Holder(s) == s.pc[t])
    requires HoldsMu(s.pc[t]) <==> s.mu == Some(t)
    ensures Advances(s.pc[t], s', t)
    ensures s.pc[t].AUnlock? <==> CallOf(s'.pc[t]).NoCall?
  {
    if s.pc[t].AUnlock? {
      assert s' == Finish(s, t, s.pc[t].held, s.pc[t].n > 0);
    } else {
      assert StepsLeft(s'.pc[t]) < StepsLeft(s.pc[t]);
    }
  }

  lemma SignalAllRecords(s: State, t: Thread, s': State)
    requires t in s.pc && IsSignalAll(s.pc[t]) && SignalAllStep(s, t) == Some(s')
    ensures s'.finished ==
            s.finished + if s.pc[t].AUnlock? then [Record(s.eligible, s.pc[t].n > 0, s.released)] else []
  {
  }

  /**
   * Inside a call a step brings the call on or ends it. `Wait` ends holding mu_ again, and Signal
   * and SignalAll end on the side of mu_ they were called from, each leaving one record.
   */
  lemma CallReturns(s: State, t: Thread, s': State)
    requires Inv(s) && t in s.pc && !CallOf(s.pc[t]).NoCall? && Step(s, t, Proceed) == Some(s')
    ensures Advances(s.pc[t], s', t)
    ensures if !CallOf(s'.pc[t]).NoCall? || IsWait(s.pc[t]) then s'.finished == s.finished
            else exists r :: s'.finished == s.finished + [r] && r.eligible == s.eligible && r.released == s.released
  {
    var p := s.pc[t];
    if InSignal(p) { assert Holder(s) == p; }
    if IsWait(p) {
      WaitAdvances(s, t, s');
    } else if IsSignal(p) {
      SignalAdvances(s, t, s');
      assert p.SUnlock? ==> s'.finished == s.finished + [Record(s.eligible, p.saw, s.released)];
    } else {
      SignalAllAdvances(s, t, s', |Counted(s.pc)|, |Woken(s.pc)|);
      SignalAllRecords(s, t, s');
      assert p.AUnlock? ==> s'.finished == s.finished + [Record(s.eligible, p.n > 0, s.released)];
    }
  }

  /**
   * Along a run from `s`, `t` is in the call `c` until it is back from it, which takes no more than
   * `left` steps of its own.
   */
  ghost predicate UntilBack(s: State, moves: seq<Move>, t: Thread, c: Call, left: int)
    requires Run(s, moves).Some?
    decreases moves
  {
    BackFrom(s, t, c) ||
    (t in s.pc && CallOf(s.pc[t]) == c && left > 0 && (moves == [] ||
      UntilBack(Step(s, moves[0].t, moves[0].a).value, moves[1..], t, c, left - Bit(moves[0].t == t))))
  }

  lemma {:induction false} CallLasts(s: State, moves: seq<Move>, t: Thread, c: Call, left: int)
    requires Inv(s) && BackOrIn(s, t, c, left) && Run(s, moves).Some?
    ensures UntilBack(s, moves, t, c, left)
    decreases moves
  {
    hide Inv, CallOf, StepsLeft, BackFrom;
    if !BackFrom(s, t, c) && moves != [] {
      var m := moves[0];
      var next := Step(s, m.t, m.a).value;
      StepInCall(s, t, c, left, m, next);
      CallLasts(next, moves[1..], t, c, left - Bit(m.t == t));
    }
  }

  predicate BackOrIn(s: State, t: Thread, c: Call, left: int) {
    BackFrom(s, t, c) || (t in s.pc && c != NoCall && CallOf(s.pc[t]) == c && 0 < StepsLeft(s.pc[t]) <= left)
  }

  lemma StepInCall(s: State, t: Thread, c: Call, left: int, m: Move, s': State)
    requires Inv(s) && BackOrIn(s, t, c, left) && !BackFrom(s, t, c) && m.t in s.pc && Step(s, m.t, m.a) == Some(s')
    ensures Inv(s') && BackOrIn(s', t, c, left - Bit(m.t == t))
  {
    StepKeepsInv(s, m.t, m.a, s');
    if m.t == t {
      CallReturns(s, t, s');
      if !CallOf(s'.pc[t]).NoCall? { StepsRemain(s'.pc[t]); }
    } else {
      StepMovesOne(s, m.t, m.a, s');
    }
  }

  lemma StepsRemain(p: Pc)
    requires !CallOf(p).NoCall?
    ensures StepsLeft(p) > 0
  {
  }

  lemma CallBegins(s: State, t: Thread, a: Action, s1: State)
    requires Inv(s) && t in s.pc && Step(s, t, a) == Some(s1)
    requires a.CallWait? || a.CallSignal? || a.CallSignalAll?
    ensures Inv(s1) && (s.pc[t].Inside? <==> s.mu == Some(t))
    ensures BackOrIn(s1, t, CallBy(a, s.mu == Some(t)), Budget(CallBy(a, s.mu == Some(t))))
  {
    StepKeepsInv(s, t, a, s1);
    ClientCalls(s, t, a, s1);
    StepsRemain(s1.pc[t]);
  }

  /**
   * Over every run: a thread that calls Wait is in Wait until it is in client code holding mu_
   * again, and one that calls Signal or SignalAll is in that call until it is in client code
   * holding mu_ exactly if it held mu_ when it called. It takes at most 7, 5 and 8 steps of its own.
   */
  lemma CallComesBack(threads: set<Thread>, before: seq<Move>, s: State, t: Thread, a: Action, s1: State,
      moves: seq<Move>)
    requires Run(Init(threads), before) == Some(s) && t in s.pc && Step(s, t, a) == Some(s1)
    requires a.CallWait? || a.CallSignal? || a.CallSignalAll?
    requires Run(s1, moves).Some?
    ensures s.pc[t].Inside? <==> s.mu == Some(t)
    ensures var c := CallBy(a, s.mu == Some(t)); UntilBack(s1, moves, t, c, Budget(c))
  {
    hide Inv, BackOrIn, UntilBack;
    InitInv(threads);
    RunKeepsInv(Init(threads), before, s);
    CallBegins(s, t, a, s1);
    CallLasts(s1, moves, t, CallBy(a, s.mu == Some(t)), Budget(CallBy(a, s.mu == Some(t))));
  }

  // ---------- Wakeups are returns ----------

  /** Past `sem1_`, on the way back from Wait. */
  predicate IsReturning(p: Pc) {
    p.WSem2? || p.WLockMu?
  }

  /** How often a run brings `t` back from Wait. */
  function WaitReturns(s: State, moves: seq<Move>, t: Thread): nat
    requires t in s.pc && Run(s, moves).Some?
    decreases moves
  {
    if moves == [] then 0
    else
      var next := Step(s, moves[0].t, moves[0].a).value;
      if t in next.pc then Bit(IsWait(s.pc[t]) && !IsWait(next.pc[t])) + WaitReturns(next, moves[1..], t) else 0
  }

  lemma StepWakes(s: State, u: Thread, a: Action, s': State, t: Thread)
    requires Inv(s) && t in s.pc && u in s.pc && Step(s, u, a) == Some(s')
    ensures t in s'.pc
    ensures multiset(s'.wakes)[t] - Bit(IsReturning(s'.pc[t])) ==
            multiset(s.wakes)[t] - Bit(IsReturning(s.pc[t])) + Bit(IsWait(s.pc[t]) && !IsWait(s'.pc[t]))
  {
    StepMovesOne(s, u, a, s');
    if IsWait(s.pc[u]) {
      WaitWakes(s, u, s', t);
    } else {
      OtherCodeWakesNobody(s, u, a, s');
    }
  }

  lemma WaitWakes(s: State, u: Thread, s': State, t: Thread)
    requires t in s.pc && u in s.pc && IsWait(s.pc[u]) && WaitStep(s, u) == Some(s') && t in s'.pc
    ensures multiset(s'.wakes)[t] - Bit(IsReturning(s'.pc[t])) ==
            multiset(s.wakes)[t] - Bit(IsReturning(s.pc[t])) + Bit(IsWait(s.pc[t]) && !IsWait(s'.pc[t]))
  {
    if s.pc[u].WSem1? { assert s'.wakes == s.wakes + [u]; }
  }

  lemma OtherCodeWakesNobody(s: State, u: Thread, a: Action, s': State)
    requires u in s.pc && !IsWait(s.pc[u]) && Step(s, u, a) == Some(s')
    ensures s'.wakes == s.wakes && u in s'.pc && !IsReturning(s'.pc[u])
  {
  }

  lemma {:induction false} RunWakes(s: State, moves: seq<Move>, s': State, t: Thread)
    requires Inv(s) && t in s.pc && Run(s, moves) == Some(s')
    ensures t in s'.pc
    ensures multiset(s'.wakes)[t] - Bit(IsReturning(s'.pc[t])) ==
            multiset(s.wakes)[t] - Bit(IsReturning(s.pc[t])) + WaitReturns(s, moves, t)
    decreases moves
  {
    if moves != [] {
      var m := moves[0];
      var next := Step(s, m.t, m.a).value;
      StepWakes(s, m.t, m.a, next, t);
      StepKeepsInv(s, m.t, m.a, next);
      RunWakes(next, moves[1..], s', t);
    }
  }

  /**
   * No spurious wakeups and no lost ones: over every run the times `t` has been released, by the
   * signals `NoTheft` speaks of, are the times its calls of Wait have returned, and one more while
   * a released call is still on its way back.
   */
  lemma WakesAreReturns(threads: set<Thread>, moves: seq<Move>, s: State, t: Thread)
    requires t in threads && Run(Init(threads), moves) == Some(s)
    ensures t in s.pc
    ensures multiset(s.wakes)[t] == WaitReturns(Init(threads), moves, t) + Bit(IsReturning(s.pc[t]))
    ensures s.wakes == Flatten(s.finished) + s.released
  {
    InitInv(threads);
    RunWakes(Init(threads), moves, s, t);
    RunKeepsInv(Init(threads), moves, s);
  }

  // ---------- What one signal does ----------

  lemma {:induction false} SpanLasts(s: State, t: Thread, moves: seq<Move>, s': State)
    requires Inv(s) && t in s.pc && InSignal(s.pc[t]) && Run(s, moves) == Some(s') && |s'.finished| == |s.finished|
    ensures t in s'.pc && InSignal(s'.pc[t]) && s'.eligible == s.eligible && s'.finished == s.finished
    decreases moves
  {
    if moves != [] {
      var m := moves[0];
      var next := Step(s, m.t, m.a).value;
      StepKeepsInv(s, m.t, m.a, next);
      FinishedGrows(s, [m], next);
      FinishedGrows(next, moves[1..], s');
      if m.t == t {
        OwnStepInSpan(s, t, m.a, next);
      } else {
        OtherStepGoesOn(s, t, m.t, m.a, next);
      }
      SpanLasts(next, t, moves[1..], s');
    }
  }

  lemma OwnStepInSpan(s: State, t: Thread, a: Action, s': State)
    requires t in s.pc && InSignal(s.pc[t]) && Step(s, t, a) == Some(s') && |s'.finished| == |s.finished|
    ensures t in s'.pc && InSignal(s'.pc[t]) && s'.eligible == s.eligible && s'.finished == s.finished
  {
  }

  lemma LockBeginsSpan(s: State, t: Thread, s': State)
    requires t in s.pc && (s.pc[t].SLock? || s.pc[t].ALock?) && Step(s, t, Proceed) == Some(s')
    ensures t in s'.pc && InSignal(s'.pc[t]) && s.waitMutex.None?
    ensures s'.eligible == Counted(s.pc) && s'.finished == s.finished && s'.wakes == s.wakes && s'.released == []
  {
  }

  lemma RecordIsFair(s: State, s2: State, s': State, r: Record)
    requires Inv(s) && Inv(s2) && Inv(s') && s.waitMutex.None?
    requires s'.finished == s.finished + [r] && s2.finished == s.finished && r.released == s2.released
    requires s'.wakes == s2.wakes
    ensures Fair(r) && s'.wakes == s.wakes + r.released
    ensures r.eligible == {} ==> r.released == []
    ensures r.eligible != {} ==> |r.released| == 1 && r.released == [r.released[0]] && r.released[0] in r.eligible
  {
    hide MutexInv, CountInv;
    assert r in s'.finished && Holder(s) == Outside;
    assert s.wakes == Flatten(s.finished);
  }

  /**
   * What one call of Signal or SignalAll does, over every interleaving with the other threads: if it takes
   * wait_mtx_ in `s` and gives it back in `s'`, then exactly the threads woken in between are in
   * its record; there is none if nobody was counted in `s`, and otherwise one, who was.
   */
  lemma SignalWakesOne(s: State, t: Thread, s1: State, moves: seq<Move>, s2: State, s': State)
    requires Inv(s) && t in s.pc && (s.pc[t].SLock? || s.pc[t].ALock?) && Step(s, t, Proceed) == Some(s1)
    requires Run(s1, moves) == Some(s2) && |s2.finished| == |s.finished|
    requires t in s2.pc && Step(s2, t, Proceed) == Some(s') && |s'.finished| > |s2.finished|
    ensures exists r :: s'.finished == s.finished + [r] && r.eligible == Counted(s.pc)
                        && s'.wakes == s.wakes + r.released
    ensures if Counted(s.pc) == {} then s'.wakes == s.wakes
            else exists u :: u in Counted(s.pc) && s'.wakes == s.wakes + [u]
  {
    LockBeginsSpan(s, t, s1);
    StepKeepsInv(s, t, Proceed, s1);
    SpanLasts(s1, t, moves, s2);
    RunKeepsInv(s1, moves, s2);
    StepKeepsInv(s2, t, Proceed, s');
    CallReturns(s2, t, s');
    var r :| s'.finished == s2.finished + [r] && r.eligible == s2.eligible && r.released == s2.released;
    OtherCodeWakesNobody(s2, t, Proceed, s');
    RecordIsFair(s, s2, s', r);
  }

  // ---------- Nobody is stuck ----------

  /** `t` has nothing to wait for but a mutex somebody holds, a permit, or an acknowledgement. */
  lemma BlockedOnlyBy(s: State, t: Thread)
    requires t in s.pc && !CallOf(s.pc[t]).NoCall?
    ensures var p := s.pc[t];
      Step(s, t, Proceed).None? <==>
        || ((p.WLock? || p.SLock? || p.ALock?) && s.waitMutex.Some?)
        || (p.WLockMu? && s.mu.Some?)
        || (p.WSem1? && s.sem1 == 0)
        || ((p.SAck? || p.AAck?) && s.sem2 == 0)
  {
  }

  /** In client code a thread can make every call; only mu_, if taken, can keep it from what it asks for. */
  lemma ClientIsFree(s: State, t: Thread)
    requires MutexInv(s) && t in s.pc && CallOf(s.pc[t]).NoCall?
    ensures Step(s, t, CallSignal).Some? && Step(s, t, CallSignalAll).Some?
    ensures s.mu == Some(t) ==> Step(s, t, CallWait).Some? && Step(s, t, Unlock).Some?
    ensures s.mu == None ==> Step(s, t, Lock).Some?
  {
  }

  predicate CanProceed(s: State, t: Thread) {
    t in s.pc && Step(s, t, Proceed).Some?
  }

  /** The holder of wait_mtx_ can go on, or one of its waiters can; or it is at the second wait of SignalAll. */
  lemma HolderGoesOn(s: State, t: Thread)
    requires Inv(s) && t in s.pc && s.waitMutex == Some(t) && !AtSecondWait(s.pc[t])
    ensures exists u :: CanProceed(s, u)
  {
    BlockedOnlyBy(s, t);
    assert Holder(s) == s.pc[t];
    if !CanProceed(s, t) {
      HandshakeEnabled(s, t);
      var u :| u in s.pc && InHandshake(s.pc[u]) && Step(s, u, Proceed).Some?;
      assert CanProceed(s, u);
    }
  }

  /**
   * There is no deadlock: as long as nobody stands at the second wait of SignalAll, in every
   * reachable state where some thread is in a call and not just waiting to be signalled, a thread
   * can go on, or client code holds mu_.
   */
  lemma NeverStuck(threads: set<Thread>, moves: seq<Move>, s: State, t: Thread)
    requires Run(Init(threads), moves) == Some(s)
    requires t in s.pc && !CallOf(s.pc[t]).NoCall? && !s.pc[t].WSem1?
    requires forall u :: u in s.pc ==> !AtSecondWait(s.pc[u])
    ensures (exists u :: CanProceed(s, u)) || (s.mu.Some? && s.mu.value in s.pc && s.pc[s.mu.value].Inside?)
  {
    InitInv(threads);
    RunKeepsInv(Init(threads), moves, s);
    BlockedOnlyBy(s, t);
    if s.waitMutex.Some? {
      HolderGoesOn(s, s.waitMutex.value);
    } else if s.pc[t].WLockMu? && s.mu.Some? {
      var u := s.mu.value;
      if !s.pc[u].Inside? {
        BlockedOnlyBy(s, u);
        assert CanProceed(s, u);
      }
    } else {
      assert CanProceed(s, t);
    }
  }

  /** From outside a call of Signal comes to post its permit, if nobody holds wait_mtx_ and somebody waits. */
  lemma SignalPosts(s: State, t: Thread) returns (moves: seq<Move>, s': State)
    requires t in s.pc && s.pc[t].Outside? && s.waitMutex.None? && s.waiting > 0 && s.sem1 == 0
    ensures Run(s, moves) == Some(s') && s'.pc == s.pc[t := SAck(false)]
    ensures s'.mu == s.mu && s'.waiting == s.waiting - 1 && s'.sem1 == 1 && s'.sem2 == s.sem2
    ensures s'.wakes == s.wakes
  {
    var s1 := Step(s, t, CallSignal).value;
    var s2 := Step(s1, t, Proceed).value;
    var s3 := Step(s2, t, Proceed).value;
    s' := Step(s3, t, Proceed).value;
    assert s'.pc == s.pc[t := SAck(false)];
    RunOne(s3, t, Proceed);
    moves := RunBefore(s2, t, Proceed, [Move(t, Proceed)]);
    moves := RunBefore(s1, t, Proceed, moves);
    moves := RunBefore(s, t, CallSignal, moves);
  }

  /** Acknowledged, it comes back, and the waiter takes mu_ again. */
  lemma BothReturn(s: State, t: Thread, u: Thread) returns (moves: seq<Move>, s': State)
    requires t in s.pc && u in s.pc && s.pc[t] == SAck(false) && s.pc[u].WLockMu? && s.mu.None? && s.sem2 == 1
    ensures Run(s, moves) == Some(s') && s'.pc == s.pc[t := Outside][u := Inside]
    ensures s'.mu == Some(u) && s'.waiting == s.waiting && s'.wakes == s.wakes
  {
    var s1 := Step(s, t, Proceed).value;
    var s2 := Step(s1, t, Proceed).value;
    s' := Step(s2, u, Proceed).value;
    assert s'.pc == s.pc[t := Outside][u := Inside];
    RunOne(s2, u, Proceed);
    moves := RunBefore(s1, t, Proceed, [Move(u, Proceed)]);
    moves := RunBefore(s, t, Proceed, moves);
  }

  /**
   * A signal can reach anybody: when nobody holds a mutex, a thread outside can signal so that any one
   * thread that waits, whichever is named, returns from Wait holding mu_, and everyone else waits on.
   */
  lemma SignalCanWake(s: State, t: Thread, u: Thread) returns (moves: seq<Move>, s': State)
    requires Inv(s) && s.mu.None? && s.waitMutex.None?
    requires t in s.pc && s.pc[t].Outside? && u in s.pc && s.pc[u].WSem1?
    ensures Run(s, moves) == Some(s') && s'.pc == s.pc[u := Inside]
    ensures s'.mu == Some(u) && s'.waiting == s.waiting - 1 && s'.wakes == s.wakes + [u]
  {
    assert u in Counted(s.pc);
    assert |Counted(s.pc)| > 0;
    var s1, s2, more;
    moves, s1 := SignalPosts(s, t);
    more, s2 := WaiterAcknowledges(s1, u);
    RunBoth(s, moves, more);
    moves := moves + more;
    more, s' := BothReturn(s2, t, u);
    RunBoth(s, moves, more);
    moves := moves + more;
    assert s'.pc == s.pc[u := Inside];
  }
}
