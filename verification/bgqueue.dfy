/**
 * env_boost.cc, PosixEnv::Schedule and PosixEnv::BGThread: a queue of work for one background
 * thread, as steps of any number of callers and of the threads `Schedule` starts.
 */
module BackgroundQueues {
  import opened Options
  import opened Sequences

  type Thread = nat

  datatype Item = Item(function_: nat, arg: nat)

  /** Schedule, lines 523 to 541; `mu_` is held from CStart to CUnlock. */
  datatype CallerPc = CIdle | CLock(item: Item) | CStart(item: Item) | CPush(item: Item) | CUnlock | CNotify

  /** BGThread, lines 543 to 559. A notified thread has left the condition but not yet got `mu_` back. */
  datatype WorkerPc = BLock | BTest | BWaiting | BNotified | BPop | BUnlock(item: Item) | BRun(item: Item)

  datatype Owner = Caller(c: Thread) | Worker(w: Thread)

  /** `started` is whether bgthread_ is set; `pushed` and `ran` are history. */
  datatype State = State(
    callers: map<Thread, CallerPc>, workers: map<Thread, WorkerPc>, mu: Option<Owner>,
    started: bool, queue: seq<Item>, pushed: seq<Item>, ran: seq<Item>)

  /**
   * `Call` begins a Schedule; `wake` is whom a notification reaches, if anyone waits; a waiter may
   * also wake by itself.
   */
  datatype Move =
    | Call(c: Thread, item: Item) | CallerMove(c: Thread, wake: Thread) | WorkerMove(w: Thread) | Spurious(w: Thread)

  function Init(callers: set<Thread>): State {
    State(map c | c in callers :: CIdle, map[], None, false, [], [], [])
  }

  function Step(s: State, m: Move): Option<State> {
    match m
    case Call(c, item) =>
      if c in s.callers && s.callers[c].CIdle? then Some(s.(callers := s.callers[c := CLock(item)])) else None
    case CallerMove(c, wake) => if c in s.callers then CallerStep(s, c, wake) else None
    case WorkerMove(w) => if w in s.workers then WorkerStep(s, w) else None
    case Spurious(w) =>
      if w in s.workers && s.workers[w].BWaiting? then Some(s.(workers := s.workers[w := BNotified])) else None
  }

  function CallerStep(s: State, c: Thread, wake: Thread): Option<State>
    requires c in s.callers
  {
    match s.callers[c]
    case CIdle => None
    case CLock(item) =>
      if s.mu.Some? then None else Some(s.(callers := s.callers[c := CStart(item)], mu := Some(Caller(c))))
    case CStart(item) =>
      var s1 := s.(callers := s.callers[c := CPush(item)]);
      Some(if s.started then s1 else s1.(started := true, workers := s.workers[|s.workers| := BLock]))
    case CPush(item) =>
      Some(s.(callers := s.callers[c := CUnlock], queue := s.queue + [item], pushed := s.pushed + [item]))
    case CUnlock => Some(s.(callers := s.callers[c := CNotify], mu := None))
    case CNotify =>
      var s1 := s.(callers := s.callers[c := CIdle]);
      if forall w :: w in s.workers ==> !s.workers[w].BWaiting? then Some(s1)
      else if wake in s.workers && s.workers[wake].BWaiting? then Some(s1.(workers := s.workers[wake := BNotified]))
      else None
  }

  function WorkerStep(s: State, w: Thread): Option<State>
    requires w in s.workers
  {
    match s.workers[w]
    case BLock => if s.mu.Some? then None else Some(s.(workers := s.workers[w := BTest], mu := Some(Worker(w))))
    case BTest =>
      if s.queue == [] then Some(s.(workers := s.workers[w := BWaiting], mu := None))
      else Some(s.(workers := s.workers[w := BPop]))
    case BWaiting => None
    case BNotified => if s.mu.Some? then None else Some(s.(workers := s.workers[w := BTest], mu := Some(Worker(w))))
    case BPop =>
      if s.queue == [] then None
      else Some(s.(workers := s.workers[w := BUnlock(s.queue[0])], queue := s.queue[1..]))
    case BUnlock(item) => Some(s.(workers := s.workers[w := BRun(item)], mu := None))
    case BRun(item) => Some(s.(workers := s.workers[w := BLock], ran := s.ran + [item]))
  }

  // ---------- Invariants ----------

  predicate CallerHolds(p: CallerPc) {
    p.CStart? || p.CPush? || p.CUnlock?
  }

  predicate WorkerHolds(p: WorkerPc) {
    p.BTest? || p.BPop? || p.BUnlock?
  }

  ghost predicate MutexInv(s: State) {
    && (forall c :: c in s.callers ==> (CallerHolds(s.callers[c]) <==> s.mu == Some(Caller(c))))
    && (forall w :: w in s.workers ==> (WorkerHolds(s.workers[w]) <==> s.mu == Some(Worker(w))))
    && (match s.mu case None => true case Some(Caller(c)) => c in s.callers case Some(Worker(w)) => w in s.workers)
  }

  /** One background thread, once one is needed. */
  ghost predicate OneWorker(s: State) {
    && s.workers.Keys == (if s.started then {0} else {})
    && (s.queue != [] ==> s.started)
    && (forall c :: c in s.callers && s.callers[c].CPush? ==> s.started)
    && (forall w :: w in s.workers && s.workers[w].BPop? ==> s.queue != [])
  }

  /** The item taken off the queue whose call has not returned. */
  function InFlight(s: State): seq<Item> {
    if 0 !in s.workers then []
    else
      match s.workers[0]
      case BUnlock(item) => [item]
      case BRun(item) => [item]
      case _ => []
  }

  ghost predicate Fifo(s: State) {
    s.ran + InFlight(s) + s.queue == s.pushed
  }

  /** A caller has pushed and not yet notified. */
  ghost predicate NotifyDue(s: State) {
    exists c :: c in s.callers && (s.callers[c].CUnlock? || s.callers[c].CNotify?)
  }

  /** The worker waits for a notification. */
  ghost predicate SomeoneWaits(s: State) {
    exists w :: w in s.workers && s.workers[w].BWaiting?
  }

  ghost predicate NoLostWakeup(s: State) {
    s.queue != [] && SomeoneWaits(s) ==> NotifyDue(s)
  }

  ghost predicate Inv(s: State) {
    MutexInv(s) && OneWorker(s) && Fifo(s) && NoLostWakeup(s)
  }

  lemma CallerKeepsMutex(s: State, c: Thread, wake: Thread, s': State)
    requires MutexInv(s) && OneWorker(s) && c in s.callers && CallerStep(s, c, wake) == Some(s')
    ensures MutexInv(s')
  {
  }

  lemma WorkerKeepsMutex(s: State, w: Thread, s': State)
    requires MutexInv(s) && w in s.workers && WorkerStep(s, w) == Some(s')
    ensures MutexInv(s')
  {
  }

  lemma StepKeepsMutex(s: State, m: Move, s': State)
    requires MutexInv(s) && OneWorker(s) && Step(s, m) == Some(s')
    ensures MutexInv(s')
  {
    match m
    case CallerMove(c, wake) => CallerKeepsMutex(s, c, wake, s');
    case WorkerMove(w) => WorkerKeepsMutex(s, w, s');
    case _ =>
  }

  lemma StepKeepsOneWorker(s: State, m: Move, s': State)
    requires MutexInv(s) && OneWorker(s) && Step(s, m) == Some(s')
    ensures OneWorker(s')
  {
  }

  lemma CallerKeepsFifo(s: State, c: Thread, wake: Thread, s': State)
    requires OneWorker(s) && Fifo(s) && c in s.callers && CallerStep(s, c, wake) == Some(s')
    ensures Fifo(s')
  {
    assert InFlight(s') == InFlight(s);
  }

  lemma WorkerKeepsFifo(s: State, w: Thread, s': State)
    requires OneWorker(s) && Fifo(s) && w in s.workers && WorkerStep(s, w) == Some(s')
    ensures Fifo(s')
  {
    assert w == 0;
    if s.workers[0].BPop? {
      assert s.queue == [s.queue[0]] + s.queue[1..];
    }
  }

  lemma StepKeepsFifo(s: State, m: Move, s': State)
    requires OneWorker(s) && Fifo(s) && Step(s, m) == Some(s')
    ensures Fifo(s')
  {
    match m
    case CallerMove(c, wake) => CallerKeepsFifo(s, c, wake, s');
    case WorkerMove(w) => WorkerKeepsFifo(s, w, s');
    case _ => assert InFlight(s') == InFlight(s);
  }

  /** A notification that is due stays due, unless it is given; then nobody waits any more. */
  lemma CallerKeepsNotify(s: State, c: Thread, wake: Thread, s': State)
    requires OneWorker(s) && c in s.callers && CallerStep(s, c, wake) == Some(s')
    ensures s.callers[c].CPush? ==> NotifyDue(s')
    ensures !s.callers[c].CPush? ==> s'.queue == s.queue
    ensures NotifyDue(s) && SomeoneWaits(s') ==> NotifyDue(s')
    ensures SomeoneWaits(s') ==> SomeoneWaits(s)
  {
    if s.callers[c].CPush? {
      assert s'.callers[c].CUnlock?;
    }
    if NotifyDue(s) && SomeoneWaits(s') {
      var d :| d in s.callers && (s.callers[d].CUnlock? || s.callers[d].CNotify?);
      assert s'.callers[d].CUnlock? || s'.callers[d].CNotify?;
    }
  }

  lemma WorkerKeepsNotify(s: State, w: Thread, s': State)
    requires OneWorker(s) && w in s.workers && WorkerStep(s, w) == Some(s')
    ensures s'.callers == s.callers
    ensures s'.queue != [] ==> !SomeoneWaits(s')
  {
  }

  lemma StepKeepsWakeups(s: State, m: Move, s': State)
    requires OneWorker(s) && NoLostWakeup(s) && Step(s, m) == Some(s')
    ensures NoLostWakeup(s')
  {
    match m
    case CallerMove(c, wake) => CallerKeepsNotify(s, c, wake, s');
    case WorkerMove(w) => WorkerKeepsNotify(s, w, s');
    case Call(c, _) => OthersKeepNotify(s, m, s');
    case Spurious(_) => OthersKeepNotify(s, m, s');
  }

  lemma OthersKeepNotify(s: State, m: Move, s': State)
    requires (m.Call? || m.Spurious?) && Step(s, m) == Some(s')
    ensures s'.queue == s.queue && (NotifyDue(s) ==> NotifyDue(s')) && (SomeoneWaits(s') ==> SomeoneWaits(s))
  {
    if NotifyDue(s) {
      var d :| d in s.callers && (s.callers[d].CUnlock? || s.callers[d].CNotify?);
      assert s'.callers[d] == s.callers[d];
    }
  }

  lemma StepKeepsInv(s: State, m: Move, s': State)
    requires Inv(s) && Step(s, m) == Some(s')
    ensures Inv(s')
  {
    StepKeepsMutex(s, m, s');
    StepKeepsOneWorker(s, m, s');
    StepKeepsFifo(s, m, s');
    StepKeepsWakeups(s, m, s');
  }

  // ---------- Whole runs ----------

  function Run(s: State, moves: seq<Move>): Option<State>
    decreases moves
  {
    if moves == [] then Some(s)
    else
      match Step(s, moves[0])
      case None => None
      case Some(s') => Run(s', moves[1..])
  }

  lemma {:induction false} RunKeepsInv(s: State, moves: seq<Move>, s': State)
    requires Inv(s) && Run(s, moves) == Some(s')
    ensures Inv(s')
    decreases moves
  {
    if moves != [] {
      var next := Step(s, moves[0]).value;
      StepKeepsInv(s, moves[0], next);
      RunKeepsInv(next, moves[1..], s');
    }
  }

  /** An item and the caller it is from. */
  datatype Entry = Entry(c: Thread, item: Item)

  function Items(es: seq<Entry>): (items: seq<Item>)
    ensures |items| == |es| && forall i :: 0 <= i < |es| ==> items[i] == es[i].item
  {
    seq(|es|, i requires 0 <= i < |es| => es[i].item)
  }

  function Of(es: seq<Entry>, c: Thread): seq<Item> {
    if es == [] then [] else (if es[0].c == c then [es[0].item] else []) + Of(es[1..], c)
  }

  /** What `Schedule` is called with, by whom, in the order of the calls: the moves alone say that. */
  function Calls(moves: seq<Move>): seq<Entry> {
    if moves == [] then []
    else (if moves[0].Call? then [Entry(moves[0].c, moves[0].item)] else []) + Calls(moves[1..])
  }

  /** The pushes a run has made, in the order they were made. */
  function PushLog(s: State, moves: seq<Move>): seq<Entry>
    requires Run(s, moves).Some?
    decreases moves
  {
    if moves == [] then [] else PushesOf(s, moves[0]) + PushLog(Step(s, moves[0]).value, moves[1..])
  }

  function PushesOf(s: State, m: Move): seq<Entry>
    requires Step(s, m).Some?
  {
    match m
    case CallerMove(c, _) => (match s.callers[c] case CPush(item) => [Entry(c, item)] case _ => [])
    case _ => []
  }

  function Pushes(s: State, moves: seq<Move>): seq<Item>
    requires Run(s, moves).Some?
  {
    Items(PushLog(s, moves))
  }

  lemma {:induction false} RunPushes(s: State, moves: seq<Move>, s': State)
    requires Run(s, moves) == Some(s')
    ensures s'.pushed == s.pushed + Pushes(s, moves)
    decreases moves
  {
    if moves != [] {
      var next := Step(s, moves[0]).value;
      RunPushes(next, moves[1..], s');
      StepPushes(s, moves[0], next);
      ItemsOfBoth(PushesOf(s, moves[0]), PushLog(next, moves[1..]));
      AppendAssociates(s.pushed, Items(PushesOf(s, moves[0])), Pushes(next, moves[1..]));
    }
  }

  lemma StepPushes(s: State, m: Move, s': State)
    requires Step(s, m) == Some(s')
    ensures s'.pushed == s.pushed + Items(PushesOf(s, m))
  {
  }

  lemma ItemsOfBoth(a: seq<Entry>, b: seq<Entry>)
    ensures Items(a + b) == Items(a) + Items(b)
  {
  }

  // ---------- What is pushed is what was called ----------

  /** The item a caller has taken and not pushed. */
  function Held(callers: map<Thread, CallerPc>, c: Thread): seq<Item> {
    if c !in callers then []
    else
      match callers[c]
      case CLock(item) => [item] case CStart(item) => [item] case CPush(item) => [item]
      case _ => []
  }

  /** An idle caller, and no other, can call at any time. */
  lemma CallsAreTaken(s: State, c: Thread, item: Item)
    ensures Step(s, Call(c, item)).Some? <==> c in s.callers && s.callers[c].CIdle?
    ensures Step(s, Call(c, item)).Some? ==> Held(Step(s, Call(c, item)).value.callers, c) == [item]
  {
  }

  lemma StepCarries(s: State, m: Move, s': State, c: Thread)
    requires Step(s, m) == Some(s')
    ensures Held(s.callers, c) + Of(Calls([m]), c) == Of(PushesOf(s, m), c) + Held(s'.callers, c)
  {
    assert [m][1..] == [];
    match m
    case Call(u, item) => OfOne(Entry(u, item), c);
    case CallerMove(u, wake) =>
      CallerPasses(s, u, wake, s');
      if s.callers[u].CPush? { OfOne(Entry(u, s.callers[u].item), c); }
    case _ => assert s'.callers == s.callers;
  }

  lemma OfOne(e: Entry, c: Thread)
    ensures Of([e], c) == if e.c == c then [e.item] else []
  {
    assert [e][1..] == [];
  }

  lemma {:induction false} OfBoth(a: seq<Entry>, b: seq<Entry>, c: Thread)
    ensures Of(a + b, c) == Of(a, c) + Of(b, c)
  {
    if a == [] {
      assert a + b == b;
    } else {
      assert (a + b)[1..] == a[1..] + b;
      OfBoth(a[1..], b, c);
    }
  }

  lemma CallsFirst(moves: seq<Move>)
    requires moves != []
    ensures Calls(moves) == Calls([moves[0]]) + Calls(moves[1..])
  {
    assert [moves[0]][1..] == [];
  }

  /**
   * Over every run each caller pushes, in order, the items of its own calls; only the last may be
   * still on its way.
   */
  lemma {:induction false} CallerPushesItsCalls(s: State, moves: seq<Move>, s': State, c: Thread)
    requires Run(s, moves) == Some(s')
    ensures Held(s.callers, c) + Of(Calls(moves), c) == Of(PushLog(s, moves), c) + Held(s'.callers, c)
    decreases moves
  {
    if moves != [] {
      var next := Step(s, moves[0]).value;
      StepCarries(s, moves[0], next, c);
      CallerPushesItsCalls(next, moves[1..], s', c);
      CallsFirst(moves);
      OfBoth(Calls([moves[0]]), Calls(moves[1..]), c);
      OfBoth(PushesOf(s, moves[0]), PushLog(next, moves[1..]), c);
      var held, called, pushed := Held(s.callers, c), Of(Calls([moves[0]]), c), Of(PushesOf(s, moves[0]), c);
      AppendAssociates(held, called, Of(Calls(moves[1..]), c));
      AppendAssociates(pushed, Held(next.callers, c), Of(Calls(moves[1..]), c));
      AppendAssociates(pushed, Of(PushLog(next, moves[1..]), c), Held(s'.callers, c));
    }
  }

  /** The callers with this item on its way. */
  function Holders(callers: map<Thread, CallerPc>, x: Item): set<Thread> {
    set c | c in callers && Held(callers, c) == [x]
  }

  lemma HoldersMove(callers: map<Thread, CallerPc>, c: Thread, p: CallerPc, x: Item)
    requires c in callers
    ensures |Holders(callers[c := p], x)| + Count(Held(callers, c), x) ==
            |Holders(callers, x)| + Count(Held(callers[c := p], c), x)
  {
    var a, b := Holders(callers, x), Holders(callers[c := p], x);
    assert b == if Held(callers[c := p], c) == [x] then a + {c} else a - {c};
    assert c in a <==> Held(callers, c) == [x];
  }

  function Count(items: seq<Item>, x: Item): nat {
    multiset(items)[x]
  }

  lemma StepCounts(s: State, m: Move, s': State, x: Item)
    requires Step(s, m) == Some(s')
    ensures Count(s'.pushed, x) + |Holders(s'.callers, x)| ==
            Count(s.pushed, x) + |Holders(s.callers, x)| + Count(Items(Calls([m])), x)
  {
    match m
    case Call(c, item) => CallCounts(s, c, item, s', x);
    case CallerMove(c, wake) => CallerCounts(s, c, wake, s', x);
    case WorkerMove(w) => assert s'.callers == s.callers && s'.pushed == s.pushed;
    case Spurious(w) => assert s'.callers == s.callers && s'.pushed == s.pushed;
  }

  lemma CallCounts(s: State, c: Thread, item: Item, s': State, x: Item)
    requires Step(s, Call(c, item)) == Some(s')
    ensures Count(s'.pushed, x) + |Holders(s'.callers, x)| ==
            Count(s.pushed, x) + |Holders(s.callers, x)| + Count(Items(Calls([Call(c, item)])), x)
  {
    var m := Call(c, item);
    assert [m][1..] == [] && Calls([m]) == [Entry(c, item)];
    assert Items([Entry(c, item)]) == [item];
    HoldersMove(s.callers, c, CLock(item), x);
  }

  lemma CallerCounts(s: State, c: Thread, wake: Thread, s': State, x: Item)
    requires c in s.callers && CallerStep(s, c, wake) == Some(s')
    ensures Count(s'.pushed, x) + |Holders(s'.callers, x)| == Count(s.pushed, x) + |Holders(s.callers, x)|
  {
    CallerPasses(s, c, wake, s');
    HoldersMove(s.callers, c, s'.callers[c], x);
  }

  /** A caller's step keeps what it holds, or pushes that. */
  lemma CallerPasses(s: State, c: Thread, wake: Thread, s': State)
    requires c in s.callers && CallerStep(s, c, wake) == Some(s')
    ensures c in s'.callers && s'.callers == s.callers[c := s'.callers[c]]
    ensures var before, after := Held(s.callers, c), Held(s'.callers, c);
      if s.callers[c].CPush? then after == [] && s'.pushed == s.pushed + before
      else after == before && s'.pushed == s.pushed
  {
  }

  lemma {:induction false} RunCounts(s: State, moves: seq<Move>, s': State, x: Item)
    requires Run(s, moves) == Some(s')
    ensures Count(s'.pushed, x) + |Holders(s'.callers, x)| ==
            Count(s.pushed, x) + |Holders(s.callers, x)| + Count(Items(Calls(moves)), x)
    decreases moves
  {
    if moves != [] {
      var next := Step(s, moves[0]).value;
      StepCounts(s, moves[0], next, x);
      RunCounts(next, moves[1..], s', x);
      CallsFirst(moves);
      ItemsOfBoth(Calls([moves[0]]), Calls(moves[1..]));
    }
  }

  /**
   * Over every interleaving, what has run, then what is running, then what is queued is exactly
   * what was pushed, in the order it was pushed: each item runs at most once, in FIFO order, on
   * the one thread there is.
   */
  lemma RunsInOrder(callers: set<Thread>, moves: seq<Move>, s: State)
    requires Run(Init(callers), moves) == Some(s)
    ensures s.ran + InFlight(s) + s.queue == Pushes(Init(callers), moves)
    ensures |InFlight(s)| <= 1 && |s.workers| <= 1
  {
    RunKeepsInv(Init(callers), moves, s);
    RunPushes(Init(callers), moves, s);
    assert s.workers.Keys <= {0};
    if s.started { assert |s.workers.Keys| == 1; }
  }

  // ---------- No lost wake-up, no deadlock ----------

  predicate CanStep(s: State, m: Move) {
    Step(s, m).Some?
  }

  /**
   * While work is queued, some step that is not a new call can be taken: by the worker, or by a
   * caller on its way out.
   */
  lemma WorkGoesOn(callers: set<Thread>, moves: seq<Move>, s: State)
    requires Run(Init(callers), moves) == Some(s) && s.queue != []
    ensures exists m: Move :: (m.WorkerMove? || m.CallerMove?) && CanStep(s, m)
    ensures 0 in s.workers
    ensures s.workers[0].BWaiting? ==>
      exists c :: c in s.callers && (s.callers[c].CUnlock? || s.callers[c].CNotify?) && CanStep(s, CallerMove(c, 0))
  {
    RunKeepsInv(Init(callers), moves, s);
    assert 0 in s.workers;
    if s.workers[0].BWaiting? {
      var c :| c in s.callers && (s.callers[c].CUnlock? || s.callers[c].CNotify?);
      assert CanStep(s, CallerMove(c, 0));
    } else if (s.workers[0].BLock? || s.workers[0].BNotified?) && s.mu.Some? {
      match s.mu.value
      case Caller(c) => assert CanStep(s, CallerMove(c, 0));
      case Worker(w) => assert false;
    } else {
      assert CanStep(s, WorkerMove(0));
    }
  }

  // ---------- Everything scheduled gets run ----------

  /** How many steps a caller has left. */
  function Left(p: CallerPc): nat {
    match p
    case CIdle => 0 case CNotify => 1 case CUnlock => 2 case CPush(_) => 3 case CStart(_) => 4 case CLock(_) => 5
  }

  function LeftAtLeast(callers: map<Thread, CallerPc>, k: nat): set<Thread> {
    set c | c in callers && Left(callers[c]) >= k
  }

  function CallersLeft(callers: map<Thread, CallerPc>): nat {
    |LeftAtLeast(callers, 1)| + |LeftAtLeast(callers, 2)| + |LeftAtLeast(callers, 3)| +
    |LeftAtLeast(callers, 4)| + |LeftAtLeast(callers, 5)|
  }

  lemma LeftMoves(callers: map<Thread, CallerPc>, c: Thread, p: CallerPc, k: nat)
    requires c in callers && Left(callers[c]) == Left(p) + 1
    ensures |LeftAtLeast(callers[c := p], k)| == |LeftAtLeast(callers, k)| - if k == Left(callers[c]) then 1 else 0
  {
    var a, b := LeftAtLeast(callers, k), LeftAtLeast(callers[c := p], k);
    if k == Left(callers[c]) {
      assert b == a - {c} && c in a;
    } else {
      assert b == a;
    }
  }

  lemma CallersMove(callers: map<Thread, CallerPc>, c: Thread, p: CallerPc)
    requires c in callers && Left(callers[c]) == Left(p) + 1
    ensures CallersLeft(callers[c := p]) == CallersLeft(callers) - 1
  {
    LeftMoves(callers, c, p, 1);
    LeftMoves(callers, c, p, 2);
    LeftMoves(callers, c, p, 3);
    LeftMoves(callers, c, p, 4);
    LeftMoves(callers, c, p, 5);
  }

  /** How many steps the worker has left if nothing is queued. */
  function WorkerLeft(s: State): nat {
    if 0 !in s.workers then 0
    else
      match s.workers[0]
      case BWaiting => 0 case BPop => 0 case BTest => 1 case BLock => 2 case BNotified => 2
      case BRun(_) => 3 case BUnlock(_) => 4
  }

  function WorkLeft(s: State): nat {
    20 * CallersLeft(s.callers) + 5 * |s.queue| + WorkerLeft(s)
  }

  lemma CallerGoesOn(s: State, c: Thread, wake: Thread, s': State)
    requires OneWorker(s) && c in s.callers && CallerStep(s, c, wake) == Some(s')
    ensures c in s'.callers && s'.callers == s.callers[c := s'.callers[c]]
    ensures Left(s.callers[c]) == Left(s'.callers[c]) + 1
    ensures WorkerLeft(s') <= WorkerLeft(s) + 2 && |s'.queue| <= |s.queue| + 1
  {
  }

  lemma CallerWorksOff(s: State, c: Thread, wake: Thread, s': State)
    requires OneWorker(s) && c in s.callers && CallerStep(s, c, wake) == Some(s')
    ensures WorkLeft(s') < WorkLeft(s)
  {
    CallerGoesOn(s, c, wake, s');
    CallersMove(s.callers, c, s'.callers[c]);
  }

  lemma WorkerWorksOff(s: State, w: Thread, s': State)
    requires OneWorker(s) && w in s.workers && WorkerStep(s, w) == Some(s')
    ensures WorkLeft(s') < WorkLeft(s)
  {
    assert w == 0 && s'.callers == s.callers;
  }

  lemma StepWorksOff(s: State, m: Move, s': State)
    requires OneWorker(s) && (m.CallerMove? || m.WorkerMove?) && Step(s, m) == Some(s')
    ensures WorkLeft(s') < WorkLeft(s)
  {
    if m.CallerMove? {
      CallerWorksOff(s, m.c, m.wake, s');
    } else {
      WorkerWorksOff(s, m.w, s');
    }
  }

  /**
   * However they are scheduled, the calls under way and the worker take at most `WorkLeft` steps
   * before they come to rest.
   */
  lemma {:induction false} RunEnds(s: State, moves: seq<Move>, s': State)
    requires Inv(s) && Run(s, moves) == Some(s')
    requires forall m :: m in moves ==> m.CallerMove? || m.WorkerMove?
    ensures |moves| + WorkLeft(s') <= WorkLeft(s)
    decreases moves
  {
    if moves != [] {
      assert moves[0] in moves;
      var next := Step(s, moves[0]).value;
      StepKeepsInv(s, moves[0], next);
      StepWorksOff(s, moves[0], next);
      RunEnds(next, moves[1..], s');
    }
  }

  lemma RestIsQuiet(callers: set<Thread>, moves: seq<Move>, s: State)
    requires Run(Init(callers), moves) == Some(s)
    requires forall m: Move :: m.CallerMove? || m.WorkerMove? ==> !CanStep(s, m)
    ensures s.ran == Pushes(Init(callers), moves) == s.pushed
    ensures forall c :: c in s.callers ==> s.callers[c].CIdle?
  {
    RunKeepsInv(Init(callers), moves, s);
    RunPushes(Init(callers), moves, s);
    if s.queue != [] {
      WorkGoesOn(callers, moves, s);
      assert false;
    }
    assert 0 in s.workers ==> !CanStep(s, WorkerMove(0));
    assert s.mu.Some? && s.mu.value.Caller? ==> CanStep(s, CallerMove(s.mu.value.c, 0));
    assert InFlight(s) == [] && s.ran + [] + [] == s.ran;
    forall c | c in s.callers ensures s.callers[c].CIdle? {
      assert !CanStep(s, CallerMove(c, 0));
    }
  }

  /**
   * And at rest everything pushed has run: exactly the items `Schedule` was called with, those of
   * each caller in the order of its calls.
   */
  lemma RestIsDone(callers: set<Thread>, moves: seq<Move>, s: State)
    requires Run(Init(callers), moves) == Some(s)
    requires forall m: Move :: m.CallerMove? || m.WorkerMove? ==> !CanStep(s, m)
    ensures s.ran == Pushes(Init(callers), moves)
    ensures forall c :: c in s.callers ==> s.callers[c].CIdle?
    ensures multiset(s.ran) == multiset(Items(Calls(moves)))
    ensures forall c :: Of(PushLog(Init(callers), moves), c) == Of(Calls(moves), c)
  {
    RestIsQuiet(callers, moves, s);
    IdleIsPushed(Init(callers), moves, s);
  }

  /** From idle callers to idle callers what is pushed is what was called. */
  lemma IdleIsPushed(s: State, moves: seq<Move>, s': State)
    requires Run(s, moves) == Some(s') && s.pushed == []
    requires forall c :: c in s.callers ==> s.callers[c].CIdle?
    requires forall c :: c in s'.callers ==> s'.callers[c].CIdle?
    ensures multiset(s'.pushed) == multiset(Items(Calls(moves)))
    ensures forall c :: Of(PushLog(s, moves), c) == Of(Calls(moves), c)
  {
    forall c ensures Of(PushLog(s, moves), c) == Of(Calls(moves), c) {
      CallerPushesItsCalls(s, moves, s', c);
      assert [] + Of(Calls(moves), c) == Of(Calls(moves), c);
      assert Of(PushLog(s, moves), c) + [] == Of(PushLog(s, moves), c);
    }
    forall x: Item ensures multiset(s'.pushed)[x] == multiset(Items(Calls(moves)))[x] {
      RunCounts(s, moves, s', x);
      assert Holders(s'.callers, x) == {} && Holders(s.callers, x) == {};
      assert Count(s.pushed, x) == 0;
    }
  }
}
