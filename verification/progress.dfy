/**
 * The concurrent skip list gets on: every `Iterator::next` takes a walk to the very next published
 * node, no schedule keeps a walk from its end or an insertion from its own.
 */
module ConcurrentProgress {
  import opened Options
  import opened Orders
  import opened Levels
  import opened Sequences
  import opened ConcurrentReaders

  // ---------- Walks ----------

  lemma IndexIsUnique(spine: seq<Handle>, p: nat)
    requires Distinct(spine) && 1 <= p < |spine|
    ensures spine[p] in spine[1..] && IndexOf(spine, spine[p]) == p
  {
    assert spine[1..][p - 1] == spine[p];
    DistinctFrom(spine, p);
  }

  /**
   * `next` goes from a node to the one published right after it, or to the end if it was the last;
   * it is possible exactly at a node, and changes nothing but the walk.
   */
  lemma NextAdvances<K(!new)>(cmp: (K, K) -> int, s: State<K>, t: Thread)
    requires Inv(cmp, s)
    ensures Step(cmp, s, Next(t)).Some? <==> t in s.readers && s.readers[t].at != NIL
    ensures Step(cmp, s, Next(t)).Some? ==> var rd := s.readers[t];
      && rd.at in s.spine[1..]
      && var to := NodeAt(s.spine, NIL, IndexOf(s.spine, rd.at) + 1);
         Step(cmp, s, Next(t)) ==
         Some(SetReader(s, t, Reader(to, if to == NIL then rd.seen else rd.seen + [to], rd.ahead)))
  {
    if t in s.readers && s.readers[t].at != NIL {
      LevelZero(cmp, s, IndexOf(s.spine, s.readers[t].at));
    }
  }

  /** A walk can start at any time at the front, which is then the node it has seen. */
  lemma SeeksToFront<K(!new)>(cmp: (K, K) -> int, s: State<K>, t: Thread)
    requires Inv(cmp, s)
    ensures var front := NodeAt(s.spine, NIL, 1);
      Step(cmp, s, SeekToFirst(t)) ==
      Some(SetReader(s, t, Reader(front, if front == NIL then [] else [front], NodesFrom(s.spine, 1))))
  {
    LevelZero(cmp, s, 0);
    var front := NodeAt(s.spine, NIL, 1);
    assert [] + [front] == [front];
  }

  /** And at any published node. */
  lemma StartsAtNode<K(!new)>(cmp: (K, K) -> int, s: State<K>, t: Thread, p: nat)
    requires Inv(cmp, s) && 1 <= p < |s.spine|
    ensures Step(cmp, s, StartAt(t, s.spine[p])) ==
            Some(SetReader(s, t, Reader(s.spine[p], [s.spine[p]], NodesFrom(s.spine, p))))
  {
    IndexIsUnique(s.spine, p);
    assert [] + [s.spine[p]] == [s.spine[p]];
  }

  /** How many steps of the walk `t` a run takes. */
  function NextSteps<K(!new)>(moves: seq<Move<K>>, t: Thread): nat {
    if moves == [] then 0 else Bit(IsNextOf(moves[0], t)) + NextSteps(moves[1..], t)
  }

  predicate IsNextOf<K>(m: Move<K>, t: Thread) {
    m.Next? && m.t == t
  }

  /** The walk `t` is at the `p`-th published node, or through them all. */
  ghost predicate WalkAt<K>(s: State<K>, t: Thread, p: nat) {
    t in s.readers && 1 <= p <= |s.spine| && s.readers[t].at == NodeAt(s.spine, NIL, p)
  }

  lemma WalkIsSomewhere<K(!new)>(cmp: (K, K) -> int, s: State<K>, t: Thread) returns (p: nat)
    requires Inv(cmp, s) && t in s.readers
    ensures WalkAt(s, t, p) && (p == |s.spine| <==> s.readers[t].at == NIL)
  {
    var rd := s.readers[t];
    assert ReaderInv(cmp, s, rd);
    p := if rd.at == NIL then |s.spine| else IndexOf(s.spine, rd.at);
  }

  /** The nodes a walk comes to on its way from the `p`-th to the `q`-th. */
  ghost function Stretch(spine: seq<Handle>, p: nat, q: nat): seq<Handle>
    requires p <= q <= |spine|
  {
    if p == q then [] else spine[p + 1..if q < |spine| then q + 1 else q]
  }

  lemma SeesNext(seen: seq<Handle>, spine: seq<Handle>, p: nat)
    requires p < |spine| && forall i :: 0 <= i < |spine| ==> spine[i] != NIL
    ensures var to := NodeAt(spine, NIL, p + 1);
      (if to == NIL then seen else seen + [to]) == seen + Stretch(spine, p, p + 1)
  {
    assert seen + [] == seen;
    assert Stretch(spine, p, p + 1) == if p + 1 < |spine| then [spine[p + 1]] else [];
  }

  lemma NextGoesOn<K(!new)>(cmp: (K, K) -> int, s: State<K>, t: Thread, p: nat)
    requires Inv(cmp, s) && WalkAt(s, t, p)
    ensures Step(cmp, s, Next(t)).Some? <==> p < |s.spine|
    ensures p < |s.spine| ==> var s' := Step(cmp, s, Next(t)).value; var rd := s.readers[t];
      && s' == SetReader(s, t, Reader(NodeAt(s.spine, NIL, p + 1), rd.seen + Stretch(s.spine, p, p + 1), rd.ahead))
      && WalkAt(s', t, p + 1)
  {
    NextAdvances(cmp, s, t);
    if p < |s.spine| {
      IndexIsUnique(s.spine, p);
      SeesNext(s.readers[t].seen, s.spine, p);
    }
  }

  /**
   * After `n` steps of its own the walk `t` has come from the `p`-th to the `q`-th node. Publications
   * may have taken it further; without any it has been at the nodes it went to.
   */
  ghost predicate Advanced<K>(s: State<K>, t: Thread, p: nat, n: nat, q: nat, s': State<K>) {
    && WalkAt(s, t, p) && WalkAt(s', t, q) && |s.spine| <= |s'.spine| && p + n <= q
    && (|s'.spine| == |s.spine| ==>
          s'.spine == s.spine && q == p + n && s'.readers[t].seen == s.readers[t].seen + Stretch(s.spine, p, q))
  }

  lemma StandsStill<K>(s: State<K>, t: Thread, p: nat, s': State<K>)
    requires WalkAt(s, t, p) && t in s'.readers && s'.readers[t] == s.readers[t] && s'.spine == s.spine
    ensures Advanced(s, t, p, 0, p, s')
  {
    assert s.readers[t].seen + [] == s.readers[t].seen;
  }

  lemma PublicationAdvances<K(!new)>(cmp: (K, K) -> int, s: State<K>, t: Thread, p: nat, s': State<K>) returns (q: nat)
    requires Shape(cmp, s) && WriterInv(cmp, s) && WriterStep(cmp, s, StorePrev) == Some(s') && s.writer.level == 0
    requires WalkAt(s, t, p)
    ensures Advanced(s, t, p, 0, q, s')
  {
    q := if p < |s.spine| then Shift(s.writer.at, p) else |s'.spine|;
  }

  /** Whatever step is taken, the walk is at least as far as before, and further by one if the step is its own. */
  lemma StepAdvances<K(!new)>(cmp: (K, K) -> int, s: State<K>, m: Move<K>, t: Thread, p: nat, s': State<K>)
      returns (q: nat)
    requires IsOrder(cmp) && Inv(cmp, s) && Step(cmp, s, m) == Some(s') && !Starts(m, t) && WalkAt(s, t, p)
    ensures Advanced(s, t, p, Bit(IsNextOf(m, t)), q, s')
  {
    if IsNextOf(m, t) {
      NextGoesOn(cmp, s, t, p);
      q := p + 1;
    } else if m.StorePrev? && s.writer.level == 0 {
      q := PublicationAdvances(cmp, s, t, p, s');
    } else {
      q := p;
      OtherStepsPublishNothing(cmp, s, m, t, s');
      StandsStill(s, t, p, s');
    }
  }

  lemma OtherStepsPublishNothing<K(!new)>(cmp: (K, K) -> int, s: State<K>, m: Move<K>, t: Thread, s': State<K>)
    requires Inv(cmp, s) && Step(cmp, s, m) == Some(s') && !Starts(m, t) && !IsNextOf(m, t)
    requires !(m.StorePrev? && s.writer.level == 0)
    ensures s'.spine == s.spine
    ensures t in s.readers ==> t in s'.readers && s'.readers[t] == s.readers[t]
  {
  }

  lemma StretchesJoin(spine: seq<Handle>, p: nat, q: nat, r: nat)
    requires p <= q <= r <= |spine|
    ensures Stretch(spine, p, q) + Stretch(spine, q, r) == Stretch(spine, p, r)
  {
    if p < q < r {
      assert spine[p + 1..q + 1] + spine[q + 1..if r < |spine| then r + 1 else r] ==
             spine[p + 1..if r < |spine| then r + 1 else r];
    }
  }

  lemma SeenJoins(seen: seq<Handle>, spine: seq<Handle>, p: nat, q: nat, r: nat)
    requires p <= q <= r <= |spine|
    ensures seen + Stretch(spine, p, q) + Stretch(spine, q, r) == seen + Stretch(spine, p, r)
  {
    StretchesJoin(spine, p, q, r);
    AppendAssociates(seen, Stretch(spine, p, q), Stretch(spine, q, r));
  }

  lemma FrontJoins(spine: seq<Handle>)
    requires |spine| > 0
    ensures spine[1..if 1 < |spine| then 2 else 1] + Stretch(spine, 1, |spine|) == spine[1..]
  {
  }

  lemma AdvancesJoin<K>(s: State<K>, t: Thread, p: nat, n: nat, q: nat, s1: State<K>, m: nat, r: nat, s': State<K>)
    requires Advanced(s, t, p, n, q, s1) && Advanced(s1, t, q, m, r, s')
    ensures Advanced(s, t, p, n + m, r, s')
  {
    if |s'.spine| == |s.spine| {
      SeenJoins(s.readers[t].seen, s.spine, p, q, r);
    }
  }

  lemma {:induction false} RunAdvances<K(!new)>(cmp: (K, K) -> int, s: State<K>, moves: seq<Move<K>>, t: Thread,
      p: nat, s': State<K>) returns (q: nat)
    requires IsOrder(cmp) && Inv(cmp, s) && Run(cmp, s, moves) == Some(s') && WalkAt(s, t, p)
    requires forall m :: m in moves ==> !Starts(m, t)
    ensures Advanced(s, t, p, NextSteps(moves, t), q, s')
    decreases moves
  {
    if moves == [] {
      q := p;
      StandsStill(s, t, p, s');
    } else {
      var next := Step(cmp, s, moves[0]).value;
      assert moves[0] in moves;
      StepKeepsInv(cmp, s, moves[0], next);
      var half := StepAdvances(cmp, s, moves[0], t, p, next);
      q := RunAdvances(cmp, next, moves[1..], t, half, s');
      AdvancesJoin(s, t, p, Bit(IsNextOf(moves[0], t)), half, next, NextSteps(moves[1..], t), q, s');
    }
  }

  /**
   * What `n` steps of its own have done for the walk `t`, which was at the `p`-th node: there were
   * no more of them than nodes from there on and nodes published since; if there were as many the
   * walk is through; and if nothing was published it is `n` nodes further, and has seen just those.
   */
  ghost predicate Progressed<K>(s: State<K>, t: Thread, p: nat, n: nat, s': State<K>) {
    && t in s.readers && t in s'.readers && p <= |s.spine| <= |s'.spine|
    && (var published := |s'.spine| - |s.spine|;
        && n <= |s.spine| - p + published
        && (n == |s.spine| - p + published ==> s'.readers[t].at == NIL)
        && (published == 0 ==>
              && s'.spine == s.spine && s'.readers[t].at == NodeAt(s.spine, NIL, p + n)
              && s'.readers[t].seen == s.readers[t].seen + Stretch(s.spine, p, p + n)))
  }

  /**
   * Whatever the writer and the other readers do meanwhile, a walk takes at most as many Next steps
   * as there were nodes from its own on plus those published since, and as many bring it to the
   * end. With no publication in between it has been at the nodes in between, one by one and in order.
   */
  lemma WalkAdvances<K(!new)>(cmp: (K, K) -> int, s: State<K>, t: Thread, p: nat, moves: seq<Move<K>>, s': State<K>)
    requires IsOrder(cmp) && Inv(cmp, s) && Run(cmp, s, moves) == Some(s') && WalkAt(s, t, p)
    requires forall m :: m in moves ==> !Starts(m, t)
    ensures Progressed(s, t, p, NextSteps(moves, t), s')
  {
    var q := RunAdvances(cmp, s, moves, t, p, s');
    AdvancedIsProgress(s, t, p, NextSteps(moves, t), q, s');
  }

  lemma AdvancedIsProgress<K>(s: State<K>, t: Thread, p: nat, n: nat, q: nat, s': State<K>)
    requires Advanced(s, t, p, n, q, s')
    ensures Progressed(s, t, p, n, s')
  {
  }

  ghost predicate OnlyNexts<K(!new)>(moves: seq<Move<K>>, t: Thread) {
    forall i :: 0 <= i < |moves| ==> IsNextOf(moves[i], t)
  }

  lemma {:induction false} CountNexts<K(!new)>(moves: seq<Move<K>>, t: Thread)
    requires OnlyNexts(moves, t)
    ensures NextSteps(moves, t) == |moves| && forall m :: m in moves ==> !Starts(m, t)
  {
    if moves != [] {
      assert IsNextOf(moves[0], t);
      CountNexts(moves[1..], t);
    }
  }

  lemma NextLeads<K(!new)>(cmp: (K, K) -> int, s: State<K>, t: Thread, p: nat, moves: seq<Move<K>>)
      returns (s': State<K>)
    requires IsOrder(cmp) && Inv(cmp, s) && WalkAt(s, t, p) && p < |s.spine|
    requires moves != [] && IsNextOf(moves[0], t)
    ensures Inv(cmp, s') && s'.spine == s.spine && WalkAt(s', t, p + 1)
    ensures Run(cmp, s, moves) == Run(cmp, s', moves[1..])
  {
    NextGoesOn(cmp, s, t, p);
    s' := Step(cmp, s, moves[0]).value;
    StepKeepsInv(cmp, s, moves[0], s');
  }

  lemma {:induction false} NextsRun<K(!new)>(cmp: (K, K) -> int, s: State<K>, t: Thread, p: nat, moves: seq<Move<K>>)
      returns (s': State<K>)
    requires IsOrder(cmp) && Inv(cmp, s) && WalkAt(s, t, p) && OnlyNexts(moves, t) && |moves| <= |s.spine| - p
    ensures Run(cmp, s, moves) == Some(s') && s'.spine == s.spine
    decreases moves
  {
    hide Inv;
    s' := s;
    if moves != [] {
      var next := NextLeads(cmp, s, t, p, moves);
      s' := NextsRun(cmp, next, t, p + 1, moves[1..]);
    }
  }

  lemma NextsFinish<K(!new)>(cmp: (K, K) -> int, s: State<K>, t: Thread, p: nat, moves: seq<Move<K>>)
    requires IsOrder(cmp) && Inv(cmp, s) && WalkAt(s, t, p) && p + |moves| == |s.spine| && OnlyNexts(moves, t)
    ensures Run(cmp, s, moves).Some? && Progressed(s, t, p, |moves|, Run(cmp, s, moves).value)
    ensures Run(cmp, s, moves).value.spine == s.spine
  {
    var s' := NextsRun(cmp, s, t, p, moves);
    CountNexts(moves, t);
    WalkAdvances(cmp, s, t, p, moves, Run(cmp, s, moves).value);
  }

  lemma StartRecordsAhead<K(!new)>(cmp: (K, K) -> int, s: State<K>, start: Move<K>, t: Thread, s': State<K>)
    requires IsOrder(cmp) && Inv(cmp, s) && Starts(start, t) && Step(cmp, s, start) == Some(s')
    ensures t in s'.readers && forall h :: Ahead(cmp, s, start, h) ==> h in s'.readers[t].ahead
  {
    AllAheadIsRecorded(cmp, s, start, t, s');
  }

  lemma ThroughHasSeenAll<K(!new)>(cmp: (K, K) -> int, s: State<K>, t: Thread)
    requires Inv(cmp, s) && t in s.readers && s.readers[t].at == NIL
    ensures forall h :: h in s.readers[t].ahead ==> h in s.readers[t].seen
  {
    WalkSoFar(cmp, s, s.readers[t]);
  }

  /**
   * A walk gets through. From wherever it is, after any run, `Next` steps alone, fewer than there
   * are published nodes, take it to the end, and by then it has been at every node that was
   * published and ahead of it when it began.
   */
  lemma WalkFinishes<K(!new)>(cmp: (K, K) -> int, s: State<K>, start: Move<K>, t: Thread, s1: State<K>,
                              moves: seq<Move<K>>, s2: State<K>) returns (rest: seq<Move<K>>, s': State<K>)
    requires IsOrder(cmp) && Inv(cmp, s) && Starts(start, t) && Step(cmp, s, start) == Some(s1)
    requires Inv(cmp, s1) && Run(cmp, s1, moves) == Some(s2)
    requires forall m :: m in moves ==> !Starts(m, t)
    ensures Inv(cmp, s2) && OnlyNexts(rest, t) && |rest| < |s2.spine| && Run(cmp, s2, rest) == Some(s')
    ensures t in s'.readers && s'.readers[t].at == NIL
    ensures forall h :: Ahead(cmp, s, start, h) ==> h in s'.readers[t].seen
  {
    hide Inv;
    RunWalksOn(cmp, s1, moves, t, s2);
    StartRecordsAhead(cmp, s, start, t, s1);
    var p := WalkIsSomewhere(cmp, s2, t);
    rest := seq(|s2.spine| - p, _ => Next(t));
    NextsFinish(cmp, s2, t, p, rest);
    s' := Run(cmp, s2, rest).value;
    CountNexts(rest, t);
    RunWalksOn(cmp, s2, rest, t, s');
    ThroughHasSeenAll(cmp, s', t);
  }

  lemma SeekIsAtFront<K(!new)>(cmp: (K, K) -> int, s: State<K>, t: Thread, s': State<K>)
    requires Inv(cmp, s) && Step(cmp, s, SeekToFirst(t)) == Some(s')
    ensures s'.spine == s.spine && WalkAt(s', t, 1)
    ensures s'.readers[t].seen == s.spine[1..if 1 < |s.spine| then 2 else 1]
  {
    SeeksToFront(cmp, s, t);
  }

  /** Left alone, a walk from the front is at all published nodes, in their order. */
  lemma WalkListsAll<K(!new)>(cmp: (K, K) -> int, s: State<K>, t: Thread, s1: State<K>, moves: seq<Move<K>>)
    requires IsOrder(cmp) && Inv(cmp, s) && Step(cmp, s, SeekToFirst(t)) == Some(s1) && Inv(cmp, s1)
    requires OnlyNexts(moves, t) && 1 + |moves| == |s.spine|
    ensures Run(cmp, s1, moves).Some?
    ensures var s' := Run(cmp, s1, moves).value;
      t in s'.readers && s'.readers[t].at == NIL && s'.readers[t].seen == s.spine[1..]
  {
    SeekIsAtFront(cmp, s, t, s1);
    NextsFinish(cmp, s1, t, 1, moves);
    FrontJoins(s.spine);
  }

  // ---------- Insertions ----------

  predicate IsStore<K>(m: Move<K>) {
    m.StoreOwn? || m.StorePrev?
  }

  /** How many stores the insertion under way has still to make: two on each level down to 0. */
  function StoresLeft(w: Writer): nat {
    match w
    case Idle => 0
    case Busy(_, _, _, level, half) => 2 * level + if half then 1 else 2
  }

  /** The insertion under way is the same, with nothing published. */
  ghost predicate SameInsertion<K>(s: State<K>, s': State<K>) {
    && s.writer.Busy? && s'.writer.Busy? && s'.spine == s.spine
    && s'.writer.node == s.writer.node && s'.writer.at == s.writer.at && s'.writer.height == s.writer.height
  }

  /**
   * Exactly one of the two stores is what an insertion does next: on each level the node's own link,
   * then the predecessor's.
   */
  lemma StoreIsNext<K(!new)>(cmp: (K, K) -> int, s: State<K>)
    requires Inv(cmp, s)
    ensures Step(cmp, s, StoreOwn).Some? <==> s.writer.Busy? && !s.writer.half
    ensures Step(cmp, s, StorePrev).Some? <==> s.writer.Busy? && s.writer.half
  {
  }

  lemma StoreCounts<K(!new)>(cmp: (K, K) -> int, s: State<K>, m: Move<K>, s': State<K>)
    requires Inv(cmp, s) && Step(cmp, s, m) == Some(s') && IsStore(m)
    ensures s.writer.Busy? && StoresLeft(s'.writer) == StoresLeft(s.writer) - 1
    ensures StoresLeft(s.writer) > 1 ==> SameInsertion(s, s') && s'.key == s.key
    ensures StoresLeft(s.writer) == 1 ==> m.StorePrev? && s.writer.level == 0 && s'.writer.Idle?
  {
    assert WriterStep(cmp, s, m) == Some(s');
  }

  lemma OthersLeaveInsertion<K(!new)>(cmp: (K, K) -> int, s: State<K>, m: Move<K>, s': State<K>)
    requires Inv(cmp, s) && Step(cmp, s, m) == Some(s') && !IsStore(m) && s.writer.Busy?
    ensures SameInsertion(s, s') && s'.writer == s.writer
  {
  }

  /** How many stores a run makes. */
  function Stores<K(!new)>(moves: seq<Move<K>>): nat {
    if moves == [] then 0 else Bit(IsStore(moves[0])) + Stores(moves[1..])
  }

  lemma StepKeepsPublished<K(!new)>(cmp: (K, K) -> int, s: State<K>, m: Move<K>, s': State<K>)
    requires Inv(cmp, s) && Step(cmp, s, m) == Some(s')
    ensures |s.spine| > 0 && |s'.spine| > 0 && forall h :: h in s.spine[1..] ==> h in s'.spine[1..]
  {
    var t := if m.SeekToFirst? || m.StartAt? then m.t + 1 else 0;
    StepWalksOn(cmp, s, m, t, s');
  }

  lemma StorePublishes<K(!new)>(cmp: (K, K) -> int, s: State<K>, s': State<K>)
    requires Inv(cmp, s) && s.writer.Busy? && s.writer.level == 0 && Step(cmp, s, StorePrev) == Some(s')
    ensures 0 < s.writer.at <= |s.spine| && s'.spine == InsertAt(s.spine, s.writer.at, s.writer.node)
    ensures s.writer.node in s'.spine[1..] && s'.key == s.key
  {
    assert s'.spine[1..][s.writer.at - 1] == s.writer.node;
  }

  /** What `n` stores have done for the insertion under way in `s`: it goes on, or its node is published. */
  ghost predicate InsertionGoesOn<K>(s: State<K>, n: nat, s': State<K>) {
    && s.writer.Busy? && |s'.spine| > 0
    && (n < StoresLeft(s.writer) ==> SameInsertion(s, s') && StoresLeft(s'.writer) + n == StoresLeft(s.writer))
    && (n >= StoresLeft(s.writer) ==> s.writer.node in s'.spine[1..])
  }

  lemma {:induction false} PublishedStays<K(!new)>(cmp: (K, K) -> int, s: State<K>, moves: seq<Move<K>>, h: Handle,
      s': State<K>)
    requires IsOrder(cmp) && Inv(cmp, s) && Run(cmp, s, moves) == Some(s') && |s.spine| > 0 && h in s.spine[1..]
    ensures |s'.spine| > 0 && h in s'.spine[1..]
    decreases moves
  {
    hide Inv;
    if moves != [] {
      var next := Step(cmp, s, moves[0]).value;
      StepKeepsInv(cmp, s, moves[0], next);
      StepKeepsPublished(cmp, s, moves[0], next);
      PublishedStays(cmp, next, moves[1..], h, s');
    }
  }

  /**
   * Over every run the node of the insertion under way is published by the last of its stores, two
   * on each level, and not before; until then nothing else is, and no other insertion begins.
   */
  lemma {:induction false} InsertionEnds<K(!new)>(cmp: (K, K) -> int, s: State<K>, moves: seq<Move<K>>, s': State<K>)
    requires IsOrder(cmp) && Inv(cmp, s) && s.writer.Busy? && Run(cmp, s, moves) == Some(s')
    ensures InsertionGoesOn(s, Stores(moves), s')
    decreases moves
  {
    hide Inv;
    SpineNotEmpty(cmp, s);
    if moves != [] {
      var m := moves[0];
      var next := Step(cmp, s, m).value;
      StepKeepsInv(cmp, s, m, next);
      if IsStore(m) {
        StoreCounts(cmp, s, m, next);
        if StoresLeft(s.writer) == 1 {
          StorePublishes(cmp, s, next);
          PublishedStays(cmp, next, moves[1..], s.writer.node, s');
        } else {
          InsertionEnds(cmp, next, moves[1..], s');
        }
      } else {
        OthersLeaveInsertion(cmp, s, m, next);
        InsertionEnds(cmp, next, moves[1..], s');
      }
    }
  }

  lemma SpineNotEmpty<K(!new)>(cmp: (K, K) -> int, s: State<K>)
    requires Inv(cmp, s)
    ensures |s.spine| > 0
  {
  }

  /** The list after an insertion: idle again, with the key in its place. */
  ghost predicate Inserted<K(!new)>(cmp: (K, K) -> int, s: State<K>, key: K, s': State<K>)
    requires Inv(cmp, s) && Inv(cmp, s')
  {
    var ks := KeysOf(s.spine, s.key);
    s'.writer.Idle? && KeysOf(s'.spine, s'.key) == InsertAt(ks, Rank(cmp, ks, key), key)
  }

  lemma NextStore<K(!new)>(cmp: (K, K) -> int, s: State<K>) returns (m: Move<K>, s': State<K>)
    requires IsOrder(cmp) && Inv(cmp, s) && s.writer.Busy? && s.writer.node in s.key
    ensures IsStore(m) && Step(cmp, s, m) == Some(s') && Inv(cmp, s')
    ensures StoresLeft(s'.writer) == StoresLeft(s.writer) - 1
    ensures StoresLeft(s.writer) > 1 ==> SameInsertion(s, s') && s'.key == s.key
    ensures StoresLeft(s.writer) == 1 ==> Inserted(cmp, s, s.key[s.writer.node], s')
  {
    m := if s.writer.half then StorePrev else StoreOwn;
    StoreIsNext(cmp, s);
    s' := Step(cmp, s, m).value;
    StepKeepsInv(cmp, s, m, s');
    StoreCounts(cmp, s, m, s');
    StepPublishes(cmp, s, m, s');
  }

  lemma {:induction false} StoresFinish<K(!new)>(cmp: (K, K) -> int, s: State<K>)
      returns (moves: seq<Move<K>>, s': State<K>)
    requires IsOrder(cmp) && Inv(cmp, s) && s.writer.Busy? && s.writer.node in s.key
    ensures Run(cmp, s, moves) == Some(s') && Inv(cmp, s') && |moves| == Stores(moves) == StoresLeft(s.writer)
    ensures Inserted(cmp, s, s.key[s.writer.node], s')
    decreases StoresLeft(s.writer)
  {
    hide Inv;
    var m, next := NextStore(cmp, s);
    if StoresLeft(s.writer) == 1 {
      moves, s' := [m], next;
      assert moves[1..] == [];
    } else {
      moves, s' := StoresFinish(cmp, next);
      InsertedFrom(cmp, s, next, s');
      assert ([m] + moves)[1..] == moves;
      moves := [m] + moves;
    }
  }

  lemma InsertedFrom<K(!new)>(cmp: (K, K) -> int, s: State<K>, next: State<K>, s': State<K>)
    requires Inv(cmp, s) && Inv(cmp, next) && Inv(cmp, s') && SameInsertion(s, next) && next.key == s.key
    requires s.writer.node in s.key && Inserted(cmp, next, s.key[s.writer.node], s')
    ensures Inserted(cmp, s, s.key[s.writer.node], s')
  {
  }

  /**
   * Between insertions any new key can be inserted, with a fresh node of any height from 1 to 12:
   * once begun, two stores on each level put the key in its place.
   */
  lemma InsertsAny<K(!new)>(cmp: (K, K) -> int, s: State<K>, node: Handle, key: K, row: seq<Handle>)
      returns (moves: seq<Move<K>>, s1: State<K>, s': State<K>)
    requires IsOrder(cmp) && Inv(cmp, s) && s.writer.Idle? && Absent(cmp, KeysOf(s.spine, s.key), key)
    requires node != NIL && node !in s.next && node !in s.key && 1 <= |row| <= 12
    ensures Step(cmp, s, Begin(node, key, row)) == Some(s1) && Inv(cmp, s1)
    ensures Run(cmp, s1, moves) == Some(s') && Inv(cmp, s') && |moves| == Stores(moves) == 2 * |row|
    ensures Inserted(cmp, s, key, s')
  {
    s1 := Step(cmp, s, Begin(node, key, row)).value;
    StepKeepsInv(cmp, s, Begin(node, key, row), s1);
    StepPublishes(cmp, s, Begin(node, key, row), s1);
    moves, s' := StoresFinish(cmp, s1);
  }
}
