/**
 * skiplist.h, an insertion's stores interleaved with readers that walk with Iterator::next: one
 * writer, any number of readers, each link loaded and stored atomically. Searches that go down
 * levels while a node is being linked are not part of this model.
 */
module ConcurrentReaders {
  import opened Options
  import opened Orders
  import opened Levels
  import opened Sequences

  /** A Node*: null or the address of a node. */
  datatype Handle = NIL | Address(a: nat)

  const HEAD := Address(0)

  type Thread = nat

  /**
   * The insertion under way, skiplist.h:119-124: `node` goes to position `at`, the levels above
   * `level` hold it, and `half` says that its own link on `level` has been stored.
   */
  datatype Writer = Idle | Busy(node: Handle, at: nat, height: nat, level: nat, half: bool)

  /** A walk: where it is, the nodes it has been at, and the nodes from its start on when it began. */
  datatype Reader = Reader(at: Handle, seen: seq<Handle>, ahead: set<Handle>)

  /** `next` and `key` are the heap; `spine` and `hs`, the published nodes and their heights, are history. */
  datatype State<K> = State(
    next: map<Handle, seq<Handle>>, key: map<Handle, K>, spine: seq<Handle>, hs: seq<nat>,
    writer: Writer, readers: map<Thread, Reader>)

  /** The nodes the writer works on: the published ones and the new one among them. */
  ghost function Nodes<K>(s: State<K>): seq<Handle> {
    if s.writer.Busy? && s.writer.at <= |s.spine| then InsertAt(s.spine, s.writer.at, s.writer.node) else s.spine
  }

  ghost function LinksOf(nodes: seq<Handle>, next: map<Handle, seq<Handle>>): (links: seq<seq<Handle>>)
    ensures |links| == |nodes|
    ensures forall i {:trigger links[i]} :: 0 <= i < |nodes| ==>
              links[i] == if nodes[i] in next then next[nodes[i]] else []
  {
    seq(|nodes|, i requires 0 <= i < |nodes| => if nodes[i] in next then next[nodes[i]] else [])
  }

  ghost function KeysOf<K>(spine: seq<Handle>, key: map<Handle, K>): (ks: seq<K>)
    requires |spine| > 0 && forall i :: 1 <= i < |spine| ==> spine[i] in key
    ensures |ks| == |spine| - 1
    ensures forall i {:trigger ks[i]} :: 0 <= i < |ks| ==> ks[i] == key[spine[i + 1]]
  {
    seq(|spine| - 1, i requires 0 <= i < |spine| - 1 => key[spine[i + 1]])
  }

  // ---------- Invariants ----------

  ghost predicate Shape<K(!new)>(cmp: (K, K) -> int, s: State<K>) {
    && |s.spine| == |s.hs| > 0 && s.spine[0] == HEAD && s.hs[0] == MAX_HEIGHT
    && Distinct(s.spine)
    && (forall i :: 0 <= i < |s.spine| ==>
          s.spine[i] in s.next && s.spine[i] != NIL && 1 <= s.hs[i] == |s.next[s.spine[i]]| <= MAX_HEIGHT)
    && (forall i :: 1 <= i < |s.spine| ==> s.spine[i] in s.key)
    && StrictlySorted(cmp, KeysOf(s.spine, s.key))
  }

  ghost predicate WriterInv<K(!new)>(cmp: (K, K) -> int, s: State<K>)
    requires Shape(cmp, s)
  {
    match s.writer
    case Idle =>
      Rows(s.hs, LinksOf(s.spine, s.next)) &&
      forall l {:trigger Linked(s.spine, NIL, s.hs, LinksOf(s.spine, s.next), l)} :: 0 <= l < MAX_HEIGHT ==>
        Linked(s.spine, NIL, s.hs, LinksOf(s.spine, s.next), l)
    case Busy(node, r, h, level, half) =>
      && node != NIL && node in s.next && node in s.key && node !in s.spine
      && 0 < r <= |s.spine| && |s.next[node]| == h && level < h
      && r == Rank(cmp, KeysOf(s.spine, s.key), s.key[node]) + 1
      && Absent(cmp, KeysOf(s.spine, s.key), s.key[node])
      && Linking(s.spine, NIL, s.hs, r, h, node, LinksOf(Nodes(s), s.next), level)
      && (half ==> var links := LinksOf(Nodes(s), s.next);
                   links[r][level] == links[PrevIndex(s.hs, r, level)][level])
  }

  ghost predicate Ascends<K(!new)>(cmp: (K, K) -> int, key: map<Handle, K>, nodes: seq<Handle>) {
    && (forall i :: 0 <= i < |nodes| ==> nodes[i] in key)
    && (forall i, j :: 0 <= i < j < |nodes| ==> cmp(key[nodes[i]], key[nodes[j]]) < 0)
  }

  /** Of the nodes `ahead`, those not seen yet are above the one the walk is at. */
  ghost predicate NothingBehind<K(!new)>(cmp: (K, K) -> int, s: State<K>, at: Handle, seen: seq<Handle>,
      ahead: set<Handle>)
    requires |s.spine| > 0 && (at != NIL ==> at in s.key)
  {
    forall h :: h in ahead ==>
      h in s.key && h in s.spine[1..] && (h in seen || (at != NIL && cmp(s.key[at], s.key[h]) < 0))
  }

  /** A walk has been at ever greater keys, and every node it had ahead it has been at or has still ahead. */
  ghost predicate ReaderInv<K(!new)>(cmp: (K, K) -> int, s: State<K>, rd: Reader)
    requires |s.spine| > 0
  {
    && (rd.at != NIL ==> rd.at in s.key && rd.at in s.spine[1..] && |rd.seen| > 0 && rd.seen[|rd.seen| - 1] == rd.at)
    && Ascends(cmp, s.key, rd.seen) && (forall h :: h in rd.seen ==> h in s.spine[1..])
    && NothingBehind(cmp, s, rd.at, rd.seen, rd.ahead)
  }

  ghost predicate Inv<K(!new)>(cmp: (K, K) -> int, s: State<K>) {
    && Shape(cmp, s) && WriterInv(cmp, s)
    && forall t :: t in s.readers ==> ReaderInv(cmp, s, s.readers[t])
  }

  // ---------- Steps ----------

  datatype Move<K> =
    | Begin(node: Handle, key: K, row: seq<Handle>)  // find the position, draw a height, allocate
    | StoreOwn                                       // node->next[level] = prev->next[level]
    | StorePrev                                      // prev->next[level] = node
    | SeekToFirst(t: Thread)
    | StartAt(t: Thread, at: Handle)
    | Next(t: Thread)

  ghost function Step<K(!new)>(cmp: (K, K) -> int, s: State<K>, m: Move<K>): Option<State<K>>
    requires Inv(cmp, s)
  {
    if m.Begin? || m.StoreOwn? || m.StorePrev? then WriterStep(cmp, s, m) else ReaderStep(cmp, s, m)
  }

  ghost function WriterStep<K(!new)>(cmp: (K, K) -> int, s: State<K>, m: Move<K>): Option<State<K>>
    requires Shape(cmp, s) && WriterInv(cmp, s)
  {
    match m
    case Begin(node, key, row) =>
      var ks := KeysOf(s.spine, s.key);
      if s.writer.Busy? || node == NIL || node in s.next || node in s.key || !(1 <= |row| <= MAX_HEIGHT)
         || !Absent(cmp, ks, key) then None
      else Some(DoBegin(cmp, s, node, key, row))
    case StoreOwn => if s.writer.Busy? && !s.writer.half then Some(DoStoreOwn(s)) else None
    case StorePrev => if s.writer.Busy? && s.writer.half then Some(DoStorePrev(s)) else None
    case _ => None
  }

  ghost function ReaderStep<K(!new)>(cmp: (K, K) -> int, s: State<K>, m: Move<K>): Option<State<K>>
    requires Inv(cmp, s)
  {
    match m
    case SeekToFirst(t) => Some(SetReader(s, t, Arrive(s.next[HEAD][0], [], NodesFrom(s.spine, 1))))
    case StartAt(t, at) =>
      if at in s.spine[1..]
      then Some(SetReader(s, t, Arrive(at, [], NodesFrom(s.spine, IndexOf(s.spine, at)))))
      else None
    case Next(t) =>
      if t in s.readers && s.readers[t].at != NIL then
        var rd := s.readers[t];
        Some(SetReader(s, t, Arrive(s.next[rd.at][0], rd.seen, rd.ahead)))
      else None
    case _ => None
  }

  function SetReader<K>(s: State<K>, t: Thread, rd: Reader): State<K> {
    s.(readers := s.readers[t := rd])
  }

  ghost function NodesFrom(spine: seq<Handle>, p: nat): set<Handle> {
    set i | p <= i < |spine| :: spine[i]
  }

  function Arrive(at: Handle, seen: seq<Handle>, ahead: set<Handle>): Reader {
    Reader(at, if at == NIL then seen else seen + [at], ahead)
  }

  ghost function IndexOf(spine: seq<Handle>, h: Handle): (p: nat)
    requires |spine| > 0 && h in spine[1..]
    ensures 1 <= p < |spine| && spine[p] == h
  {
    var i: nat :| i < |spine[1..]| && spine[1..][i] == h;
    i + 1
  }

  /**
   * `prev[level]`: the last node on the level before the position, as the search at the start of an
   * insertion finds it.
   */
  ghost function Pred<K>(s: State<K>): Handle
    requires s.writer.Busy? && 0 < s.writer.at <= |s.hs| == |s.spine| && s.hs[0] > s.writer.level
  {
    s.spine[PrevIndex(s.hs, s.writer.at, s.writer.level)]
  }

  /** Node::setNext */
  function Store(next: map<Handle, seq<Handle>>, n: Handle, l: nat, x: Handle): map<Handle, seq<Handle>>
    requires n in next && l < |next[n]|
  {
    next[n := next[n][l := x]]
  }

  /** `row` is whatever the fresh node's links hold before they are stored. */
  ghost function DoBegin<K(!new)>(cmp: (K, K) -> int, s: State<K>, node: Handle, key: K, row: seq<Handle>): State<K>
    requires Shape(cmp, s) && |row| > 0
  {
    s.(next := s.next[node := row], key := s.key[node := key],
       writer := Busy(node, Rank(cmp, KeysOf(s.spine, s.key), key) + 1, |row|, |row| - 1, false))
  }

  ghost function DoStoreOwn<K>(s: State<K>): State<K>
    requires s.writer.Busy? && 0 < s.writer.at <= |s.hs| == |s.spine| && s.hs[0] > s.writer.level
    requires Pred(s) in s.next && s.writer.level < |s.next[Pred(s)]|
    requires s.writer.node in s.next && s.writer.level < |s.next[s.writer.node]|
  {
    var w := s.writer;
    s.(next := Store(s.next, w.node, w.level, s.next[Pred(s)][w.level]), writer := w.(half := true))
  }

  /** The store that makes the node visible on its level; on level 0 that publishes it and ends the insertion. */
  ghost function DoStorePrev<K>(s: State<K>): State<K>
    requires s.writer.Busy? && 0 < s.writer.at <= |s.hs| == |s.spine| && s.hs[0] > s.writer.level
    requires Pred(s) in s.next && s.writer.level < |s.next[Pred(s)]|
  {
    var w := s.writer;
    var s1 := s.(next := Store(s.next, Pred(s), w.level, w.node));
    if w.level > 0 then s1.(writer := w.(level := w.level - 1, half := false))
    else s1.(writer := Idle, spine := InsertAt(s.spine, w.at, w.node), hs := InsertAt(s.hs, w.at, w.height))
  }

  // ---------- Every step keeps the invariants ----------

  /** Storing into a node's row shows up at its place in the list of rows, and nowhere else. */
  lemma StoreShows(nodes: seq<Handle>, next: map<Handle, seq<Handle>>, p: nat, l: nat, x: Handle)
    requires p < |nodes| && nodes[p] in next && l < |next[nodes[p]]|
    requires forall i :: 0 <= i < |nodes| && i != p ==> nodes[i] != nodes[p]
    ensures var links := LinksOf(nodes, next);
      LinksOf(nodes, Store(next, nodes[p], l, x)) == links[p := links[p][l := x]]
  {
  }

  lemma NodesDiffer<K(!new)>(cmp: (K, K) -> int, s: State<K>, p: nat)
    requires Shape(cmp, s) && WriterInv(cmp, s) && s.writer.Busy? && p < |Nodes(s)|
    ensures forall i :: 0 <= i < |Nodes(s)| && i != p ==> Nodes(s)[i] != Nodes(s)[p]
  {
    var r := s.writer.at;
    forall i | 0 <= i < |Nodes(s)| && i != p ensures Nodes(s)[i] != Nodes(s)[p] {
      if i != r && p != r {
        var a, b := if i < r then i else i - 1, if p < r then p else p - 1;
        assert if a < b then Differ(s.spine, a, b) else Differ(s.spine, b, a);
      }
    }
  }

  /** The new node's own link changes nothing any level says yet. */
  lemma OwnLinkKeepsLinking(spine: seq<Handle>, hs: seq<nat>, r: nat, h: nat, node: Handle,
      links: seq<seq<Handle>>, i: nat, x: Handle)
    requires Linking(spine, NIL, hs, r, h, node, links, i)
    ensures Linking(spine, NIL, hs, r, h, node, links[r := links[r][i := x]], i)
  {
    var links' := links[r := links[r][i := x]];
    var spine', hs' := InsertAt(spine, r, node), InsertAt(hs, r, h);
    forall l | i < l < h ensures Linked(spine', NIL, hs', links', l) {
      assert Linked(spine', NIL, hs', links, l);
      forall k | 0 <= k < |hs'| ensures LinkAt(spine', NIL, hs', links', k, l) {
        assert LinkAt(spine', NIL, hs', links, k, l);
      }
    }
    forall l | 0 <= l <= i || h <= l < hs[0] ensures Bypassed(spine, NIL, hs, r, h, links', l) {
      assert Bypassed(spine, NIL, hs, r, h, links, l);
      forall k | 0 <= k < |hs| ensures BypassAt(spine, NIL, hs, r, h, links', k, l) {
        assert BypassAt(spine, NIL, hs, r, h, links, k, l);
      }
    }
  }

  lemma StoreOwnKeeps<K(!new)>(cmp: (K, K) -> int, s: State<K>)
    requires Shape(cmp, s) && WriterInv(cmp, s) && s.writer.Busy?
    ensures Pred(s) in s.next && s.writer.level < |s.next[Pred(s)]|
    ensures var s' := DoStoreOwn(s); Shape(cmp, s') && WriterInv(cmp, s')
  {
    var w := s.writer;
    var s' := DoStoreOwn(s);
    var links, p := LinksOf(Nodes(s), s.next), PrevIndex(s.hs, w.at, w.level);
    NodesDiffer(cmp, s, w.at);
    StoreShows(Nodes(s), s.next, w.at, w.level, links[p][w.level]);
    OwnLinkKeepsLinking(s.spine, s.hs, w.at, w.height, w.node, links, w.level, links[p][w.level]);
  }

  lemma KeysAfterInsert<K>(spine: seq<Handle>, key: map<Handle, K>, r: nat, node: Handle)
    requires 0 < r <= |spine| && node in key && forall i :: 1 <= i < |spine| ==> spine[i] in key
    ensures var t := InsertAt(spine, r, node);
      && (forall i :: 1 <= i < |t| ==> t[i] in key)
      && KeysOf(t, key) == InsertAt(KeysOf(spine, key), r - 1, key[node])
  {
    var t, ks := InsertAt(spine, r, node), KeysOf(spine, key);
    forall i | 1 <= i < |t| ensures t[i] in key && key[t[i]] == InsertAt(ks, r - 1, key[node])[i - 1] {
      if i < r {
        assert ks[i - 1] == key[spine[i]];
      } else if i > r {
        assert ks[i - 2] == key[spine[i - 1]];
      }
    }
    assert KeysOf(t, key) == InsertAt(ks, r - 1, key[node]);
  }

  /** Publishing the new node keeps the spine in order. */
  lemma PublishKeepsShape<K(!new)>(cmp: (K, K) -> int, s: State<K>, s': State<K>)
    requires IsOrder(cmp) && Shape(cmp, s) && WriterInv(cmp, s) && s.writer.Busy?
    requires s'.spine == InsertAt(s.spine, s.writer.at, s.writer.node)
    requires s'.hs == InsertAt(s.hs, s.writer.at, s.writer.height)
    requires s'.key == s.key && s'.next.Keys == s.next.Keys
    requires forall h :: h in s.next ==> |s'.next[h]| == |s.next[h]|
    ensures Shape(cmp, s')
    ensures KeysOf(s'.spine, s'.key) == InsertAt(KeysOf(s.spine, s.key), s.writer.at - 1, s.key[s.writer.node])
  {
    var r, node := s.writer.at, s.writer.node;
    InsertKeepsDistinct(s.spine, r, node);
    KeysAfterInsert(s.spine, s.key, r, node);
    InsertKeepsSorted(cmp, KeysOf(s.spine, s.key), s.key[node]);
  }

  /** The links after the second store are the old ones with the level spliced. */
  lemma StorePrevSplices<K(!new)>(cmp: (K, K) -> int, s: State<K>)
    requires Shape(cmp, s) && WriterInv(cmp, s) && s.writer.Busy? && s.writer.half
    ensures Pred(s) in s.next && s.writer.level < |s.next[Pred(s)]|
    ensures Linking(s.spine, NIL, s.hs, s.writer.at, s.writer.height, s.writer.node,
                    LinksOf(Nodes(s), DoStorePrev(s).next), s.writer.level - 1)
  {
    var w := s.writer;
    var nodes, links, p := Nodes(s), LinksOf(Nodes(s), s.next), PrevIndex(s.hs, w.at, w.level);
    NodesDiffer(cmp, s, p);
    StoreShows(nodes, s.next, p, w.level, w.node);
    LinkingSteps(s.spine, NIL, s.hs, w.at, w.height, w.node, links, w.level);
    assert links[w.at][w.level := links[p][w.level]] == links[w.at];
    assert LinksOf(nodes, DoStorePrev(s).next) == Splice(links, p, w.at, w.level, w.node);
  }

  lemma StorePrevKeeps<K(!new)>(cmp: (K, K) -> int, s: State<K>)
    requires IsOrder(cmp) && Shape(cmp, s) && WriterInv(cmp, s) && s.writer.Busy? && s.writer.half
    ensures Pred(s) in s.next && s.writer.level < |s.next[Pred(s)]|
    ensures var s' := DoStorePrev(s); Shape(cmp, s') && WriterInv(cmp, s')
  {
    var w := s.writer;
    StorePrevSplices(cmp, s);
    var s' := DoStorePrev(s);
    if w.level == 0 {
      PublishKeepsShape(cmp, s, s');
      var links := LinksOf(s'.spine, s'.next);
      forall l | 0 <= l < MAX_HEIGHT ensures Linked(s'.spine, NIL, s'.hs, links, l) {
        LinkingEnds(s.spine, NIL, s.hs, w.at, w.height, w.node, links, l);
      }
    }
  }

  lemma BeginKeeps<K(!new)>(cmp: (K, K) -> int, s: State<K>, node: Handle, key: K, row: seq<Handle>)
    requires Shape(cmp, s) && WriterInv(cmp, s) && s.writer.Idle?
    requires node != NIL && node !in s.next && node !in s.key && 1 <= |row| <= MAX_HEIGHT
    requires Absent(cmp, KeysOf(s.spine, s.key), key)
    ensures var s' := DoBegin(cmp, s, node, key, row); Shape(cmp, s') && WriterInv(cmp, s')
  {
    var ks := KeysOf(s.spine, s.key);
    var r := Rank(cmp, ks, key) + 1;
    var s' := DoBegin(cmp, s, node, key, row);
    BeginKeepsShape(cmp, s, node, key, row);
    LinkingStarts(s.spine, NIL, s.hs, r, |row|, node, LinksOf(s.spine, s.next), row);
    FreshNodeLinks(s.spine, s.next, r, node, row);
  }

  lemma FreshNodeLinks(spine: seq<Handle>, next: map<Handle, seq<Handle>>, r: nat, node: Handle, row: seq<Handle>)
    requires r <= |spine| && node !in spine
    ensures LinksOf(InsertAt(spine, r, node), next[node := row]) == InsertAt(LinksOf(spine, next), r, row)
  {
    var links, links' := LinksOf(spine, next), LinksOf(InsertAt(spine, r, node), next[node := row]);
    forall i | 0 <= i < |links'| ensures links'[i] == InsertAt(links, r, row)[i] {
      if i != r { assert InsertAt(spine, r, node)[i] == spine[if i < r then i else i - 1]; }
    }
  }

  lemma BeginKeepsShape<K(!new)>(cmp: (K, K) -> int, s: State<K>, node: Handle, key: K, row: seq<Handle>)
    requires Shape(cmp, s) && node !in s.next && node !in s.key && |row| > 0
    ensures var s' := DoBegin(cmp, s, node, key, row);
      Shape(cmp, s') && s'.spine == s.spine && KeysOf(s'.spine, s'.key) == KeysOf(s.spine, s.key)
  {
    var s' := DoBegin(cmp, s, node, key, row);
    assert KeysOf(s'.spine, s'.key) == KeysOf(s.spine, s.key);
  }

  /** Whatever the writer is at, level 0 read from the heap is the published list. */
  lemma LevelZero<K(!new)>(cmp: (K, K) -> int, s: State<K>, i: nat)
    requires Shape(cmp, s) && WriterInv(cmp, s) && i < |s.spine|
    ensures s.next[s.spine[i]][0] == NodeAt(s.spine, NIL, i + 1)
  {
    if s.writer.Idle? {
      LinkedLevelZero(s.spine, s.hs, LinksOf(s.spine, s.next), i);
    } else {
      var w := s.writer;
      BypassedLevelZero(s.spine, s.hs, w.at, w.height, w.node, LinksOf(Nodes(s), s.next), w.level, i);
      assert Nodes(s)[Shift(w.at, i)] == s.spine[i];
    }
  }

  lemma LinkedLevelZero(spine: seq<Handle>, hs: seq<nat>, links: seq<seq<Handle>>, i: nat)
    requires |spine| == |hs| && i < |hs| && Rows(hs, links) && Linked(spine, NIL, hs, links, 0)
    requires forall k :: 0 <= k < |hs| ==> hs[k] >= 1
    ensures links[i][0] == NodeAt(spine, NIL, i + 1)
  {
    assert IsNext(hs, i, 0, i + 1);
    assert LinkAt(spine, NIL, hs, links, i, 0);
  }

  lemma BypassedLevelZero(spine: seq<Handle>, hs: seq<nat>, r: nat, h: nat, node: Handle,
      links: seq<seq<Handle>>, level: nat, i: nat)
    requires Linking(spine, NIL, hs, r, h, node, links, level) && i < |hs|
    requires forall k :: 0 <= k < |hs| ==> hs[k] >= 1
    ensures links[Shift(r, i)][0] == NodeAt(spine, NIL, i + 1)
  {
    assert IsNext(hs, i, 0, i + 1);
    assert Bypassed(spine, NIL, hs, r, h, links, 0) && BypassAt(spine, NIL, hs, r, h, links, i, 0);
  }

  lemma SpineOrdered<K(!new)>(cmp: (K, K) -> int, s: State<K>, i: nat, j: nat)
    requires Shape(cmp, s) && 1 <= i < j < |s.spine|
    ensures cmp(s.key[s.spine[i]], s.key[s.spine[j]]) < 0
  {
    var ks := KeysOf(s.spine, s.key);
    assert Apply(cmp, ks[i - 1], ks[j - 1]) < 0;
  }

  /** A writer's step leaves every walk as good as it was. */
  lemma WalkSurvives<K(!new)>(cmp: (K, K) -> int, s: State<K>, s': State<K>, rd: Reader)
    requires |s.spine| > 0 && |s'.spine| > 0 && ReaderInv(cmp, s, rd)
    requires forall h :: h in s.key ==> h in s'.key && s'.key[h] == s.key[h]
    requires forall h :: h in s.spine[1..] ==> h in s'.spine[1..]
    ensures ReaderInv(cmp, s', rd)
  {
  }

  lemma PublishKeepsMembers(spine: seq<Handle>, r: nat, node: Handle)
    requires 0 < r <= |spine|
    ensures forall h :: h in spine[1..] ==> h in InsertAt(spine, r, node)[1..]
  {
    forall h | h in spine[1..] ensures h in InsertAt(spine, r, node)[1..] {
      var i :| 0 <= i < |spine[1..]| && spine[1..][i] == h;
      var k := if i + 1 < r then i else i + 1;
      assert InsertAt(spine, r, node)[1..][k] == h;
    }
  }

  /** A walk's own step: on to the very next published node. */
  lemma WalkSteps<K(!new)>(cmp: (K, K) -> int, s: State<K>, rd: Reader)
    requires IsOrder(cmp) && Shape(cmp, s) && WriterInv(cmp, s) && ReaderInv(cmp, s, rd) && rd.at != NIL
    ensures rd.at in s.next && |s.next[rd.at]| > 0
    ensures ReaderInv(cmp, s, Arrive(s.next[rd.at][0], rd.seen, rd.ahead))
  {
    var p := IndexOf(s.spine, rd.at);
    LevelZero(cmp, s, p);
    WalkArrives(cmp, s, rd, p);
  }

  lemma WalkArrives<K(!new)>(cmp: (K, K) -> int, s: State<K>, rd: Reader, p: nat)
    requires IsOrder(cmp) && Shape(cmp, s) && ReaderInv(cmp, s, rd) && rd.at != NIL
    requires 1 <= p < |s.spine| && s.spine[p] == rd.at
    ensures ReaderInv(cmp, s, Arrive(NodeAt(s.spine, NIL, p + 1), rd.seen, rd.ahead))
  {
    WalkSkipsNothing(cmp, s, rd, p);
    if p + 1 < |s.spine| {
      SeenOneMore(cmp, s, rd, p);
    }
  }

  lemma SeenOneMore<K(!new)>(cmp: (K, K) -> int, s: State<K>, rd: Reader, p: nat)
    requires IsOrder(cmp) && Shape(cmp, s) && ReaderInv(cmp, s, rd) && rd.at != NIL
    requires 1 <= p < |s.spine| - 1 && s.spine[p] == rd.at
    ensures Ascends(cmp, s.key, rd.seen + [s.spine[p + 1]])
    ensures s.spine[p + 1] in s.spine[1..] && forall h :: h in rd.seen + [s.spine[p + 1]] ==> h in s.spine[1..]
  {
    assert s.spine[1..][p] == s.spine[p + 1];
    WalkClimbs(cmp, s, rd, p);
    AscendsOneMore(cmp, s.key, rd.seen, s.spine[p + 1]);
  }

  lemma AscendsOneMore<K(!new)>(cmp: (K, K) -> int, key: map<Handle, K>, nodes: seq<Handle>, h: Handle)
    requires Ascends(cmp, key, nodes) && h in key
    requires forall i :: 0 <= i < |nodes| ==> cmp(key[nodes[i]], key[h]) < 0
    ensures Ascends(cmp, key, nodes + [h])
  {
  }

  lemma WalkSkipsNothing<K(!new)>(cmp: (K, K) -> int, s: State<K>, rd: Reader, p: nat)
    requires IsOrder(cmp) && Shape(cmp, s) && ReaderInv(cmp, s, rd) && rd.at != NIL
    requires 1 <= p < |s.spine| && s.spine[p] == rd.at
    ensures var rd' := Arrive(NodeAt(s.spine, NIL, p + 1), rd.seen, rd.ahead);
      NothingBehind(cmp, s, rd'.at, rd'.seen, rd'.ahead)
  {
    var rd' := Arrive(NodeAt(s.spine, NIL, p + 1), rd.seen, rd.ahead);
    forall h | h in rd.ahead && h !in rd.seen
      ensures rd'.at != NIL && (h == rd'.at || cmp(s.key[rd'.at], s.key[h]) < 0)
    {
      NothingSkipped(cmp, s, p, IndexOf(s.spine, h));
    }
    assert rd'.at != NIL ==> rd'.at in rd'.seen by {
      if rd'.at != NIL { assert rd'.seen[|rd.seen|] == rd'.at; }
    }
    assert forall h :: h in rd.seen ==> h in rd'.seen;
  }

  lemma WalkClimbs<K(!new)>(cmp: (K, K) -> int, s: State<K>, rd: Reader, p: nat)
    requires IsOrder(cmp) && Shape(cmp, s) && ReaderInv(cmp, s, rd) && rd.at != NIL
    requires 1 <= p < |s.spine| - 1 && s.spine[p] == rd.at
    ensures forall i :: 0 <= i < |rd.seen| ==> cmp(s.key[rd.seen[i]], s.key[s.spine[p + 1]]) < 0
  {
    SpineOrdered(cmp, s, p, p + 1);
    forall i | 0 <= i < |rd.seen| ensures cmp(s.key[rd.seen[i]], s.key[s.spine[p + 1]]) < 0 {
      Transitive(cmp, s.key[rd.seen[i]], s.key[rd.at], s.key[s.spine[p + 1]]);
    }
  }

  /** A published node above the `p`-th one is the next one or above that. */
  lemma NothingSkipped<K(!new)>(cmp: (K, K) -> int, s: State<K>, p: nat, q: nat)
    requires IsOrder(cmp) && Shape(cmp, s) && 1 <= p < |s.spine| && 1 <= q < |s.spine|
    ensures cmp(s.key[s.spine[p]], s.key[s.spine[q]]) < 0 ==>
              q == p + 1 || (p + 1 < |s.spine| && cmp(s.key[s.spine[p + 1]], s.key[s.spine[q]]) < 0)
  {
    if q < p {
      SpineOrdered(cmp, s, q, p);
      Transitive(cmp, s.key[s.spine[q]], s.key[s.spine[p]], s.key[s.spine[q]]);
    } else if q == p {
      assert Apply(cmp, s.key[s.spine[p]], s.key[s.spine[p]]) == 0;
    } else if q > p + 1 {
      SpineOrdered(cmp, s, p + 1, q);
    }
  }

  /** A walk that starts at the `p`-th node has that node and all after it ahead. */
  lemma WalkStarts<K(!new)>(cmp: (K, K) -> int, s: State<K>, p: nat)
    requires Shape(cmp, s) && 1 <= p <= |s.spine|
    ensures ReaderInv(cmp, s, Arrive(NodeAt(s.spine, NIL, p), [], NodesFrom(s.spine, p)))
  {
    var at := NodeAt(s.spine, NIL, p);
    if p < |s.spine| { assert s.spine[1..][p - 1] == at; }
    forall h | h in NodesFrom(s.spine, p)
      ensures h in s.spine[1..] && (h == at || (at != NIL && cmp(s.key[at], s.key[h]) < 0))
    {
      var i :| p <= i < |s.spine| && s.spine[i] == h;
      assert s.spine[1..][i - 1] == h;
      if p < i { SpineOrdered(cmp, s, p, i); }
    }
  }

  lemma ReaderMoves<K(!new)>(cmp: (K, K) -> int, s: State<K>, t: Thread, rd: Reader)
    requires Inv(cmp, s) && ReaderInv(cmp, s, rd)
    ensures Inv(cmp, SetReader(s, t, rd))
  {
    var s' := SetReader(s, t, rd);
    assert Nodes(s') == Nodes(s);
    forall u | u in s'.readers ensures ReaderInv(cmp, s', s'.readers[u]) {
      WalkSurvives(cmp, s, s', s'.readers[u]);
    }
  }

  lemma WriterMoves<K(!new)>(cmp: (K, K) -> int, s: State<K>, s': State<K>)
    requires Inv(cmp, s) && Shape(cmp, s') && WriterInv(cmp, s') && s'.readers == s.readers
    requires forall h :: h in s.key ==> h in s'.key && s'.key[h] == s.key[h]
    requires forall h :: h in s.spine[1..] ==> h in s'.spine[1..]
    ensures Inv(cmp, s')
  {
    WalksSurvive(cmp, s, s');
  }

  lemma StorePrevKeepsInv<K(!new)>(cmp: (K, K) -> int, s: State<K>)
    requires IsOrder(cmp) && Inv(cmp, s) && s.writer.Busy? && s.writer.half
    ensures Pred(s) in s.next && s.writer.level < |s.next[Pred(s)]|
    ensures Inv(cmp, DoStorePrev(s))
  {
    StorePrevKeeps(cmp, s);
    PublishKeepsMembers(s.spine, s.writer.at, s.writer.node);
    WriterMoves(cmp, s, DoStorePrev(s));
  }

  lemma StoreOwnKeepsInv<K(!new)>(cmp: (K, K) -> int, s: State<K>)
    requires Inv(cmp, s) && s.writer.Busy?
    ensures Pred(s) in s.next && s.writer.level < |s.next[Pred(s)]|
    ensures Inv(cmp, DoStoreOwn(s))
  {
    StoreOwnKeeps(cmp, s);
    WriterMoves(cmp, s, DoStoreOwn(s));
  }

  lemma BeginKeepsInv<K(!new)>(cmp: (K, K) -> int, s: State<K>, node: Handle, key: K, row: seq<Handle>)
    requires Inv(cmp, s) && s.writer.Idle?
    requires node != NIL && node !in s.next && node !in s.key && 1 <= |row| <= MAX_HEIGHT
    requires Absent(cmp, KeysOf(s.spine, s.key), key)
    ensures Inv(cmp, DoBegin(cmp, s, node, key, row))
  {
    BeginKeeps(cmp, s, node, key, row);
    WriterMoves(cmp, s, DoBegin(cmp, s, node, key, row));
  }

  lemma WriterStepKeepsInv<K(!new)>(cmp: (K, K) -> int, s: State<K>, m: Move<K>, s': State<K>)
    requires IsOrder(cmp) && Inv(cmp, s) && WriterStep(cmp, s, m) == Some(s')
    ensures Inv(cmp, s')
  {
    match m
    case Begin(node, key, row) => BeginKeepsInv(cmp, s, node, key, row);
    case StoreOwn => StoreOwnKeepsInv(cmp, s);
    case StorePrev => StorePrevKeepsInv(cmp, s);
  }

  lemma ReaderStepKeepsInv<K(!new)>(cmp: (K, K) -> int, s: State<K>, m: Move<K>, s': State<K>)
    requires IsOrder(cmp) && Inv(cmp, s) && ReaderStep(cmp, s, m) == Some(s')
    ensures Inv(cmp, s')
  {
    match m
    case SeekToFirst(t) =>
      LevelZero(cmp, s, 0);
      WalkStarts(cmp, s, 1);
      ReaderMoves(cmp, s, t, s'.readers[t]);
    case StartAt(t, at) =>
      WalkStarts(cmp, s, IndexOf(s.spine, at));
      ReaderMoves(cmp, s, t, s'.readers[t]);
    case Next(t) =>
      WalkSteps(cmp, s, s.readers[t]);
      ReaderMoves(cmp, s, t, s'.readers[t]);
  }

  lemma StepKeepsInv<K(!new)>(cmp: (K, K) -> int, s: State<K>, m: Move<K>, s': State<K>)
    requires IsOrder(cmp) && Inv(cmp, s) && Step(cmp, s, m) == Some(s')
    ensures Inv(cmp, s')
  {
    if m.Begin? || m.StoreOwn? || m.StorePrev? {
      WriterStepKeepsInv(cmp, s, m, s');
    } else {
      ReaderStepKeepsInv(cmp, s, m, s');
    }
  }

  lemma WalksSurvive<K(!new)>(cmp: (K, K) -> int, s: State<K>, s': State<K>)
    requires Inv(cmp, s) && |s'.spine| > 0 && s'.readers == s.readers
    requires forall h :: h in s.key ==> h in s'.key && s'.key[h] == s.key[h]
    requires forall h :: h in s.spine[1..] ==> h in s'.spine[1..]
    ensures forall t :: t in s'.readers ==> ReaderInv(cmp, s', s'.readers[t])
  {
    forall t | t in s'.readers ensures ReaderInv(cmp, s', s'.readers[t]) {
      WalkSurvives(cmp, s, s', s.readers[t]);
    }
  }

  // ---------- Whole runs ----------

  /** The empty list the constructor builds, and nobody reading it. */
  function Init<K>(): State<K> {
    State(map[HEAD := seq(MAX_HEIGHT, _ => NIL)], map[], [HEAD], [MAX_HEIGHT], Idle, map[])
  }

  lemma InitInv<K(!new)>(cmp: (K, K) -> int)
    ensures Inv(cmp, Init())
  {
    var s: State<K> := Init();
    var links := LinksOf(s.spine, s.next);
    forall l | 0 <= l < MAX_HEIGHT ensures Linked(s.spine, NIL, s.hs, links, l) {
      assert LinkAt(s.spine, NIL, s.hs, links, 0, l);
    }
  }

  /** The state after `moves`, if each could be taken. */
  ghost function Run<K(!new)>(cmp: (K, K) -> int, s: State<K>, moves: seq<Move<K>>): (r: Option<State<K>>)
    requires IsOrder(cmp) && Inv(cmp, s)
    ensures r.Some? ==> Inv(cmp, r.value)
    decreases moves
  {
    if moves == [] then Some(s)
    else
      match Step(cmp, s, moves[0])
      case None => None
      case Some(s') => StepKeepsInv(cmp, s, moves[0], s'); Run(cmp, s', moves[1..])
  }

  predicate Starts<K>(m: Move<K>, t: Thread) {
    (m.SeekToFirst? || m.StartAt?) && m.t == t
  }

  /** Keys never change, published nodes stay published, and a walk keeps what it had ahead and has been at. */
  ghost predicate WalksOn<K>(s: State<K>, t: Thread, s': State<K>) {
    && |s.spine| > 0 && |s'.spine| > 0
    && (forall h :: h in s.key ==> h in s'.key && s'.key[h] == s.key[h])
    && (forall h :: h in s.spine[1..] ==> h in s'.spine[1..])
    && (t in s.readers ==>
          t in s'.readers && s'.readers[t].ahead == s.readers[t].ahead && s.readers[t].seen <= s'.readers[t].seen)
  }

  lemma StepWalksOn<K(!new)>(cmp: (K, K) -> int, s: State<K>, m: Move<K>, t: Thread, s': State<K>)
    requires Inv(cmp, s) && Step(cmp, s, m) == Some(s') && !Starts(m, t)
    ensures WalksOn(s, t, s')
  {
    if m.StorePrev? {
      StorePrevWalksOn(cmp, s, t, s');
    } else if m.Begin? || m.StoreOwn? {
      assert WriterStep(cmp, s, m) == Some(s');
    } else {
      ReaderWalksOn(s, m.t, s'.readers[m.t], t);
    }
  }

  lemma ReaderWalksOn<K>(s: State<K>, u: Thread, rd: Reader, t: Thread)
    requires |s.spine| > 0
    requires u == t && t in s.readers ==> rd.ahead == s.readers[t].ahead && s.readers[t].seen <= rd.seen
    ensures WalksOn(s, t, SetReader(s, u, rd))
  {
  }

  lemma StorePrevWalksOn<K(!new)>(cmp: (K, K) -> int, s: State<K>, t: Thread, s': State<K>)
    requires Shape(cmp, s) && WriterInv(cmp, s) && WriterStep(cmp, s, StorePrev) == Some(s')
    ensures WalksOn(s, t, s')
  {
    PublishKeepsMembers(s.spine, s.writer.at, s.writer.node);
  }

  lemma {:induction false} RunWalksOn<K(!new)>(cmp: (K, K) -> int, s: State<K>, moves: seq<Move<K>>, t: Thread,
      s': State<K>)
    requires IsOrder(cmp) && Inv(cmp, s) && Run(cmp, s, moves) == Some(s')
    requires forall m :: m in moves ==> !Starts(m, t)
    ensures WalksOn(s, t, s')
    decreases moves
  {
    if moves != [] {
      var next := Step(cmp, s, moves[0]).value;
      assert moves[0] in moves;
      StepKeepsInv(cmp, s, moves[0], next);
      StepWalksOn(cmp, s, moves[0], t, next);
      RunWalksOn(cmp, next, moves[1..], t, s');
    }
  }

  /** What a walk that begins with `m` has ahead: everything from the front, or from its first node. */
  ghost predicate Ahead<K(!new)>(cmp: (K, K) -> int, s: State<K>, m: Move<K>, h: Handle) {
    && |s.spine| > 0 && h in s.spine[1..] && h in s.key
    && (m.StartAt? ==> m.at in s.key && cmp(s.key[m.at], s.key[h]) <= 0)
  }

  lemma AheadIsRecorded<K(!new)>(cmp: (K, K) -> int, s: State<K>, m: Move<K>, t: Thread, s': State<K>, h: Handle)
    requires IsOrder(cmp) && Inv(cmp, s) && Starts(m, t) && ReaderStep(cmp, s, m) == Some(s')
    requires Ahead(cmp, s, m, h)
    ensures t in s'.readers && h in s'.readers[t].ahead
  {
    var i := IndexOf(s.spine, h);
    if m.StartAt? {
      var p := IndexOf(s.spine, m.at);
      if i < p {
        SpineOrdered(cmp, s, i, p);
        Transitive(cmp, s.key[m.at], s.key[h], s.key[m.at]);
      }
    }
  }

  /**
   * Whatever the writer and the other readers do meanwhile, a walk passes strictly increasing keys
   * of published nodes, and every node that was published and ahead of it when it began it has
   * passed or has still ahead: at the end it has passed them all.
   */
  lemma WalkMissesNothing<K(!new)>(cmp: (K, K) -> int, s: State<K>, start: Move<K>, t: Thread, s1: State<K>,
                                   moves: seq<Move<K>>, s': State<K>)
    requires IsOrder(cmp) && Inv(cmp, s) && Starts(start, t) && Step(cmp, s, start) == Some(s1)
    requires Inv(cmp, s1) && Run(cmp, s1, moves) == Some(s')
    requires forall m :: m in moves ==> !Starts(m, t)
    ensures t in s'.readers
    ensures var rd := s'.readers[t];
      && Ascends(cmp, s'.key, rd.seen) && (forall h :: h in rd.seen ==> h in s'.spine[1..])
      && forall h :: Ahead(cmp, s, start, h) ==>
           h in s'.key && (h in rd.seen || (rd.at != NIL && rd.at in s'.key && cmp(s'.key[rd.at], s'.key[h]) < 0))
  {
    RunWalksOn(cmp, s1, moves, t, s');
    AllAheadIsRecorded(cmp, s, start, t, s1);
    WalkSoFar(cmp, s', s'.readers[t]);
  }

  lemma AllAheadIsRecorded<K(!new)>(cmp: (K, K) -> int, s: State<K>, m: Move<K>, t: Thread, s': State<K>)
    requires IsOrder(cmp) && Inv(cmp, s) && Starts(m, t) && ReaderStep(cmp, s, m) == Some(s')
    ensures t in s'.readers && forall h :: Ahead(cmp, s, m, h) ==> h in s'.readers[t].ahead
  {
    forall h | Ahead(cmp, s, m, h) ensures t in s'.readers && h in s'.readers[t].ahead {
      AheadIsRecorded(cmp, s, m, t, s', h);
    }
  }

  lemma WalkSoFar<K(!new)>(cmp: (K, K) -> int, s: State<K>, rd: Reader)
    requires |s.spine| > 0 && ReaderInv(cmp, s, rd)
    ensures Ascends(cmp, s.key, rd.seen) && (forall h :: h in rd.seen ==> h in s.spine[1..])
    ensures forall h :: h in rd.ahead ==>
              h in s.key && (h in rd.seen || (rd.at != NIL && rd.at in s.key && cmp(s.key[rd.at], s.key[h]) < 0))
  {
  }

  // ---------- What the heap says, level by level ----------

  /** From `from`, level `l` of the heap leads through exactly `nodes` and then ends. */
  ghost predicate Chain(next: map<Handle, seq<Handle>>, l: nat, from: Handle, nodes: seq<Handle>)
    decreases |nodes|
  {
    && from in next && l < |next[from]|
    && next[from][l] == (if nodes == [] then NIL else nodes[0])
    && (nodes != [] ==> nodes[0] != NIL && Chain(next, l, nodes[0], nodes[1..]))
  }

  /** So the heap alone determines what a level holds. */
  lemma {:induction false} ChainIsUnique(next: map<Handle, seq<Handle>>, l: nat, from: Handle, a: seq<Handle>,
      b: seq<Handle>)
    requires Chain(next, l, from, a) && Chain(next, l, from, b)
    ensures a == b
    decreases |a|
  {
    if a != [] && b != [] {
      ChainIsUnique(next, l, a[0], a[1..], b[1..]);
    }
  }

  /** Every link of level `l` leads from a node high enough to the next such node. */
  ghost predicate Follows(next: map<Handle, seq<Handle>>, nodes: seq<Handle>, hs: seq<nat>, l: nat) {
    && |nodes| == |hs|
    && forall i :: 0 <= i < |hs| && hs[i] > l ==>
         && nodes[i] != NIL && nodes[i] in next && l < |next[nodes[i]]|
         && next[nodes[i]][l] == NodeAt(nodes, NIL, NextIndex(hs, i, l))
  }

  lemma {:induction false} FollowsChain(next: map<Handle, seq<Handle>>, nodes: seq<Handle>, hs: seq<nat>,
      l: nat, i: nat)
    requires Follows(next, nodes, hs, l) && i < |hs| && hs[i] > l
    ensures Chain(next, l, nodes[i], Taller(nodes, hs, l, i + 1))
    decreases |hs| - i
  {
    var j := NextIndex(hs, i, l);
    TallerSkips(nodes, hs, l, i + 1, j);
    if j < |hs| {
      FollowsChain(next, nodes, hs, l, j);
      assert Taller(nodes, hs, l, j) == [nodes[j]] + Taller(nodes, hs, l, j + 1);
    }
  }

  /** Whether the node being linked is on level `l` already. */
  ghost predicate HasNew(w: Writer, l: nat) {
    w.Busy? && w.level < l < w.height
  }

  ghost function Listed<K>(s: State<K>, l: nat): (seq<Handle>, seq<nat>) {
    if HasNew(s.writer, l) && s.writer.at <= |s.spine| && s.writer.at <= |s.hs|
    then (InsertAt(s.spine, s.writer.at, s.writer.node), InsertAt(s.hs, s.writer.at, s.writer.height))
    else (s.spine, s.hs)
  }

  /** Level `l` without the head. */
  ghost function Level<K(!new)>(cmp: (K, K) -> int, s: State<K>, l: nat): seq<Handle>
    requires Shape(cmp, s)
  {
    var (nodes, hs) := Listed(s, l);
    Taller(nodes, hs, l, 1)
  }

  lemma LevelFollows<K(!new)>(cmp: (K, K) -> int, s: State<K>, l: nat)
    requires Shape(cmp, s) && WriterInv(cmp, s) && l < MAX_HEIGHT
    ensures var (nodes, hs) := Listed(s, l); Follows(s.next, nodes, hs, l)
  {
    var w, links := s.writer, LinksOf(Nodes(s), s.next);
    var (nodes, hs) := Listed(s, l);
    forall i | 0 <= i < |hs| && hs[i] > l
      ensures nodes[i] != NIL && nodes[i] in s.next && l < |s.next[nodes[i]]|
      ensures s.next[nodes[i]][l] == NodeAt(nodes, NIL, NextIndex(hs, i, l))
    {
      if w.Idle? || HasNew(w, l) {
        assert Linked(nodes, NIL, hs, links, l) && LinkAt(nodes, NIL, hs, links, i, l);
      } else {
        assert Bypassed(nodes, NIL, hs, w.at, w.height, links, l);
        assert BypassAt(nodes, NIL, hs, w.at, w.height, links, i, l);
        assert Nodes(s)[Shift(w.at, i)] == nodes[i];
      }
    }
  }

  /** In every reachable state, between any two stores, each level read from the heap is the list `Level` gives. */
  lemma LevelReads<K(!new)>(cmp: (K, K) -> int, s: State<K>, l: nat)
    requires Shape(cmp, s) && WriterInv(cmp, s) && l < MAX_HEIGHT
    ensures Chain(s.next, l, HEAD, Level(cmp, s, l))
  {
    var (nodes, hs) := Listed(s, l);
    LevelFollows(cmp, s, l);
    FollowsChain(s.next, nodes, hs, l, 0);
  }

  lemma {:induction false} TallerAscends<K(!new)>(cmp: (K, K) -> int, key: map<Handle, K>, nodes: seq<Handle>,
      hs: seq<nat>, l: nat, i: nat)
    requires |nodes| == |hs| && 1 <= i && |nodes| > 0 && Ascends(cmp, key, nodes[1..])
    ensures Ascends(cmp, key, Taller(nodes, hs, l, i))
    decreases |hs| - i
  {
    if i < |hs| {
      TallerAscends(cmp, key, nodes, hs, l, i + 1);
      var rest := Taller(nodes, hs, l, i + 1);
      forall j | 0 <= j < |rest| ensures nodes[i] in key && cmp(key[nodes[i]], key[rest[j]]) < 0 {
        TallerHas(nodes, hs, l, i + 1, rest[j]);
        var k :| k >= i + 1 && TallAt(nodes, hs, l, k, rest[j]);
        assert nodes[1..][i - 1] == nodes[i] && nodes[1..][k - 1] == rest[j];
      }
      assert nodes[1..][i - 1] == nodes[i];
    }
  }

  lemma KeysAscend<K(!new)>(cmp: (K, K) -> int, key: map<Handle, K>, nodes: seq<Handle>)
    requires |nodes| > 0 && forall i :: 1 <= i < |nodes| ==> nodes[i] in key
    requires StrictlySorted(cmp, KeysOf(nodes, key))
    ensures Ascends(cmp, key, nodes[1..])
  {
    var rest, ks := nodes[1..], KeysOf(nodes, key);
    forall i, j | 0 <= i < j < |rest| ensures cmp(key[rest[i]], key[rest[j]]) < 0 {
      assert Apply(cmp, ks[i], ks[j]) < 0;
    }
  }

  lemma LevelAscends<K(!new)>(cmp: (K, K) -> int, s: State<K>, l: nat)
    requires IsOrder(cmp) && Shape(cmp, s) && WriterInv(cmp, s) && l < MAX_HEIGHT
    ensures Ascends(cmp, s.key, Level(cmp, s, l))
  {
    var (nodes, hs) := Listed(s, l);
    if HasNew(s.writer, l) {
      NodesAscend(cmp, s);
    } else {
      KeysAscend(cmp, s.key, nodes);
    }
    TallerAscends(cmp, s.key, nodes, hs, l, 1);
  }

  lemma NodesAscend<K(!new)>(cmp: (K, K) -> int, s: State<K>)
    requires IsOrder(cmp) && Shape(cmp, s) && WriterInv(cmp, s) && s.writer.Busy?
    ensures Ascends(cmp, s.key, Nodes(s)[1..])
  {
    KeysAfterInsert(s.spine, s.key, s.writer.at, s.writer.node);
    InsertKeepsSorted(cmp, KeysOf(s.spine, s.key), s.key[s.writer.node]);
    KeysAscend(cmp, s.key, Nodes(s));
  }

  lemma InsertedTall(nodes: seq<Handle>, hs: seq<nat>, r: nat, node: Handle, height: nat, l: nat, h: Handle)
    requires 0 < r <= |nodes| == |hs| && l < height
    ensures (exists k :: k >= 1 && TallAt(InsertAt(nodes, r, node), InsertAt(hs, r, height), l, k, h)) <==>
              h == node || exists k :: k >= 1 && TallAt(nodes, hs, l, k, h)
  {
    var nodes', hs' := InsertAt(nodes, r, node), InsertAt(hs, r, height);
    assert h == node ==> TallAt(nodes', hs', l, r, h);
    if k :| k >= 1 && TallAt(nodes, hs, l, k, h) {
      assert TallAt(nodes', hs', l, Shift(r, k), h);
    }
    if k :| k >= 1 && TallAt(nodes', hs', l, k, h) && k != r {
      assert TallAt(nodes, hs, l, if k < r then k else k - 1, h);
    }
  }

  /** What level `l` holds: published nodes high enough for it, and the new node once it is linked there. */
  lemma LevelHas<K(!new)>(cmp: (K, K) -> int, s: State<K>, l: nat, h: Handle)
    requires Shape(cmp, s) && WriterInv(cmp, s)
    ensures h in Level(cmp, s, l) <==>
              (HasNew(s.writer, l) && h == s.writer.node) || exists k :: k >= 1 && TallAt(s.spine, s.hs, l, k, h)
  {
    var (nodes, hs) := Listed(s, l);
    TallerHas(nodes, hs, l, 1, h);
    if HasNew(s.writer, l) {
      InsertedTall(s.spine, s.hs, s.writer.at, s.writer.node, s.writer.height, l, h);
    }
  }

  /** Everything on level `l + 1` is on level `l`. */
  ghost predicate Includes<K(!new)>(cmp: (K, K) -> int, s: State<K>, l: nat)
    requires Shape(cmp, s)
  {
    forall h :: h in Level(cmp, s, l + 1) ==> h in Level(cmp, s, l)
  }

  /** The levels are apart only where the new node is on the upper one and not yet on the lower one. */
  lemma IncludesUnlessSplit<K(!new)>(cmp: (K, K) -> int, s: State<K>, l: nat)
    requires Shape(cmp, s) && WriterInv(cmp, s)
    ensures Includes(cmp, s, l) <==> !(HasNew(s.writer, l + 1) && !HasNew(s.writer, l))
  {
    if HasNew(s.writer, l + 1) && !HasNew(s.writer, l) {
      LevelHas(cmp, s, l, s.writer.node);
      LevelHas(cmp, s, l + 1, s.writer.node);
    } else {
      forall h | h in Level(cmp, s, l + 1) ensures h in Level(cmp, s, l) {
        LevelHas(cmp, s, l, h);
        LevelHas(cmp, s, l + 1, h);
        var up := l + 1;
        if k :| k >= 1 && TallAt(s.spine, s.hs, up, k, h) {
          assert TallAt(s.spine, s.hs, l, k, h);
        }
      }
    }
  }

  lemma LevelsIncludeUnlessBusy<K(!new)>(cmp: (K, K) -> int, s: State<K>)
    requires Shape(cmp, s) && WriterInv(cmp, s)
    ensures (forall l: nat {:trigger Includes(cmp, s, l)} :: l + 1 < MAX_HEIGHT ==> Includes(cmp, s, l)) <==>
              s.writer.Idle? || s.writer.level == s.writer.height - 1
  {
    if s.writer.Busy? && s.writer.level != s.writer.height - 1 {
      IncludesUnlessSplit(cmp, s, s.writer.level);
    } else {
      forall l: nat ensures Includes(cmp, s, l) {
        IncludesUnlessSplit(cmp, s, l);
      }
    }
  }

  /**
   * In every state the writer and the readers can bring about, every level read from the heap is
   * sorted by itself; and the levels include each other exactly when no insertion is between its
   * first and its last level.
   */
  lemma LevelsBetweenStores<K(!new)>(cmp: (K, K) -> int, start: State<K>, moves: seq<Move<K>>, s: State<K>)
    requires IsOrder(cmp) && Inv(cmp, start) && Run(cmp, start, moves) == Some(s)
    ensures forall l: nat :: l < MAX_HEIGHT ==>
              Chain(s.next, l, HEAD, Level(cmp, s, l)) && Ascends(cmp, s.key, Level(cmp, s, l))
    ensures (forall l: nat {:trigger Includes(cmp, s, l)} :: l + 1 < MAX_HEIGHT ==> Includes(cmp, s, l)) <==>
              s.writer.Idle? || s.writer.level == s.writer.height - 1
  {
    forall l: nat | l < MAX_HEIGHT
      ensures Chain(s.next, l, HEAD, Level(cmp, s, l)) && Ascends(cmp, s.key, Level(cmp, s, l))
    {
      LevelReads(cmp, s, l);
      LevelAscends(cmp, s, l);
    }
    LevelsIncludeUnlessBusy(cmp, s);
  }

  // ---------- Publication ----------

  lemma LevelZeroReads<K(!new)>(cmp: (K, K) -> int, s: State<K>)
    requires Shape(cmp, s) && WriterInv(cmp, s)
    ensures Chain(s.next, 0, HEAD, s.spine[1..])
  {
    LevelReads(cmp, s, 0);
    TallerOfAll(s.spine, s.hs, 1);
  }

  lemma StepPublishes<K(!new)>(cmp: (K, K) -> int, s: State<K>, m: Move<K>, s': State<K>)
    requires IsOrder(cmp) && Inv(cmp, s) && Step(cmp, s, m) == Some(s') && Inv(cmp, s')
    ensures var ks, ks' := KeysOf(s.spine, s.key), KeysOf(s'.spine, s'.key);
      if m.StorePrev? && s.writer.level == 0
      then ks' == InsertAt(ks, Rank(cmp, ks, s.key[s.writer.node]), s.key[s.writer.node])
      else s'.spine == s.spine && ks' == ks
  {
    if m.StorePrev? && s.writer.level == 0 {
      KeysAfterInsert(s.spine, s.key, s.writer.at, s.writer.node);
    }
  }

  /**
   * A step changes the list on level 0, which is what walks see, in one case only: the store into
   * the predecessor on level 0. It turns the keys there into the old ones with the new key in its
   * place; every other step, the other stores included, leaves them as they are.
   */
  lemma PublishesAtOnce<K(!new)>(cmp: (K, K) -> int, s: State<K>, m: Move<K>, s': State<K>)
    requires IsOrder(cmp) && Inv(cmp, s) && Step(cmp, s, m) == Some(s')
    ensures Inv(cmp, s')
    ensures Chain(s.next, 0, HEAD, s.spine[1..]) && Chain(s'.next, 0, HEAD, s'.spine[1..])
    ensures var ks, ks' := KeysOf(s.spine, s.key), KeysOf(s'.spine, s'.key);
      if m.StorePrev? && s.writer.level == 0
      then ks' == InsertAt(ks, Rank(cmp, ks, s.key[s.writer.node]), s.key[s.writer.node])
      else s'.spine == s.spine && ks' == ks
  {
    StepKeepsInv(cmp, s, m, s');
    LevelZeroReads(cmp, s);
    LevelZeroReads(cmp, s');
    StepPublishes(cmp, s, m, s');
  }

  lemma StoresAboveZero<K(!new)>(cmp: (K, K) -> int, s: State<K>, m: Move<K>, s': State<K>)
    requires Shape(cmp, s) && WriterInv(cmp, s) && s.writer.Busy? && s.writer.level > 0
    requires (m.StoreOwn? || m.StorePrev?) && WriterStep(cmp, s, m) == Some(s')
    ensures var w := s.writer;
      && s'.writer == (if m.StoreOwn? then w.(half := true) else w.(level := w.level - 1, half := false))
      && w.node in s'.next && |s'.next[w.node]| == w.height && s'.next[w.node][0] == s.next[w.node][0]
  {
    assert m.StorePrev? ==> Pred(s) in s.spine;
  }

  /**
   * Why the claims above are about level-0 walks: linking from the top down, a node of height 2 or
   * more is on its top level as soon as that is stored, while its level-0 link still holds what
   * the memory held before any store.
   */
  lemma TopDownExposesUnsetLinks<K(!new)>(cmp: (K, K) -> int, s: State<K>, s1: State<K>, s2: State<K>)
    requires IsOrder(cmp) && Inv(cmp, s) && s.writer.Busy? && s.writer.level == s.writer.height - 1 > 0
    requires Step(cmp, s, StoreOwn) == Some(s1)
    requires Inv(cmp, s1) && Step(cmp, s1, StorePrev) == Some(s2)
    ensures Shape(cmp, s2)
    ensures var w := s.writer;
      && w.node in Level(cmp, s2, w.level)
      && w.node in s2.next && |s2.next[w.node]| == w.height && s2.next[w.node][0] == s.next[w.node][0]
  {
    StoresAboveZero(cmp, s, StoreOwn, s1);
    StoresAboveZero(cmp, s1, StorePrev, s2);
    StorePrevKeeps(cmp, s1);
    LevelHas(cmp, s2, s.writer.level, s.writer.node);
  }
}
