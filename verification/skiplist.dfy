/** skiplist.h: an ordered set kept as a linked list with express lanes. */
module SkipLists {
  import opened Options
  import opened Orders
  import opened Levels
  import opened Sequences

  /** A node. The trailing array of links is storage inside the node, so it is a field here. */
  class Node<K> {
    const key: K
    const height: nat
    var next: seq<Node?<K>>

    constructor (key: K, height: nat)
      ensures this.key == key && this.height == height && |next| == height
    {
      this.key := key;
      this.height := height;
      next := seq(height, _ => null);
    }

    method SetNext(n: nat, x: Node?<K>)
      requires n < |next|
      modifies this
      ensures next == old(next)[n := x]
    {
      next := next[n := x];
    }

    /** Puts this node after `pred` on level `n`: its own link first, then the one that makes it visible. */
    method LinkAfter(pred: Node<K>, n: nat)
      requires pred != this && n < |next| && n < |pred.next|
      modifies this, pred
      ensures next == old(next)[n := old(pred.next)[n]]
      ensures pred.next == old(pred.next)[n := this]
    {
      SetNext(n, pred.next[n]);
      pred.SetNext(n, this);
    }
  }

  ghost function Heights<K>(spine: seq<Node<K>>): (hs: seq<nat>)
    ensures |hs| == |spine|
    ensures forall i {:trigger hs[i]} :: 0 <= i < |hs| ==> hs[i] == spine[i].height
  {
    seq(|spine|, i requires 0 <= i < |spine| => spine[i].height)
  }

  /** The keys of a spine; the head holds none. */
  ghost function KeysOf<K>(spine: seq<Node<K>>): (ks: seq<K>)
    requires |spine| > 0
    ensures |ks| == |spine| - 1
    ensures forall i {:trigger ks[i]} :: 0 <= i < |ks| ==> ks[i] == spine[i + 1].key
  {
    seq(|spine| - 1, i requires 0 <= i < |spine| - 1 => spine[i + 1].key)
  }

  ghost function Links<K>(spine: seq<Node<K>>): (links: seq<seq<Node?<K>>>)
    reads spine
    ensures |links| == |spine|
    ensures forall i {:trigger links[i]} :: 0 <= i < |spine| ==> links[i] == spine[i].next
  {
    seq(|spine|, i requires 0 <= i < |spine| reads spine => spine[i].next)
  }

  /** On each level, the last node before position `r`. */
  ghost function Predecessors<K>(spine: seq<Node<K>>, r: nat): (ps: seq<Node<K>>)
    requires 0 < r <= |spine| && spine[0].height == MAX_HEIGHT
    ensures |ps| == MAX_HEIGHT
    ensures forall l {:trigger ps[l]} :: 0 <= l < MAX_HEIGHT ==> ps[l] == spine[PrevIndex(Heights(spine), r, l)]
  {
    seq(MAX_HEIGHT, l requires 0 <= l < MAX_HEIGHT => spine[PrevIndex(Heights(spine), r, l)])
  }

  /** Every node has its links, and they put it on each level below its height, in spine order. */
  ghost predicate Wired<K>(spine: seq<Node<K>>)
    reads spine
  {
    && Rows(Heights(spine), Links(spine))
    && forall l :: 0 <= l < MAX_HEIGHT ==> Linked(spine, null, Heights(spine), Links(spine), l)
  }

  class SkipList<K(!new,0)> {
    const cmp: (K, K) -> int
    const head: Node<K>
    var curMaxHeight: nat
    ghost var spine: seq<Node<K>>  // the head, then every node in level-0 order

    ghost predicate Shape()
      reads this
    {
      && IsOrder(cmp)
      && |spine| > 0 && spine[0] == head && head.height == MAX_HEIGHT
      && 1 <= curMaxHeight <= MAX_HEIGHT
      && Distinct(spine)
      && (forall i :: 1 <= i < |spine| ==> 1 <= spine[i].height <= curMaxHeight)
      && StrictlySorted(cmp, KeysOf(spine))
    }

    ghost predicate Valid()
      reads this, spine
    {
      Shape() && Wired(spine)
    }

    /** The content: the keys in ascending order. */
    ghost function Keys(): seq<K>
      requires |spine| > 0
      reads this
    {
      KeysOf(spine)
    }

    constructor (cmp: (K, K) -> int)
      requires IsOrder(cmp)
      ensures Valid() && fresh(spine)
      ensures this.cmp == cmp && Keys() == []
    {
      var none: K := *;
      var h := new Node(none, MAX_HEIGHT);
      this.cmp := cmp;
      head := h;
      curMaxHeight := 1;
      spine := [h];
      new;
      var i := 0;
      while i < MAX_HEIGHT
        invariant 0 <= i <= MAX_HEIGHT && |head.next| == MAX_HEIGHT
        invariant forall l :: 0 <= l < i ==> head.next[l] == null
        modifies head
      {
        head.SetNext(i, null);
        i := i + 1;
      }
    }

    /** The spine index of the first node at or above `key`, |spine| when there is none. */
    ghost function Position(key: K): (p: nat)
      requires |spine| > 0
      reads this
      ensures 1 <= p <= |spine|
    {
      Rank(cmp, KeysOf(spine), key) + 1
    }

    lemma PositionSplits(key: K, i: nat)
      requires Shape() && 1 <= i < |spine|
      ensures i < Position(key) <==> cmp(spine[i].key, key) < 0
    {
      RankSplits(cmp, KeysOf(spine), key);
      assert KeysOf(spine)[i - 1] == spine[i].key;
    }

    /** What a search reads at any node and level, over a snapshot of the links, and how it compares with the key. */
    ghost predicate Guides(nodes: seq<Node<K>>, links: seq<seq<Node?<K>>>, key: K, r: nat) {
      && Rows(Heights(nodes), links)
      && forall at: nat, level: nat {:trigger NextIndex(Heights(nodes), at, level)} ::
        at < |nodes| && level < nodes[at].height ==>
          var j := NextIndex(Heights(nodes), at, level);
          && links[at][level] == NodeAt(nodes, null, j)
          && (j < r <==> j < |nodes| && cmp(nodes[j].key, key) < 0)
    }

    lemma SearchGuide(key: K)
      requires Valid()
      ensures Guides(spine, Links(spine), key, Position(key))
    {
      var hs := Heights(spine);
      forall at: nat, level: nat | at < |spine| && level < spine[at].height
        ensures var j := NextIndex(hs, at, level);
          && Links(spine)[at][level] == NodeAt(spine, null, j)
          && (j < Position(key) <==> j < |spine| && cmp(spine[j].key, key) < 0)
      {
        assert Linked(spine, null, hs, Links(spine), level) && LinkAt(spine, null, hs, Links(spine), at, level);
        var j := NextIndex(hs, at, level);
        if j < |spine| { PositionSplits(key, j); }
      }
    }

    method FindEqualOrGreater(key: K, pre: array?<Node?<K>>) returns (next: Node?<K>)
      requires Valid()
      requires pre != null ==> pre.Length == MAX_HEIGHT
      modifies pre
      ensures next == NodeAt(spine, null, Position(key))
      ensures pre != null ==>
                forall l :: 0 <= l < MAX_HEIGHT ==>
                  pre[l] == if l < curMaxHeight then Predecessors(spine, Position(key))[l] else old(pre[l])
    {
      ghost var nodes, hs, r := spine, Heights(spine), Position(key);
      ghost var ps, links := Predecessors(nodes, r), Links(nodes);
      SearchGuide(key);
      var level := curMaxHeight - 1;
      var x := head;
      ghost var at: nat := 0;
      next := null;
      while level >= 0
        invariant -1 <= level < curMaxHeight
        invariant Searching(hs, r, level, at) && x == nodes[at]
        invariant level < 0 ==> next == NodeAt(nodes, null, r)
        invariant pre != null ==> forall l :: level < l < curMaxHeight ==> pre[l] == ps[l]
        invariant pre != null ==>
                    forall l :: 0 <= l <= level || curMaxHeight <= l < MAX_HEIGHT ==> pre[l] == old(pre[l])
        decreases level, |nodes| - at
      {
        SearchStep(hs, r, level, at);
        assert x.next == links[at];
        next := x.next[level];
        if next == null || cmp(next.key, key) >= 0 {
          assert ps[level] == x;
          if pre != null {
            pre[level] := x;
          }
          level := level - 1;
        } else {
          at := NextIndex(hs, at, level);
          x := next;
        }
      }
    }

    method FindLessThan(key: K) returns (x: Node<K>)
      requires Valid()
      ensures x == spine[Position(key) - 1]
    {
      ghost var hs, r := Heights(spine), Position(key);
      SearchGuide(key);
      var level := curMaxHeight - 1;
      x := head;
      ghost var at: nat := 0;
      while level >= 0
        invariant -1 <= level < curMaxHeight
        invariant Searching(hs, r, level, at) && x == spine[at]
        invariant level < 0 ==> at == r - 1
        decreases level, |spine| - at
      {
        SearchStep(hs, r, level, at);
        assert x.next == Links(spine)[at];
        var next := x.next[level];
        if next == null || cmp(next.key, key) >= 0 {
          level := level - 1;
        } else {
          at := NextIndex(hs, at, level);
          x := next;
        }
      }
    }

    /** Follows level-0 links whatever the level, so every level after the first only finds the end again. */
    method FindLast() returns (x: Node<K>)
      requires Valid()
      ensures x == spine[|spine| - 1]
    {
      SearchGuide(head.key);
      var level := curMaxHeight - 1;
      x := head;
      ghost var at: nat := 0;
      while level >= 0
        invariant -1 <= level < curMaxHeight
        invariant at < |spine| && x == spine[at]
        invariant level < curMaxHeight - 1 ==> at == |spine| - 1
        decreases level, |spine| - at
      {
        assert x.next == Links(spine)[at] && IsNext(Heights(spine), at, 0, at + 1);
        assert NextIndex(Heights(spine), at, 0) == at + 1;
        var next := x.next[0];
        if next == null {
          level := level - 1;
        } else {
          x, at := next, at + 1;
        }
      }
    }

    method Contains(key: K) returns (found: bool)
      requires Valid()
      ensures found <==> exists i :: 0 <= i < |Keys()| && cmp(Keys()[i], key) == 0
    {
      var node := FindEqualOrGreater(key, null);
      found := node != null && cmp(node.key, key) == 0;
      if found {
        assert Keys()[Position(key) - 1] == node.key;
      } else {
        forall i | 0 <= i < |Keys()| ensures cmp(Keys()[i], key) != 0 {
          if cmp(Keys()[i], key) == 0 { RankFinds(cmp, Keys(), key, i); }
        }
      }
    }

    /** Any height from 1 to the maximum can be drawn. */
    method RandomHeight() returns (height: nat)
      ensures 1 <= height <= MAX_HEIGHT
    {
      height := 1;
      while height < MAX_HEIGHT
        invariant 1 <= height <= MAX_HEIGHT
      {
        var draw: nat := *;
        if draw % 4 != 0 { break; }
        height := height + 1;
      }
    }

    /** Above the current height the head is the only node, hence every position's predecessor. */
    lemma HeadPrecedes(r: nat, l: nat)
      requires Shape() && 0 < r <= |spine| && curMaxHeight <= l < MAX_HEIGHT
      ensures Predecessors(spine, r)[l] == head
    {
      assert IsPrev(Heights(spine), r, l, 0);
    }

    /** Once the linking is through, the nodes with the new one among them are wired. */
    static lemma LinkingWires(spine: seq<Node<K>>, r: nat, node: Node<K>, links: seq<seq<Node?<K>>>)
      requires Linking<Node?<K>>(spine, null, Heights(spine), r, node.height, node, links, -1)
      requires |spine| > 0 && spine[0].height == MAX_HEIGHT
      requires forall k :: 0 <= k <= |spine| ==> InsertAt(spine, r, node)[k].next == links[k]
      ensures Wired(InsertAt(spine, r, node))
    {
      var nodes := InsertAt(spine, r, node);
      assert Links(nodes) == links && Heights(nodes) == InsertAt(Heights(spine), r, node.height);
      forall l | 0 <= l < MAX_HEIGHT ensures Linked(nodes, null, Heights(nodes), Links(nodes), l) {
        LinkingEnds<Node?<K>>(spine, null, Heights(spine), r, node.height, node, links, l);
      }
    }

    /** The linking loop of an insertion: top level first, the node's own link before its predecessor's. */
    method LinkNode(node: Node<K>, prev: array<Node?<K>>, ghost r: nat)
      requires Shape() && Wired(spine) && node !in spine && |node.next| == node.height <= MAX_HEIGHT
      requires 0 < r <= |spine| && prev.Length == MAX_HEIGHT
      requires forall l :: 0 <= l < node.height ==> prev[l] == Predecessors(spine, r)[l]
      modifies spine, node
      ensures Wired(InsertAt(spine, r, node))
    {
      ghost var hs, h, nodes' := Heights(spine), node.height, InsertAt(spine, r, node);
      ghost var links: seq<seq<Node?<K>>> := InsertAt(Links(spine), r, node.next);
      LinkingStarts<Node?<K>>(spine, null, hs, r, h, node, Links(spine), node.next);
      var i := node.height - 1;
      while i >= 0
        invariant -1 <= i < h
        invariant Linking<Node?<K>>(spine, null, hs, r, h, node, links, i)
        invariant forall k :: 0 <= k < |nodes'| ==> nodes'[k].next == links[k]
      {
        ghost var p := PrevIndex(hs, r, i);
        LinkingSteps<Node?<K>>(spine, null, hs, r, h, node, links, i);
        assert prev[i] == nodes'[p] && nodes'[r] == node;
        DistinctFrom(spine, p);
        node.LinkAfter(prev[i], i);
        links := Splice(links, p, r, i, node);
        i := i - 1;
      }
      LinkingWires(spine, r, node, links);
    }

    /** A node for an absent key keeps the spine in shape at that key's position. */
    static lemma InsertKeepsShape(cmp: (K, K) -> int, spine: seq<Node<K>>, node: Node<K>, r: nat)
      requires IsOrder(cmp) && |spine| > 0 && Distinct(spine) && node !in spine
      requires StrictlySorted(cmp, KeysOf(spine)) && Absent(cmp, KeysOf(spine), node.key)
      requires r == Rank(cmp, KeysOf(spine), node.key) + 1
      ensures var spine' := InsertAt(spine, r, node);
        && Distinct(spine')
        && KeysOf(spine') == InsertAt(KeysOf(spine), r - 1, node.key)
        && StrictlySorted(cmp, KeysOf(spine'))
    {
      var ks, spine' := KeysOf(spine), InsertAt(spine, r, node);
      InsertKeepsSorted(cmp, ks, node.key);
      forall i | 0 <= i <= |ks| ensures KeysOf(spine')[i] == InsertAt(ks, r - 1, node.key)[i] {
        if i + 1 < r {
          assert KeysOf(spine')[i] == spine[i + 1].key;
        } else if i + 1 > r {
          assert KeysOf(spine')[i] == spine'[i + 1].key == spine[i].key == ks[i - 1];
        }
      }
      assert KeysOf(spine') == InsertAt(ks, r - 1, node.key);
      InsertKeepsDistinct(spine, r, node);
    }

    /** Raises the list's height to `h` if it is lower; on the levels gained the head precedes every position. */
    method RaiseHeight(h: nat, prev: array<Node?<K>>, ghost r: nat)
      requires Shape() && 1 <= h <= MAX_HEIGHT == prev.Length && 0 < r <= |spine|
      requires forall l :: 0 <= l < curMaxHeight ==> prev[l] == Predecessors(spine, r)[l]
      modifies this`curMaxHeight, prev
      ensures Shape() && curMaxHeight == (if h > old(curMaxHeight) then h else old(curMaxHeight))
      ensures forall l :: 0 <= l < h ==> prev[l] == Predecessors(spine, r)[l]
    {
      ghost var ps := Predecessors(spine, r);
      if h > curMaxHeight {
        forall l | curMaxHeight <= l < MAX_HEIGHT ensures ps[l] == head { HeadPrecedes(r, l); }
        var i := curMaxHeight;
        while i < h
          invariant curMaxHeight <= i <= h
          invariant forall l :: 0 <= l < i ==> prev[l] == ps[l]
          modifies prev
        {
          prev[i] := head;
          i := i + 1;
        }
        curMaxHeight := h;
      }
    }

    /** The first half of an insertion: every level's predecessor, and a height the list has been raised to. */
    method PrepareInsert(key: K) returns (prev: array<Node?<K>>, h: nat)
      requires Shape() && Wired(spine) && Absent(cmp, KeysOf(spine), key)
      modifies this`curMaxHeight
      ensures Shape() && 1 <= h <= curMaxHeight && curMaxHeight in {old(curMaxHeight), h}
      ensures fresh(prev) && prev.Length == MAX_HEIGHT
      ensures forall l :: 0 <= l < h ==> prev[l] == Predecessors(spine, Position(key))[l]
    {
      ghost var nodes, r := spine, Position(key);
      prev := new Node?<K>[MAX_HEIGHT](_ => null);
      var node := FindEqualOrGreater(key, prev);
      assert node != null ==> node.key == KeysOf(nodes)[r - 1];
      assert node == null || cmp(node.key, key) != 0;
      h := RandomHeight();
      RaiseHeight(h, prev, r);
    }

    /** Inserts a key that equals none present, under a height drawn at random. */
    method Insert(key: K)
      requires Valid() && Absent(cmp, Keys(), key)
      modifies this, spine
      ensures Valid()
      ensures Keys() == InsertAt(old(Keys()), Rank(cmp, old(Keys()), key), key)
      ensures spine == InsertAt(old(spine), old(Position(key)), spine[old(Position(key))])
      ensures fresh(spine[old(Position(key))]) && forall n :: n in spine ==> n in old(spine) || fresh(n)
    {
      ghost var r := Position(key);
      var prev, h := PrepareInsert(key);
      var node := new Node(key, h);
      InsertKeepsShape(cmp, spine, node, r);
      LinkNode(node, prev, r);
      spine := InsertAt(spine, r, node);
    }

    /** The heap invariant, read off the links themselves. */
    lemma LinkMeans(i: nat, l: nat)
      requires Valid() && i < |spine| && l < spine[i].height
      ensures l < |spine[i].next|
      ensures var n := spine[i].next[l]; var j := NextIndex(Heights(spine), i, l);
        // the link skips exactly the nodes that are not on this level
        && n == NodeAt(spine, null, j)
        && (forall k :: i < k < j ==> spine[k].height <= l)
        // it goes up, to a node of this level
        && (n != null ==> n.height > l && (i == 0 || cmp(spine[i].key, n.key) < 0))
      // and on every level the list does not use yet the head links to nothing
      ensures i == 0 && curMaxHeight <= l ==> spine[i].next[l] == null
    {
      var hs, j := Heights(spine), NextIndex(Heights(spine), i, l);
      assert Linked(spine, null, hs, Links(spine), l) && LinkAt(spine, null, hs, Links(spine), i, l);
      assert Links(spine)[i] == spine[i].next;
      assert forall k :: i < k < j ==> hs[k] == spine[k].height;
      if j < |spine| && 0 < i {
        var ks := KeysOf(spine);
        assert ks[i - 1] == spine[i].key && ks[j - 1] == spine[j].key;
        assert Apply(cmp, ks[i - 1], ks[j - 1]) < 0;
      }
    }

    /** What level `l` holds, without the head. */
    ghost function LevelNodes(l: nat): seq<Node<K>>
      reads this
    {
      Taller(spine, Heights(spine), l, 1)
    }

    lemma {:induction false} LevelLeads(l: nat, i: nat)
      requires Valid() && i < |spine| && l < spine[i].height
      ensures Leads(spine[i], l, Taller(spine, Heights(spine), l, i + 1))
      decreases |spine| - i
    {
      var hs := Heights(spine);
      var j := NextIndex(hs, i, l);
      LinkMeans(i, l);
      TallerSkips(spine, hs, l, i + 1, j);
      if j < |spine| {
        LevelLeads(l, j);
        assert Taller(spine, hs, l, j) == [spine[j]] + Taller(spine, hs, l, j + 1);
      }
    }

    /**
     * The links of every level, followed from the head, pass a sublist of what those of the level
     * below pass, and on level 0 all nodes.
     */
    lemma LevelsAreSublists(l: nat)
      requires Valid() && l < MAX_HEIGHT
      ensures Leads(head, l, LevelNodes(l)) && LevelNodes(0) == spine[1..]
      ensures l + 1 < MAX_HEIGHT ==>
                Leads(head, l + 1, LevelNodes(l + 1)) && IsSublist(LevelNodes(l + 1), LevelNodes(l))
    {
      LevelLeads(l, 0);
      TallerOfAll(spine, Heights(spine), 1);
      if l + 1 < MAX_HEIGHT {
        LevelLeads(l + 1, 0);
        LevelsNest(spine, Heights(spine), l, 1);
      }
    }
  }

  /** From `from`, level `l` leads through exactly `nodes` and then ends. */
  ghost predicate Leads<K>(from: Node<K>, l: nat, nodes: seq<Node<K>>)
    reads from, nodes
    decreases |nodes|
  {
    && l < |from.next| && from.next[l] == (if nodes == [] then null else nodes[0])
    && (nodes != [] ==> Leads(nodes[0], l, nodes[1..]))
  }

  /** SkipList::Iterator. It stands at a node or, past either end, nowhere. */
  class Iterator<K(!new,0)> {
    const list: SkipList<K>
    var node: Node?<K>

    ghost predicate Valid()
      reads this, list
    {
      |list.spine| > 0 && (node != null ==> node in list.spine[1..])
    }

    /** Which of the list's keys the iterator is at. */
    ghost function At(): (at: Option<nat>)
      requires Valid()
      reads this, list
      ensures at.None? <==> node == null
    {
      if node == null then None else Some(Rank(list.cmp, list.Keys(), node.key))
    }

    lemma AtIs(i: nat)
      requires Valid() && list.Shape() && i + 1 < |list.spine| && list.spine[i + 1] == node
      ensures At() == Some(i)
    {
      assert Apply(list.cmp, node.key, node.key) == 0 && list.Keys()[i] == node.key;
      RankFinds(list.cmp, list.Keys(), node.key, i);
    }

    lemma AtNode()
      requires Valid() && list.Shape() && At().Some?
      ensures At().value < |list.Keys()| && list.spine[At().value + 1] == node
    {
      var i: nat :| 1 <= i < |list.spine| && list.spine[i] == node;
      AtIs(i - 1);
    }

    constructor (list: SkipList<K>)
      requires list.Valid()
      ensures this.list == list && Valid() && At() == None
    {
      this.list := list;
      node := null;
    }

    method IsValid() returns (valid: bool)
      requires Valid()
      ensures valid <==> At().Some?
    {
      valid := node != null;
    }

    method Key() returns (key: K)
      requires Valid() && list.Shape() && At().Some?
      ensures At().value < |list.Keys()| && key == list.Keys()[At().value]
    {
      AtNode();
      key := node.key;
    }

    method Next()
      requires Valid() && list.Valid() && At().Some?
      modifies this`node
      ensures Valid()
      ensures At() == var i := old(At()).value + 1; if i < |list.Keys()| then Some(i) else None
    {
      AtNode();
      ghost var i := At().value + 1;
      list.LinkMeans(i, 0);
      assert IsNext(Heights(list.spine), i, 0, i + 1);
      node := node.next[0];
      if node != null {
        assert list.spine[1..][i] == node;
        AtIs(i);
      }
    }

    method Prev()
      requires Valid() && list.Valid() && At().Some?
      modifies this`node
      ensures Valid()
      ensures At() == var i := old(At()).value; if i > 0 then Some(i - 1) else None
    {
      ghost var nodes, i := list.spine, At().value;
      AtNode();
      node := list.FindLessThan(node.key);
      assert node == nodes[i];
      DistinctFrom(nodes, 0);
      if node == list.head {
        node := null;
      } else {
        assert nodes[1..][i - 1] == node;
        AtIs(i - 1);
      }
    }

    method Seek(target: K)
      requires Valid() && list.Valid()
      modifies this`node
      ensures Valid()
      ensures At() == var r := Rank(list.cmp, list.Keys(), target); if r < |list.Keys()| then Some(r) else None
    {
      node := list.FindEqualOrGreater(target, null);
      if node != null {
        assert list.spine[1..][list.Position(target) - 1] == node;
        AtIs(list.Position(target) - 1);
      }
    }

    method SeekToFirst()
      requires Valid() && list.Valid()
      modifies this`node
      ensures Valid()
      ensures At() == if |list.Keys()| > 0 then Some(0) else None
    {
      list.LinkMeans(0, 0);
      assert IsNext(Heights(list.spine), 0, 0, 1);
      node := list.head.next[0];
      if node != null {
        assert list.spine[1..][0] == node;
        AtIs(0);
      }
    }

    method SeekToLast()
      requires Valid() && list.Valid()
      modifies this`node
      ensures Valid()
      ensures At() == if |list.Keys()| > 0 then Some(|list.Keys()| - 1) else None
    {
      node := list.FindLast();
      DistinctFrom(list.spine, 0);
      if node == list.head {
        node := null;
      } else {
        assert list.spine[1..][|list.spine| - 2] == node;
        AtIs(|list.spine| - 2);
      }
    }
  }

  // ---------- Whole walks ----------

  /** `seekToFirst` and then `next` until the end visits every key, in ascending order. */
  method WalkForward<K(!new,0)>(list: SkipList<K>) returns (ks: seq<K>)
    requires list.Valid()
    ensures ks == list.Keys()
  {
    ghost var all, n := list.Keys(), 0;
    var it: Iterator<K> := new Iterator(list);
    it.SeekToFirst();
    ks := [];
    while it.node != null
      invariant it.Valid() && it.list == list
      invariant 0 <= n <= |all| && ks == all[..n]
      invariant it.At() == if n < |all| then Some(n) else None
      modifies it`node
      decreases |all| - n
    {
      var key := it.Key();
      TakeOneMore(all, n);
      ks := ks + [key];
      it.Next();
      n := n + 1;
    }
  }

  ghost function Reverse<T>(s: seq<T>): (r: seq<T>)
    ensures |r| == |s|
    ensures forall i {:trigger r[i]} :: 0 <= i < |r| ==> r[i] == s[|s| - 1 - i]
  {
    seq(|s|, i requires 0 <= i < |s| => s[|s| - 1 - i])
  }

  /** `seekToLast` and then `prev` until the front visits every key, in descending order. */
  method WalkBackward<K(!new,0)>(list: SkipList<K>) returns (ks: seq<K>)
    requires list.Valid()
    ensures ks == Reverse(list.Keys())
  {
    ghost var all, n := list.Keys(), 0;
    ghost var reversed := Reverse(all);
    var it: Iterator<K> := new Iterator(list);
    it.SeekToLast();
    ks := [];
    while it.node != null
      invariant it.Valid() && it.list == list
      invariant 0 <= n <= |all| && ks == reversed[..n]
      invariant it.At() == if n < |all| then Some(|all| - 1 - n) else None
      modifies it`node
      decreases |all| - n
    {
      var key := it.Key();
      TakeOneMore(reversed, n);
      ks := ks + [key];
      it.Prev();
      n := n + 1;
    }
  }

  /** `prev` undoes `next` wherever `next` does not leave the list, and `next` undoes `prev` likewise. */
  method StepAndBack<K(!new,0)>(it: Iterator<K>, forward: bool)
    requires it.Valid() && it.list.Valid() && it.At().Some?
    requires if forward then it.At().value + 1 < |it.list.Keys()| else it.At().value > 0
    modifies it`node
    ensures it.Valid() && it.node == old(it.node)
  {
    if forward {
      it.AtNode();
      it.Next();
      it.AtNode();
      it.Prev();
      it.AtNode();
    } else {
      it.AtNode();
      it.Prev();
      it.AtNode();
      it.Next();
      it.AtNode();
    }
  }
}
