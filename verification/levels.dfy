/**
 * The shape of a skip list, without its pointers. A list is described by the heights of its
 * nodes in level-0 order, the head first; level l links exactly the nodes higher than l.
 */
module Levels {
  import opened Sequences

  const MAX_HEIGHT: nat := 12

  ghost predicate IsNext(hs: seq<nat>, i: nat, l: nat, j: nat) {
    && i < j <= |hs|
    && (j < |hs| ==> hs[j] > l)
    && forall k :: i < k < j ==> hs[k] <= l
  }

  lemma NextExists(hs: seq<nat>, i: nat, l: nat) returns (j: nat)
    requires i < |hs|
    ensures IsNext(hs, i, l, j)
  {
    j := i + 1;
    while j < |hs| && hs[j] <= l
      invariant i < j <= |hs|
      invariant forall k :: i < k < j ==> hs[k] <= l
    {
      j := j + 1;
    }
  }

  /** The next node after `i` that takes part in level `l`, or |hs| when there is none. */
  ghost function NextIndex(hs: seq<nat>, i: nat, l: nat): (j: nat)
    requires i < |hs|
    ensures IsNext(hs, i, l, j)
  {
    assert exists j: nat :: IsNext(hs, i, l, j) by { var j := NextExists(hs, i, l); }
    var j: nat :| IsNext(hs, i, l, j);
    j
  }

  ghost predicate IsPrev(hs: seq<nat>, r: nat, l: nat, j: nat) {
    && j < r <= |hs|
    && hs[j] > l
    && forall k :: j < k < r ==> hs[k] <= l
  }

  lemma PrevExists(hs: seq<nat>, r: nat, l: nat) returns (j: nat)
    requires 0 < r <= |hs| && hs[0] > l
    ensures IsPrev(hs, r, l, j)
  {
    j := r - 1;
    while hs[j] <= l
      decreases j
      invariant 0 <= j < r
      invariant forall k :: j < k < r ==> hs[k] <= l
    {
      j := j - 1;
    }
  }

  /** The last node before `r` that takes part in level `l`. */
  ghost function PrevIndex(hs: seq<nat>, r: nat, l: nat): (j: nat)
    requires 0 < r <= |hs| && hs[0] > l
    ensures IsPrev(hs, r, l, j)
  {
    assert exists j: nat :: IsPrev(hs, r, l, j) by { var j := PrevExists(hs, r, l); }
    var j: nat :| IsPrev(hs, r, l, j);
    j
  }

  /** Where an index lands once a node has been inserted at `r`. */
  function Shift(r: nat, j: nat): nat {
    if j < r then j else j + 1
  }

  /** Inserting at `r` on level `l` redirects the link of the last node before `r` on that level. */
  lemma NextOfPredecessor(hs: seq<nat>, r: nat, h: nat, l: nat)
    requires 0 < r <= |hs| && hs[0] > l && l < h
    ensures NextIndex(InsertAt(hs, r, h), PrevIndex(hs, r, l), l) == r
  {
    var hs' := InsertAt(hs, r, h);
    var p := PrevIndex(hs, r, l);
    forall k | p < k < r ensures hs'[k] <= l { assert hs'[k] == hs[k]; }
  }

  /** Every other link of the level, and every link of a level the node does not reach, is kept. */
  lemma NextOfOthers(hs: seq<nat>, r: nat, h: nat, i: nat, l: nat)
    requires 0 < r <= |hs| && hs[0] > l && i < |hs| && hs[i] > l
    requires h <= l || i != PrevIndex(hs, r, l)
    ensures NextIndex(InsertAt(hs, r, h), Shift(r, i), l) == Shift(r, NextIndex(hs, i, l))
  {
    var hs' := InsertAt(hs, r, h);
    var j := NextIndex(hs, i, l);
    var e := Shift(r, j);
    assert i < r && j >= r ==> i == PrevIndex(hs, r, l);
    assert e < |hs'| ==> hs'[e] == hs[j];
    forall k | Shift(r, i) < k < e ensures hs'[k] <= l {
      if k < r {
        assert hs'[k] == hs[k];
      } else if k > r {
        assert hs'[k] == hs[k - 1];
      }
    }
    assert IsNext(hs', Shift(r, i), l, e);
  }

  /** The inserted node's own link on a level it takes part in: where its predecessor used to point. */
  lemma NextOfInserted(hs: seq<nat>, r: nat, h: nat, l: nat)
    requires 0 < r <= |hs| && hs[0] > l && l < h
    ensures NextIndex(InsertAt(hs, r, h), r, l) == Shift(r, NextIndex(hs, PrevIndex(hs, r, l), l))
    ensures NextIndex(hs, PrevIndex(hs, r, l), l) >= r
  {
    var hs' := InsertAt(hs, r, h);
    var p := PrevIndex(hs, r, l);
    var j := NextIndex(hs, p, l);
    assert forall k :: p < k < r ==> hs[k] <= l;
    var e := j + 1;
    assert e < |hs'| ==> hs'[e] == hs[j];
    forall k | r < k < e ensures hs'[k] <= l {
      assert hs'[k] == hs[k - 1];
    }
  }

  // ---------- What a level holds ----------

  /** The nodes from index `i` on that take part in level `l`. */
  function Taller<N>(nodes: seq<N>, hs: seq<nat>, l: nat, i: nat): (taller: seq<N>)
    requires |nodes| == |hs|
    decreases |hs| - i
  {
    if i >= |hs| then [] else (if hs[i] > l then [nodes[i]] else []) + Taller(nodes, hs, l, i + 1)
  }

  lemma {:induction false} TallerSkips<N>(nodes: seq<N>, hs: seq<nat>, l: nat, i: nat, j: nat)
    requires |nodes| == |hs| && i <= j <= |hs| && forall k :: i <= k < j ==> hs[k] <= l
    ensures Taller(nodes, hs, l, i) == Taller(nodes, hs, l, j)
    decreases j - i
  {
    if i < j { TallerSkips(nodes, hs, l, i + 1, j); }
  }

  ghost predicate TallAt<N>(nodes: seq<N>, hs: seq<nat>, l: nat, k: nat, h: N) {
    k < |nodes| == |hs| && nodes[k] == h && hs[k] > l
  }

  lemma {:induction false} TallerHas<N>(nodes: seq<N>, hs: seq<nat>, l: nat, i: nat, h: N)
    requires |nodes| == |hs|
    ensures h in Taller(nodes, hs, l, i) <==> exists k :: k >= i && TallAt(nodes, hs, l, k, h)
    decreases |hs| - i
  {
    if i < |hs| {
      TallerHas(nodes, hs, l, i + 1, h);
      if h in Taller(nodes, hs, l, i) {
        assert TallAt(nodes, hs, l, i, h) || h in Taller(nodes, hs, l, i + 1);
      }
      if k :| k >= i && TallAt(nodes, hs, l, k, h) {
        assert k == i || h in Taller(nodes, hs, l, i + 1);
      }
    }
  }

  lemma {:induction false} TallerOfAll<N>(nodes: seq<N>, hs: seq<nat>, i: nat)
    requires |nodes| == |hs| && i <= |hs| && forall k :: i <= k < |hs| ==> hs[k] > 0
    ensures Taller(nodes, hs, 0, i) == nodes[i..]
    decreases |hs| - i
  {
    if i < |hs| { TallerOfAll(nodes, hs, i + 1); }
  }

  /** All of `a` occurs in `b`, in the same order. */
  ghost predicate IsSublist<N>(a: seq<N>, b: seq<N>) {
    a == [] || (b != [] && ((a[0] == b[0] && IsSublist(a[1..], b[1..])) || IsSublist(a, b[1..])))
  }

  /** Every level is a sublist of the one below it. */
  lemma {:induction false} LevelsNest<N>(nodes: seq<N>, hs: seq<nat>, l: nat, i: nat)
    requires |nodes| == |hs|
    ensures IsSublist(Taller(nodes, hs, l + 1, i), Taller(nodes, hs, l, i))
    decreases |hs| - i
  {
    if i < |hs| {
      LevelsNest(nodes, hs, l, i + 1);
      var up, down := Taller(nodes, hs, l + 1, i + 1), Taller(nodes, hs, l, i + 1);
      SublistExtends(up, down, nodes[i]);
      assert [] + up == up && [] + down == down;
    }
  }

  lemma SublistExtends<N>(a: seq<N>, b: seq<N>, x: N)
    requires IsSublist(a, b)
    ensures IsSublist(a, [x] + b) && IsSublist([x] + a, [x] + b)
  {
    assert ([x] + a)[1..] == a && ([x] + b)[1..] == b;
  }

  // ---------- Links ----------
  // `spine` lists node handles in level-0 order and `links[i][l]` is the handle stored in
  // node i on level l, with `nil` for the end of a level.

  ghost function NodeAt<N>(spine: seq<N>, nil: N, j: nat): N {
    if j < |spine| then spine[j] else nil
  }

  ghost predicate Rows<N>(hs: seq<nat>, links: seq<seq<N>>) {
    |links| == |hs| && forall i :: 0 <= i < |hs| ==> |links[i]| == hs[i]
  }

  ghost predicate LinkAt<N>(spine: seq<N>, nil: N, hs: seq<nat>, links: seq<seq<N>>, i: nat, l: nat)
    requires i < |hs| && Rows(hs, links)
  {
    l < hs[i] ==> links[i][l] == NodeAt(spine, nil, NextIndex(hs, i, l))
  }

  /** Level `l` links exactly the nodes higher than `l`, in spine order, and ends in nil. */
  ghost predicate Linked<N>(spine: seq<N>, nil: N, hs: seq<nat>, links: seq<seq<N>>, l: nat)
    requires Rows(hs, links)
  {
    forall i {:trigger LinkAt(spine, nil, hs, links, i, l)} :: 0 <= i < |hs| ==> LinkAt(spine, nil, hs, links, i, l)
  }

  ghost predicate BypassAt<N>(spine: seq<N>, nil: N, hs: seq<nat>, r: nat, h: nat, links: seq<seq<N>>, i: nat, l: nat)
    requires i < |hs| && r <= |hs| && Rows(InsertAt(hs, r, h), links)
  {
    l < hs[i] ==> links[Shift(r, i)][l] == NodeAt(spine, nil, NextIndex(hs, i, l))
  }

  /** Level `l` still reads as it did before a node was put at `r`: no other node links to it. */
  ghost predicate Bypassed<N>(spine: seq<N>, nil: N, hs: seq<nat>, r: nat, h: nat, links: seq<seq<N>>, l: nat)
    requires r <= |hs| && Rows(InsertAt(hs, r, h), links)
  {
    forall i {:trigger BypassAt(spine, nil, hs, r, h, links, i, l)} :: 0 <= i < |hs| ==>
      BypassAt(spine, nil, hs, r, h, links, i, l)
  }

  /** The two stores that put a node into level `l`: its own link, then its predecessor's. */
  function Splice<N>(links: seq<seq<N>>, p: nat, r: nat, l: nat, node: N): (links': seq<seq<N>>)
    requires p < |links| && r < |links| && p != r
    requires l < |links[p]| && l < |links[r]|
    ensures |links'| == |links|
    ensures forall i :: 0 <= i < |links| ==> |links'[i]| == |links[i]|
    ensures links'[r][l] == links[p][l] && links'[p][l] == node
    ensures forall i, k :: 0 <= i < |links| && 0 <= k < |links[i]| && !((i == p || i == r) && k == l) ==>
              links'[i][k] == links[i][k]
  {
    links[r := links[r][l := links[p][l]]][p := links[p][l := node]]
  }

  /** A bypassed level is linked at every node but the new one and its predecessor. */
  lemma BypassLinksOthers<N>(spine: seq<N>, nil: N, hs: seq<nat>, r: nat, h: nat, node: N, links: seq<seq<N>>,
      l: nat, i: nat)
    requires |spine| == |hs| && 0 < r <= |hs| && l < hs[0] && i < |hs|
    requires h <= l || i != PrevIndex(hs, r, l)
    requires Rows(InsertAt(hs, r, h), links)
    requires BypassAt(spine, nil, hs, r, h, links, i, l)
    ensures LinkAt(InsertAt(spine, r, node), nil, InsertAt(hs, r, h), links, Shift(r, i), l)
  {
    if l < hs[i] {
      NextOfOthers(hs, r, h, i, l);
    }
  }

  /** A spliced level is linked, with the new node in it. */
  lemma SpliceLinks<N>(spine: seq<N>, nil: N, hs: seq<nat>, r: nat, h: nat, node: N, links: seq<seq<N>>, l: nat)
    requires |spine| == |hs| && 0 < r <= |hs| && l < h && hs[0] > l
    requires Rows(InsertAt(hs, r, h), links)
    requires Bypassed(spine, nil, hs, r, h, links, l)
    ensures var links' := Splice(links, PrevIndex(hs, r, l), r, l, node);
      && Rows(InsertAt(hs, r, h), links')
      && Linked(InsertAt(spine, r, node), nil, InsertAt(hs, r, h), links', l)
  {
    var p := PrevIndex(hs, r, l);
    var hs', spine' := InsertAt(hs, r, h), InsertAt(spine, r, node);
    var links' := Splice(links, p, r, l, node);
    forall k | 0 <= k < |hs'| ensures LinkAt(spine', nil, hs', links', k, l) {
      if k == r {
        NextOfInserted(hs, r, h, l);
        assert BypassAt(spine, nil, hs, r, h, links, p, l);
      } else if k == p {
        NextOfPredecessor(hs, r, h, l);
      } else {
        var i := if k < r then k else k - 1;
        assert BypassAt(spine, nil, hs, r, h, links, i, l);
        BypassLinksOthers(spine, nil, hs, r, h, node, links, l, i);
        assert Shift(r, i) == k;
      }
    }
  }

  /** A level the new node does not reach is linked as it stands. */
  lemma BypassLinks<N>(spine: seq<N>, nil: N, hs: seq<nat>, r: nat, h: nat, node: N, links: seq<seq<N>>, l: nat)
    requires |spine| == |hs| && 0 < r <= |hs| && h <= l < hs[0]
    requires Rows(InsertAt(hs, r, h), links)
    requires Bypassed(spine, nil, hs, r, h, links, l)
    ensures Linked(InsertAt(spine, r, node), nil, InsertAt(hs, r, h), links, l)
  {
    var hs', spine' := InsertAt(hs, r, h), InsertAt(spine, r, node);
    forall k | 0 <= k < |hs'| ensures LinkAt(spine', nil, hs', links, k, l) {
      if k != r {
        var i := if k < r then k else k - 1;
        assert BypassAt(spine, nil, hs, r, h, links, i, l);
        BypassLinksOthers(spine, nil, hs, r, h, node, links, l, i);
        assert Shift(r, i) == k;
      }
    }
  }

  /** Splicing one level leaves the other levels as they read before. */
  lemma SpliceKeepsOthers<N>(spine: seq<N>, nil: N, hs: seq<nat>, r: nat, h: nat, node: N, links: seq<seq<N>>,
      l: nat, m: nat)
    requires |spine| == |hs| && 0 < r <= |hs| && l < h && hs[0] > l && m != l
    requires Rows(InsertAt(hs, r, h), links)
    ensures var links' := Splice(links, PrevIndex(hs, r, l), r, l, node);
      && (Bypassed(spine, nil, hs, r, h, links, m) ==> Bypassed(spine, nil, hs, r, h, links', m))
      && (Linked(InsertAt(spine, r, node), nil, InsertAt(hs, r, h), links, m) ==>
            Linked(InsertAt(spine, r, node), nil, InsertAt(hs, r, h), links', m))
  {
    var hs', spine' := InsertAt(hs, r, h), InsertAt(spine, r, node);
    var links' := Splice(links, PrevIndex(hs, r, l), r, l, node);
    if Bypassed(spine, nil, hs, r, h, links, m) {
      forall i | 0 <= i < |hs| ensures BypassAt(spine, nil, hs, r, h, links', i, m) {
        assert BypassAt(spine, nil, hs, r, h, links, i, m);
      }
    }
    if Linked(spine', nil, hs', links, m) {
      forall i | 0 <= i < |hs'| ensures LinkAt(spine', nil, hs', links', i, m) {
        assert LinkAt(spine', nil, hs', links, i, m);
      }
    }
  }

  /** Before any store the levels of the old list are bypassed, whatever the new node's links hold. */
  lemma FreshNodeIsBypassed<N>(spine: seq<N>, nil: N, hs: seq<nat>, r: nat, h: nat, links: seq<seq<N>>,
      row: seq<N>, l: nat)
    requires |spine| == |hs| && r <= |hs| && Rows(hs, links) && |row| == h
    requires Linked(spine, nil, hs, links, l)
    ensures Rows(InsertAt(hs, r, h), InsertAt(links, r, row))
    ensures Bypassed(spine, nil, hs, r, h, InsertAt(links, r, row), l)
  {
    forall i | 0 <= i < |hs| ensures BypassAt(spine, nil, hs, r, h, InsertAt(links, r, row), i, l) {
      assert LinkAt(spine, nil, hs, links, i, l);
    }
  }

  /**
   * A node of height `h` is being linked in at `r`, top level first: the levels above `i` hold it,
   * the others do not yet. `i == h - 1` is the start and `i == -1` the end.
   */
  ghost predicate Linking<N>(spine: seq<N>, nil: N, hs: seq<nat>, r: nat, h: nat, node: N, links: seq<seq<N>>, i: int) {
    && |spine| == |hs| && 0 < r <= |hs| && -1 <= i < h <= hs[0]
    && Rows(InsertAt(hs, r, h), links)
    && (forall l {:trigger Linked(InsertAt(spine, r, node), nil, InsertAt(hs, r, h), links, l)} :: i < l < h ==>
          Linked(InsertAt(spine, r, node), nil, InsertAt(hs, r, h), links, l))
    && (forall l {:trigger Bypassed(spine, nil, hs, r, h, links, l)} :: 0 <= l <= i || h <= l < hs[0] ==>
          Bypassed(spine, nil, hs, r, h, links, l))
  }

  lemma LinkingStarts<N>(spine: seq<N>, nil: N, hs: seq<nat>, r: nat, h: nat, node: N, links: seq<seq<N>>, row: seq<N>)
    requires |spine| == |hs| && 0 < r <= |hs| && h <= hs[0] && Rows(hs, links) && |row| == h
    requires forall l :: 0 <= l < hs[0] ==> Linked(spine, nil, hs, links, l)
    ensures Linking(spine, nil, hs, r, h, node, InsertAt(links, r, row), h - 1)
  {
    forall l | 0 <= l < hs[0] ensures Bypassed(spine, nil, hs, r, h, InsertAt(links, r, row), l) {
      FreshNodeIsBypassed(spine, nil, hs, r, h, links, row, l);
    }
  }

  lemma LinkingSteps<N>(spine: seq<N>, nil: N, hs: seq<nat>, r: nat, h: nat, node: N, links: seq<seq<N>>, i: nat)
    requires Linking(spine, nil, hs, r, h, node, links, i)
    ensures Linking(spine, nil, hs, r, h, node, Splice(links, PrevIndex(hs, r, i), r, i, node), i - 1)
  {
    SpliceLinks(spine, nil, hs, r, h, node, links, i);
    forall m | 0 <= m < hs[0] && m != i
      ensures var links' := Splice(links, PrevIndex(hs, r, i), r, i, node);
        if i < m < h then Linked(InsertAt(spine, r, node), nil, InsertAt(hs, r, h), links', m)
        else Bypassed(spine, nil, hs, r, h, links', m)
    {
      SpliceKeepsOthers(spine, nil, hs, r, h, node, links, i, m);
    }
  }

  lemma LinkingEnds<N>(spine: seq<N>, nil: N, hs: seq<nat>, r: nat, h: nat, node: N, links: seq<seq<N>>, l: nat)
    requires Linking(spine, nil, hs, r, h, node, links, -1) && l < hs[0]
    ensures Linked(InsertAt(spine, r, node), nil, InsertAt(hs, r, h), links, l)
  {
    if h <= l {
      BypassLinks(spine, nil, hs, r, h, node, links, l);
    }
  }

  // ---------- Searches ----------

  /** Where a search can be while it scans `level`, when `r` is the position it looks for. */
  ghost predicate Searching(hs: seq<nat>, r: nat, level: int, at: nat) {
    && at < r <= |hs|
    && level < hs[at]
    && forall k :: at < k < r ==> hs[k] <= level + 1
  }

  /** One step of a search: right while the next node of the level lies before the position, down otherwise. */
  lemma SearchStep(hs: seq<nat>, r: nat, level: nat, at: nat)
    requires Searching(hs, r, level, at) && level < hs[0]
    requires forall i :: 1 <= i < |hs| ==> 1 <= hs[i]
    ensures var j := NextIndex(hs, at, level);
      && at < j
      && (j < r ==> Searching(hs, r, level, j))
      && (j >= r ==> Searching(hs, r, level - 1, at) && at == PrevIndex(hs, r, level))
      && (j >= r && level == 0 ==> j == r == at + 1)
  {
    assert forall k :: at < k < r && level == 0 ==> hs[k] == 1;
    if level == 0 && at + 1 < |hs| { assert IsNext(hs, at, 0, at + 1); }
  }
}
