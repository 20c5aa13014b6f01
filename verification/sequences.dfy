/** Facts about sequences that the other modules share. */
module Sequences {
  lemma AppendAssociates<T>(a: seq<T>, b: seq<T>, c: seq<T>)
    ensures a + b + c == a + (b + c)
  {
  }

  lemma SliceOfSlice<T>(s: seq<T>, i: nat, j: nat, a: nat, b: nat)
    requires a <= b && i + b <= j <= |s|
    ensures s[i..j][a..b] == s[i + a..i + b]
  {
    var t := s[i..j];
    assert forall k :: 0 <= k < |t| ==> t[k] == s[i + k];
    assert forall k :: 0 <= k < b - a ==> t[a..b][k] == t[a + k];
  }

  lemma SliceOfDrop<T>(s: seq<T>, i: nat, a: nat, b: nat)
    requires a <= b && i + b <= |s|
    ensures s[i..][a..b] == s[i + a..i + b]
  {
    var t := s[i..];
    assert forall k :: 0 <= k < |t| ==> t[k] == s[i + k];
    assert forall k :: 0 <= k < b - a ==> t[a..b][k] == t[a + k];
  }

  lemma TakeOfAppend<T>(a: seq<T>, b: seq<T>, n: nat)
    requires n <= |b|
    ensures (a + b)[..|a| + n] == a + b[..n]
  {
  }

  lemma SliceOfAppend<T>(a: seq<T>, b: seq<T>, n: nat)
    requires n <= |b|
    ensures (a + b)[|a|..|a| + n] == b[..n]
  {
  }

  function InsertAt<T>(s: seq<T>, r: nat, x: T): (t: seq<T>)
    requires r <= |s|
    ensures |t| == |s| + 1
    ensures t[r] == x
    ensures forall i :: 0 <= i < r ==> t[i] == s[i]
    ensures forall i :: r < i < |t| ==> t[i] == s[i - 1]
  {
    s[..r] + [x] + s[r..]
  }

  lemma InsertAtMembers<T>(s: seq<T>, r: nat, x: T, k: T)
    requires r <= |s|
    ensures k in InsertAt(s, r, x) <==> k in s || k == x
  {
    var t := InsertAt(s, r, x);
    if i :| 0 <= i < |s| && s[i] == k {
      assert t[if i < r then i else i + 1] == k;
    }
    assert t[r] == x;
  }

  lemma TakeOneMore<T>(s: seq<T>, n: nat)
    requires n < |s|
    ensures s[..n] + [s[n]] == s[..n + 1]
  {
  }

  ghost predicate Differ<T>(s: seq<T>, i: nat, j: nat) {
    i < |s| && j < |s| && s[i] != s[j]
  }

  /** Nothing occurs twice. */
  ghost predicate Distinct<T>(s: seq<T>) {
    forall i, j {:trigger Differ(s, i, j)} :: 0 <= i < j < |s| ==> Differ(s, i, j)
  }

  lemma DistinctFrom<T>(s: seq<T>, i: nat)
    requires Distinct(s) && i < |s|
    ensures forall k :: 0 <= k < |s| && k != i ==> s[k] != s[i]
  {
    forall k | 0 <= k < |s| && k != i ensures s[k] != s[i] {
      assert if k < i then Differ(s, k, i) else Differ(s, i, k);
    }
  }

  lemma InsertKeepsDistinct<T>(s: seq<T>, r: nat, x: T)
    requires r <= |s| && x !in s && Distinct(s)
    ensures Distinct(InsertAt(s, r, x))
  {
    var t := InsertAt(s, r, x);
    forall i, j | 0 <= i < j < |t| ensures Differ(t, i, j) {
      if i != r && j != r {
        var a, b := if i < r then i else i - 1, if j < r then j else j - 1;
        assert Differ(s, a, b);
      }
    }
  }
}
