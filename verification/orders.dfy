/** Three-way comparison results, read as the sign of an `int`, and the order laws they can obey. */
module Orders {
  import opened Sequences

  function Sign(c: int): int {
    if c < 0 then -1 else if c > 0 then 1 else 0
  }

  /**
   * `cmp` is a three-way comparison for a total preorder. Distinct values may compare as equal:
   * two memtable entries with the same internal key and different values do.
   */
  ghost predicate IsOrder<K(!new)>(cmp: (K, K) -> int) {
    && (forall a :: Apply(cmp, a, a) == 0)
    && (forall a, b :: Sign(Apply(cmp, a, b)) == -Sign(Apply(cmp, b, a)))
    && (forall a, b, c {:trigger Apply(cmp, a, b), Apply(cmp, b, c)} ::
          Apply(cmp, a, b) <= 0 && Apply(cmp, b, c) <= 0 ==> Apply(cmp, a, c) <= 0)
  }

  /** `cmp(a, b)`, named so that the laws above are used only where a proof asks for them. */
  ghost function Apply<K>(cmp: (K, K) -> int, a: K, b: K): int {
    cmp(a, b)
  }

  lemma Transitive<K(!new)>(cmp: (K, K) -> int, a: K, b: K, c: K)
    requires IsOrder(cmp)
    ensures cmp(a, b) <= 0 && cmp(b, c) <= 0 ==> cmp(a, c) <= 0
    ensures cmp(a, b) <= 0 && cmp(b, c) < 0 ==> cmp(a, c) < 0
    ensures cmp(a, b) < 0 && cmp(b, c) <= 0 ==> cmp(a, c) < 0
    ensures cmp(a, b) == 0 && cmp(b, c) == 0 ==> cmp(a, c) == 0
    ensures Sign(cmp(a, b)) == -Sign(cmp(b, a))
  {
    assert Sign(Apply(cmp, a, b)) == -Sign(Apply(cmp, b, a));
    assert Sign(Apply(cmp, b, c)) == -Sign(Apply(cmp, c, b));
    assert Sign(Apply(cmp, a, c)) == -Sign(Apply(cmp, c, a));
  }

  ghost predicate StrictlySorted<K>(cmp: (K, K) -> int, s: seq<K>) {
    forall i, j {:trigger Apply(cmp, s[i], s[j])} :: 0 <= i < j < |s| ==> Apply(cmp, s[i], s[j]) < 0
  }

  ghost predicate IsRank<K>(cmp: (K, K) -> int, s: seq<K>, key: K, r: nat) {
    && r <= |s|
    && (forall i :: 0 <= i < r ==> cmp(s[i], key) < 0)
    && (r < |s| ==> cmp(s[r], key) >= 0)
  }

  lemma RankExists<K>(cmp: (K, K) -> int, s: seq<K>, key: K) returns (r: nat)
    ensures IsRank(cmp, s, key, r)
  {
    r := 0;
    while r < |s| && cmp(s[r], key) < 0
      invariant r <= |s|
      invariant forall i :: 0 <= i < r ==> cmp(s[i], key) < 0
    {
      r := r + 1;
    }
  }

  /** How many elements at the front of `s` are below `key`. */
  ghost function Rank<K>(cmp: (K, K) -> int, s: seq<K>, key: K): (r: nat)
    ensures IsRank(cmp, s, key, r)
  {
    assert exists r: nat :: IsRank(cmp, s, key, r) by { var r := RankExists(cmp, s, key); }
    var r: nat :| IsRank(cmp, s, key, r);
    r
  }

  /** In a strictly sorted sequence everything from the rank on is at or above the key. */
  lemma RankSplits<K(!new)>(cmp: (K, K) -> int, s: seq<K>, key: K)
    requires IsOrder(cmp) && StrictlySorted(cmp, s)
    ensures forall i :: Rank(cmp, s, key) <= i < |s| ==> cmp(s[i], key) >= 0
  {
    var r := Rank(cmp, s, key);
    forall i | r <= i < |s| ensures cmp(s[i], key) >= 0 {
      if r < i {
        assert Apply(cmp, s[r], s[i]) < 0;
        Transitive(cmp, s[r], s[i], key);
      }
    }
  }

  /** A key equal to `key` can only sit at its rank. */
  lemma RankFinds<K(!new)>(cmp: (K, K) -> int, s: seq<K>, key: K, i: nat)
    requires IsOrder(cmp) && StrictlySorted(cmp, s)
    requires i < |s| && cmp(s[i], key) == 0
    ensures i == Rank(cmp, s, key)
  {
    var r := Rank(cmp, s, key);
    if r < i {
      assert Apply(cmp, s[r], s[i]) < 0;
      Transitive(cmp, s[r], s[i], key);
    }
  }

  /** What is at or above the key is the element at the rank or above that. */
  lemma RankLeads<K(!new)>(cmp: (K, K) -> int, s: seq<K>, key: K, i: nat)
    requires StrictlySorted(cmp, s) && i < |s| && cmp(s[i], key) >= 0
    ensures var r := Rank(cmp, s, key); r <= i && (r < i ==> cmp(s[r], s[i]) < 0)
  {
    var r := Rank(cmp, s, key);
    if r < i { assert Apply(cmp, s[r], s[i]) < 0; }
  }

  ghost predicate Absent<K(!new)>(cmp: (K, K) -> int, s: seq<K>, key: K) {
    forall k :: k in s ==> cmp(k, key) != 0
  }

  /** Inserting a key that equals none of the others at its rank keeps the sequence sorted. */
  lemma InsertKeepsSorted<K(!new)>(cmp: (K, K) -> int, s: seq<K>, key: K)
    requires IsOrder(cmp) && StrictlySorted(cmp, s)
    requires Absent(cmp, s, key)
    ensures StrictlySorted(cmp, InsertAt(s, Rank(cmp, s, key), key))
  {
    var r := Rank(cmp, s, key);
    var t := InsertAt(s, r, key);
    RankSplits(cmp, s, key);
    forall i, j | 0 <= i < j < |t| ensures Apply(cmp, t[i], t[j]) < 0 {
      if i == r {
        assert t[j] == s[j - 1] && s[j - 1] in s;
        Transitive(cmp, key, s[j - 1], key);
      } else if j == r {
      } else {
        var a := if i < r then i else i - 1;
        var b := if j < r then j else j - 1;
        assert t[i] == s[a] && t[j] == s[b] && Apply(cmp, s[a], s[b]) < 0;
      }
    }
  }
}
