/** comparator.cpp: the bytewise comparator's two ways of shortening a key. */
module Comparators {
  import opened Bytes
  import opened Departures

  /**
   * The size a changed separator is given. The source writes `diff_byte + 1`, which uses the byte
   * found at the difference as if it were the index of the difference; its test expects the index.
   */
  function Kept(text: Text, index: nat, b: byte): nat {
    match text
    case AsWritten => b + 1
    case AsMeant => index + 1
  }

  /** std::string::resize */
  function Resized(s: seq<byte>, n: nat): (t: seq<byte>)
    ensures |t| == n
    ensures forall k :: 0 <= k < n ==> t[k] == if k < |s| then s[k] else 0
  {
    if n <= |s| then s[..n] else s + seq<byte>(n - |s|, _ => 0)
  }

  /** Where two strings part, as a function of them. */
  ghost function Parting(a: seq<byte>, b: seq<byte>): (i: nat)
    ensures PartAt(a, b, i)
  {
    assert exists i: nat :: PartAt(a, b, i) by { var i := PartExists(a, b); }
    var i: nat :| PartAt(a, b, i);
    i
  }

  /** The bytes at the parting leave room for a byte in between. */
  ghost predicate HasRoom(a: seq<byte>, b: seq<byte>) {
    var i := Parting(a, b);
    i < |a| && i < |b| && a[i] < 0xff && a[i] + 1 < b[i]
  }

  ghost function Separator(a: seq<byte>, b: seq<byte>, text: Text): seq<byte> {
    var i := Parting(a, b);
    if HasRoom(a, b) then
      Resized(a[i := a[i] + 1], Kept(text, i, a[i]))
    else a
  }

  method FindShortestSeparator(start: String, limit: seq<byte>, text: Text)
    modifies start
    ensures start.bytes == Separator(old(start.bytes), limit, text)
  {
    ghost var a := start.bytes;
    var minLength := Min(|start.bytes|, |limit|);
    var i := 0;
    while i < minLength && start.bytes[i] == limit[i]
      invariant 0 <= i <= minLength && start.bytes == a
      invariant forall k :: 0 <= k < i ==> a[k] == limit[k]
    {
      i := i + 1;
    }
    assert i == Parting(a, limit);
    if i < minLength {
      var diffByte := start.bytes[i];
      if diffByte < 0xff && diffByte + 1 < limit[i] {
        start.bytes := start.bytes[i := diffByte + 1];
        start.bytes := Resized(start.bytes, Kept(text, i, diffByte));
        assert Compare(start.bytes, limit) < 0 by { SeparatorBelowLimit(a, limit, text); }
      }
    }
  }

  /** A changed separator is below the limit, in either form: the source's own assertion. */
  lemma SeparatorBelowLimit(a: seq<byte>, b: seq<byte>, text: Text)
    requires HasRoom(a, b)
    ensures Compare(Separator(a, b, text), b) < 0
  {
    var r, i := Separator(a, b, text), Parting(a, b);
    CompareAt(r, b, Min(i, |r|));
  }

  /**
   * A changed separator is above the start, whatever is appended to the start, exactly when the
   * resize keeps the byte that was raised. Otherwise it is a proper prefix of the start, below it.
   */
  lemma SeparatorAboveStart(a: seq<byte>, b: seq<byte>, text: Text, x: seq<byte>)
    requires HasRoom(a, b)
    ensures var i := Parting(a, b);
      Compare(a + x, Separator(a, b, text)) == if Kept(text, i, a[i]) > i then -1 else 1
  {
    var r, i := Separator(a, b, text), Parting(a, b);
    CompareAt(a + x, r, Min(i, |r|));
  }

  /** As meant, a separator of an ordered pair lies in [start, limit) and is no longer than the start. */
  lemma SeparatorAsMeant(a: seq<byte>, b: seq<byte>)
    requires Compare(a, b) < 0
    ensures var r := Separator(a, b, AsMeant);
      Compare(a, r) <= 0 && Compare(r, b) < 0 && |r| <= |a|
  {
    assert a + [] == a;
    if HasRoom(a, b) {
      SeparatorBelowLimit(a, b, AsMeant);
      SeparatorAboveStart(a, b, AsMeant, []);
    } else {
      CompareIsEquality(a, a);
    }
  }

  predicate IsBetween(x: byte, c: byte, y: byte) {
    x < c < y
  }

  /**
   * It is changed exactly when some byte lies strictly between those at the parting; and then it is
   * the least string of its size, up to the parting and one byte more, that is above the start.
   */
  lemma SeparatorIsLeast(a: seq<byte>, b: seq<byte>, x: seq<byte>)
    requires Compare(a, b) < 0
    ensures var r, i := Separator(a, b, AsMeant), Parting(a, b);
      && (r != a <==> i < |a| && i < |b| && exists c: byte :: IsBetween(a[i], c, b[i]))
      && (r != a ==> |r| == i + 1 && Compare(a, r) < 0)
      && (r != a && |x| == |r| && Compare(a, x) < 0 ==> Compare(r, x) <= 0)
  {
    var r, i := Separator(a, b, AsMeant), Parting(a, b);
    PartingBelow(a, b);
    if HasRoom(a, b) {
      assert IsBetween(a[i], a[i] + 1, b[i]);
      assert a + [] == a;
      SeparatorAboveStart(a, b, AsMeant, []);
      CompareIsEquality(a, a);
      if |x| == |r| && Compare(a, x) < 0 {
        LeastAbove(a, i, x);
        assert r == a[..i] + [a[i] + 1];
      }
    }
  }

  lemma PartingBelow(a: seq<byte>, b: seq<byte>)
    requires Compare(a, b) < 0
    ensures var i := Parting(a, b); i < |b| && (i < |a| ==> a[i] < b[i])
  {
    CompareAt(a, b, Parting(a, b));
  }

  /** Raising the byte at `i` and cutting there gives the least string of that size above `a`. */
  lemma LeastAbove(a: seq<byte>, i: nat, x: seq<byte>)
    requires i < |a| && a[i] < 0xff && |x| == i + 1 && Compare(a, x) < 0
    ensures Compare(a[..i] + [a[i] + 1], x) <= 0
  {
    var r, j := a[..i] + [a[i] + 1], Parting(a, x);
    CompareAt(a, x, j);
    if j < i {
      CompareAt(r, x, j);
    } else if x[i] == a[i] + 1 {
      CompareIsEquality(r, x);
      assert r == x;
    } else {
      CompareAt(r, x, i);
    }
  }

  /**
   * As written, it stays below the limit, but is at or above the start only when unchanged or when
   * the byte at the difference is at least its index, and no longer than the start only when
   * unchanged or when that byte is less than the start's size.
   */
  lemma SeparatorAsWritten(a: seq<byte>, b: seq<byte>)
    requires Compare(a, b) < 0
    ensures var r, i := Separator(a, b, AsWritten), Parting(a, b);
      && Compare(r, b) < 0
      && (Compare(a, r) <= 0 <==> (HasRoom(a, b) ==> a[i] >= i))
      && (|r| <= |a| <==> (HasRoom(a, b) ==> a[i] < |a|))
  {
    assert a + [] == a;
    if HasRoom(a, b) {
      SeparatorBelowLimit(a, b, AsWritten);
      SeparatorAboveStart(a, b, AsWritten, []);
    } else {
      CompareIsEquality(a, a);
    }
  }

  /** Both failures happen: a start cut to below itself, and a start that grows. */
  lemma SeparatorAsWrittenFails()
    ensures Compare([9, 9, 0], [9, 9, 5]) < 0 && Compare([9, 9, 0], Separator([9, 9, 0], [9, 9, 5], AsWritten)) > 0
    ensures Compare([102], [104]) < 0 && |Separator([102], [104], AsWritten)| == 103
  {
    var a, b := [9, 9, 0], [9, 9, 5];
    CompareAt(a, b, 2);
    assert Parting(a, b) == 2;
    SeparatorAboveStart(a, b, AsWritten, []);
    assert a + [] == a;
    CompareAt([102], [104], 0);
    assert Parting([102], [104]) == 0;
  }

  /** The first byte that can be raised, or |k| when all are 0xff. */
  function Raisable(k: seq<byte>): (i: nat)
    ensures i <= |k|
    ensures forall j :: 0 <= j < i ==> k[j] == 0xff
    ensures i < |k| ==> k[i] != 0xff
  {
    if k == [] || k[0] != 0xff then 0
    else
      var i := Raisable(k[1..]);
      assert forall j :: 1 <= j < i + 1 ==> k[j] == k[1..][j - 1];
      i + 1
  }

  function Successor(k: seq<byte>): seq<byte> {
    var i := Raisable(k);
    if i < |k| then k[..i] + [k[i] + 1] else k
  }

  method FindShortSuccessor(key: String)
    modifies key
    ensures key.bytes == Successor(old(key.bytes))
  {
    ghost var k := key.bytes;
    var n := |key.bytes|;
    var i := 0;
    while i < n
      invariant 0 <= i <= n && key.bytes == k
      invariant forall j :: 0 <= j < i ==> k[j] == 0xff
    {
      var b := key.bytes[i];
      if b != 0xff {
        assert Raisable(k) == i;
        key.bytes := key.bytes[i := b + 1];
        key.bytes := Resized(key.bytes, i + 1);
        assert key.bytes == k[..i] + [b + 1];
        return;
      }
      i := i + 1;
    }
    assert Raisable(k) == n;
  }

  /** `x` is above every string that starts with `k`. */
  ghost predicate AboveAll(k: seq<byte>, x: seq<byte>) {
    forall y :: Compare(k + y, x) < 0
  }

  /**
   * It is the shortest string above all that start with the key, and the least of its size; a key
   * it leaves alone has no such string.
   */
  lemma SuccessorIsLeast(k: seq<byte>, x: seq<byte>)
    ensures Successor(k) != k ==> AboveAll(k, Successor(k))
    ensures AboveAll(k, x) ==>
              Successor(k) != k && |Successor(k)| <= |x| && (|x| == |Successor(k)| ==> Compare(Successor(k), x) <= 0)
  {
    forall y ensures Successor(k) != k ==> Compare(k + y, Successor(k)) < 0 {
      SuccessorExceeds(k, y);
    }
    if AboveAll(k, x) {
      var i, j := Raisable(k), Parting(k, x);
      assert k + [] == k && Compare(k + [], x) < 0;
      CompareAt(k, x, j);
      if j == |k| {
        ExtensionAbove(k, x);
        assert false;
      }
      assert k[j] < x[j] && j >= i;
      SuccessorExceeds(k, []);
      if |x| == i + 1 { LeastAbove(k, i, x); }
    }
  }

  /** A string that starts with the key is below another that does. */
  lemma ExtensionAbove(k: seq<byte>, x: seq<byte>)
    requires |k| <= |x| && x[..|k|] == k
    ensures !AboveAll(k, x)
  {
    var y := x[|k|..];
    assert k + y == x;
    CompareIsEquality(x, x);
    assert !(Compare(k + y, x) < 0);
  }

  /** A changed successor is above every string that starts with the key; only keys of 0xff bytes have none. */
  lemma SuccessorExceeds(k: seq<byte>, x: seq<byte>)
    ensures |Successor(k)| <= |k|
    ensures Successor(k) == k <==> forall j :: 0 <= j < |k| ==> k[j] == 0xff
    ensures Successor(k) != k ==> Compare(k + x, Successor(k)) < 0
  {
    var r, i := Successor(k), Raisable(k);
    if i < |k| {
      assert r[i] != k[i];
      CompareAt(k + x, r, i);
    }
  }
}
