/** slice.h: byte sequences, the objects the code passes to be changed in place, and their order. */
module Bytes {
  import opened Orders

  type byte = b: int | 0 <= b < 256
  type u32 = v: int | 0 <= v < 0x1_0000_0000
  type u64 = v: int | 0 <= v < 0x1_0000_0000_0000_0000

  /** A Slice that a parser advances: the bytes it still covers. */
  class Slice {
    var bytes: seq<byte>

    constructor (bytes: seq<byte>)
      ensures this.bytes == bytes
    {
      this.bytes := bytes;
    }

    method RemovePrefix(n: nat)
      requires n <= |bytes|
      modifies this
      ensures bytes == old(bytes)[n..]
    {
      bytes := bytes[n..];
    }
  }

  /** A std::string that a callee edits. */
  class String {
    var bytes: seq<byte>

    constructor (bytes: seq<byte>)
      ensures this.bytes == bytes
    {
      this.bytes := bytes;
    }

    method Append(s: seq<byte>)
      modifies this
      ensures bytes == old(bytes) + s
    {
      bytes := bytes + s;
    }
  }

  function Min(a: nat, b: nat): nat {
    if a < b then a else b
  }

  /** memcmp on two blocks of the same size. */
  function MemCmp(a: seq<byte>, b: seq<byte>): int
    requires |a| == |b|
  {
    if a == [] then 0
    else if a[0] < b[0] then -1
    else if a[0] > b[0] then 1
    else MemCmp(a[1..], b[1..])
  }

  /** Slice::compare: the common part decides, then the sizes. */
  function Compare(a: seq<byte>, b: seq<byte>): int {
    var m := Min(|a|, |b|);
    var r := MemCmp(a[..m], b[..m]);
    if r != 0 then r
    else if |a| < |b| then -1
    else if |a| > |b| then 1
    else 0
  }

  /** Where two byte strings part: their first difference, or the end of the shorter. */
  ghost predicate PartAt(a: seq<byte>, b: seq<byte>, i: nat) {
    && i <= |a| && i <= |b|
    && (forall k :: 0 <= k < i ==> a[k] == b[k])
    && (i < |a| && i < |b| ==> a[i] != b[i])
  }

  /** Dictionary order: the bytes at the parting decide, or the string that ends there comes first. */
  ghost function OrderAt(a: seq<byte>, b: seq<byte>, i: nat): int {
    if i < |a| && i < |b| then (if a[i] < b[i] then -1 else 1)
    else if i < |b| then -1
    else if i < |a| then 1
    else 0
  }

  lemma PartExists(a: seq<byte>, b: seq<byte>) returns (i: nat)
    ensures PartAt(a, b, i)
  {
    i := 0;
    while i < |a| && i < |b| && a[i] == b[i]
      invariant i <= |a| && i <= |b|
      invariant forall k :: 0 <= k < i ==> a[k] == b[k]
    {
      i := i + 1;
    }
  }

  lemma {:induction false} MemCmpAt(a: seq<byte>, b: seq<byte>, i: nat)
    requires |a| == |b| && PartAt(a, b, i)
    ensures MemCmp(a, b) == OrderAt(a, b, i)
  {
    if i > 0 {
      MemCmpAt(a[1..], b[1..], i - 1);
    }
  }

  /** `Compare` is dictionary order. */
  lemma CompareAt(a: seq<byte>, b: seq<byte>, i: nat)
    requires PartAt(a, b, i)
    ensures Compare(a, b) == OrderAt(a, b, i)
  {
    var m := Min(|a|, |b|);
    MemCmpAt(a[..m], b[..m], i);
  }

  lemma CompareIsEquality(a: seq<byte>, b: seq<byte>)
    ensures Compare(a, b) == 0 <==> a == b
  {
    var i := PartExists(a, b);
    CompareAt(a, b, i);
  }

  lemma CompareFlips(a: seq<byte>, b: seq<byte>)
    ensures Compare(a, b) == -Compare(b, a)
  {
    var i := PartExists(a, b);
    CompareAt(a, b, i);
    assert PartAt(b, a, i);
    CompareAt(b, a, i);
  }

  lemma CompareTransitive(a: seq<byte>, b: seq<byte>, c: seq<byte>)
    requires Compare(a, b) <= 0 && Compare(b, c) <= 0
    ensures Compare(a, c) <= 0
  {
    var i := PartExists(a, b);
    var j := PartExists(b, c);
    CompareAt(a, b, i);
    CompareAt(b, c, j);
    if i == j == |b| {
      CompareAt(a, c, i);
    } else {
      var k := Min(i, j);
      CompareAt(a, c, k);
    }
  }

  lemma CompareIsOrder()
    ensures IsOrder(Compare)
  {
    forall a: seq<byte>, b: seq<byte>
      ensures Apply(Compare, a, a) == 0
      ensures Sign(Apply(Compare, a, b)) == -Sign(Apply(Compare, b, a))
    {
      CompareIsEquality(a, a);
      CompareFlips(a, b);
    }
    forall a: seq<byte>, b: seq<byte>, c: seq<byte> | Apply(Compare, a, b) <= 0 && Apply(Compare, b, c) <= 0
      ensures Apply(Compare, a, c) <= 0
    {
      CompareTransitive(a, b, c);
    }
  }
}
