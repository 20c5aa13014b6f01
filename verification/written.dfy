/**
 * MemTable::add, memtable.cpp:73-89, word for word: a key sized by the value (line 77), prefixed
 * with the size of the whole entry (line 81), and two comparisons where bytes should be copied
 * (lines 82 and 87). Sizes are 64 bits wide; `encodeVarint32` cuts them to 32.
 */
module EntriesAsWritten {
  import opened Options
  import opened Sequences
  import opened Bytes
  import opened Coding
  import opened DbFormat
  import opened MemTables

  /** The size of an entry for a key and a value of these sizes. */
  function EncodedLen(keySize: nat, valueSize: nat): nat {
    |Varint(keySize + 8)| + keySize + 8 + |Varint(valueSize)| + valueSize
  }

  /** encoded_len, lines 77 to 79. */
  function Allocated(valueSize: nat): nat {
    EncodedLen(valueSize, valueSize)
  }

  /** What line 81 writes in front. */
  function Prefix(valueSize: nat): u32 {
    Allocated(valueSize) % 0x1_0000_0000
  }

  /** What lines 81 to 88 lay out, if the two comparisons copied. */
  function Layout(v: Version): seq<byte> {
    Varint(Prefix(|v.value|)) + (InternalBytes(v.key) + Prefixed(v.value))
  }

  /**
   * Memory that was `was` with `a`, `tag` and `b` stored and, after the first and after the last of
   * them, `n` and `m` bytes left as they were.
   */
  ghost predicate IsStored(a: seq<byte>, n: nat, tag: seq<byte>, b: seq<byte>, m: nat, now: seq<byte>, was: seq<byte>) {
    && |now| <= |was| && |a| + n <= |now| && m <= |now|
    && now == a + was[|a|..|a| + n] + tag + b + was[|now| - m..|now|]
  }

  /** Memory that held `x` after the first `at` bytes and `y` before the `end`. */
  ghost predicate Held(was: seq<byte>, at: nat, x: seq<byte>, end: nat, y: seq<byte>) {
    at + |x| <= end <= |was| && |y| <= end && was[at..at + |x|] == x && was[end - |y|..end] == y
  }

  /** What is stored is these five pieces exactly if the other two were there already. */
  lemma StoredIs(a: seq<byte>, x: seq<byte>, tag: seq<byte>, b: seq<byte>, y: seq<byte>, now: seq<byte>, was: seq<byte>)
    requires IsStored(a, |x|, tag, b, |y|, now, was)
    ensures now == a + x + tag + b + y <==> Held(was, |a|, x, |now|, y)
  {
    var x', y', t := was[|a|..|a| + |x|], was[|now| - |y|..|now|], a + x + tag + b + y;
    assert now[|a|..|a| + |x|] == x' && t[|a|..|a| + |x|] == x;
    assert now[|now| - |y|..] == y' && t[|t| - |y|..] == y;
  }

  lemma LayoutIs(v: Version, a: seq<byte>, k: seq<byte>, tag: seq<byte>, b: seq<byte>, value: seq<byte>)
    requires a == Varint(Prefix(|v.value|)) && tag == Fixed(v.Stamp(), 8) && b == Varint(|v.value|)
    requires k == v.key.userKey && value == v.value
    ensures Layout(v) == a + k + tag + b + value
  {
    assert a + ((k + tag) + (b + value)) == a + k + tag + b + value;
  }

  /**
   * The stores: prefix, tag and value size. Where the key and the value belong the buffer keeps
   * what it held, so that the result is the layout exactly if it held them before; and how far the
   * pointer moves does not depend on what was allocated.
   */
  method EncodeEntryAsWritten(buf: array<byte>, v: Version) returns (end: nat)
    requires v.Fits() && |Layout(v)| <= buf.Length
    modifies buf
    ensures end == |Layout(v)| && buf[end..] == old(buf[..])[end..]
    ensures IsStored(Varint(Prefix(|v.value|)), |v.key.userKey|, Fixed(v.Stamp(), 8), Varint(|v.value|), |v.value|,
                     buf[..end], old(buf[..]))
    ensures buf[..end] == Layout(v) <==>
              Held(old(buf[..]), |Varint(Prefix(|v.value|))|, v.key.userKey, end, v.value)
  {
    LayoutSize(v);
    ghost var was, size, tag, len := buf[..], Varint(Prefix(|v.value|)), Fixed(v.Stamp(), 8), Varint(|v.value|);
    var keySize, valueSize := |v.key.userKey|, |v.value|;
    var keySizeLength := VarintLength(valueSize + 8);
    var valueSizeLength := VarintLength(valueSize);
    var encodedLen := keySizeLength + (valueSize + 8) + valueSizeLength + valueSize;
    end := StoreParts(buf, encodedLen % 0x1_0000_0000, keySize, v.Stamp(), valueSize);
    LayoutIs(v, size, v.key.userKey, tag, len, v.value);
    StoredIs(size, v.key.userKey, tag, len, v.value, buf[..end], was);
  }

  /** Lines 81 to 88. */
  method StoreParts(buf: array<byte>, prefix: u32, keySize: nat, tag: u64, valueSize: u32) returns (end: nat)
    requires |Varint(prefix)| + keySize + 8 + |Varint(valueSize)| + valueSize <= buf.Length
    modifies buf
    ensures end == |Varint(prefix)| + keySize + 8 + |Varint(valueSize)| + valueSize
    ensures IsStored(Varint(prefix), keySize, Fixed(tag, 8), Varint(valueSize), valueSize, buf[..end], old(buf[..]))
    ensures buf[end..] == old(buf[..])[end..]
  {
    ghost var was := buf[..];
    var p := StoreKey(buf, prefix, keySize, tag);
    ghost var done, at := buf[..p], p;
    p := EncodeVarint32(buf, p, valueSize);
    Extends(was, was, at, p);
    assert buf[..p] == done + Varint(valueSize) && buf[p..] == was[p..];
    Extends(buf[..], was, p, p + valueSize);
    end := p + valueSize;
  }

  /** The first half of them. */
  method StoreKey(buf: array<byte>, prefix: u32, keySize: nat, tag: u64) returns (end: nat)
    requires |Varint(prefix)| + keySize + 8 <= buf.Length
    modifies buf
    ensures end == |Varint(prefix)| + keySize + 8
    ensures var was, size := old(buf[..]), Varint(prefix);
      && buf[..end] == size + was[|size|..|size| + keySize] + Fixed(tag, 8) && buf[end..] == was[end..]
  {
    ghost var was := buf[..];
    var p := EncodeVarint32(buf, 0, prefix);
    assert buf[..p] == Varint(prefix) && buf[p..] == was[p..];
    Extends(buf[..], was, p, p + keySize);
    p := p + keySize;
    ghost var mid := buf[..];
    assert mid[..p] == Varint(prefix) + was[|Varint(prefix)|..p] && mid[p..] == was[p..];
    Extends(mid, was, p, p + 8);
    label before:
    EncodeFixed64(buf, p, tag);
    end := p + 8;
    assert old@before(buf[..p]) == mid[..p] && buf[..end] == mid[..p] + Fixed(tag, 8);
    assert old@before(buf[end..]) == mid[end..];
  }

  /** Moving on from `i` to `j` over bytes that are still what they were. */
  lemma Extends(now: seq<byte>, was: seq<byte>, i: nat, j: nat)
    requires |now| == |was| && i <= j <= |was| && now[i..] == was[i..]
    ensures now[..j] == now[..i] + was[i..j] && now[j..] == was[j..]
  {
    assert was[j..] == was[i..][j - i..] && now[j..] == now[i..][j - i..];
    assert was[i..j] == was[i..][..j - i] && now[i..j] == now[i..][..j - i];
  }

  // ---------- When that is right ----------

  lemma {:induction false} VarintGrows(a: nat, b: nat)
    requires a <= b
    ensures |Varint(a)| <= |Varint(b)|
  {
    if a >= 128 { VarintGrows(a / 128, b / 128); }
  }

  lemma LayoutSize(v: Version)
    ensures |Layout(v)| == |Varint(Prefix(|v.value|))| + |v.key.userKey| + 8 + |Varint(|v.value|)| + |v.value|
  {
  }

  /** The assertion of line 89, exactly, and when the writes run past what was allocated. */
  lemma LayoutFills(v: Version)
    ensures var keySize, valueSize := |v.key.userKey|, |v.value|;
      var written, meant := |Varint(Prefix(valueSize))| + keySize, |Varint(valueSize + 8)| + valueSize;
      && (|Layout(v)| == Allocated(valueSize) <==> written == meant)
      && (|Layout(v)| > Allocated(valueSize) <==> written > meant)
  {
    LayoutSize(v);
  }

  /** The prefix read back delimits the internal key exactly when it is the internal key's size. */
  lemma PrefixDelimits(v: Version)
    ensures (match ReadPrefixed(Layout(v)) case None => false case Some(f) => f.payload == InternalBytes(v.key)) <==>
              |v.key.userKey| + 8 == Prefix(|v.value|)
  {
    var n, k, rest := Prefix(|v.value|), InternalBytes(v.key), InternalBytes(v.key) + Prefixed(v.value);
    ReadWithPrefix(n, rest);
    assert |k| == |v.key.userKey| + 8 && rest[..|k|] == k;
  }

  lemma ReadWithPrefix(n: u32, rest: seq<byte>)
    ensures ReadPrefixed(Varint(n) + rest) ==
            if n > |rest| then None else Some(Framed(rest[..n], |Varint(n)| + n))
  {
    VarintSizes(n);
    LebOfVarint(n, rest, 5);
    if n <= |rest| { SliceOfAppend(Varint(n), rest, n); }
  }

  /** Numbers from 2^28 up to 2^35 take five bytes. */
  lemma FiveBytes(v: nat)
    requires v < 0x8_0000_0000
    ensures |Varint(v)| <= 5
    ensures |Varint(v)| == 5 <==> v >= 0x1000_0000
  {
    VarintSize(v, 4);
    VarintSize(v, 5);
    UpBy4(0);
    assert Pow128(5) == 128 * Pow128(4);
  }

  const LUCKY_SIZE: nat := 0xFFFF_FFF6

  /**
   * Taken together the two lines are right, filling the allocation and delimiting the key, for one
   * pair of sizes only: a key and a value of 2^32 - 10 bytes each, where the cut to 32 bits makes
   * the prefix come out. In particular never where the allocation is below 2^32 bytes.
   */
  lemma LayoutIsRightOnce(v: Version)
    requires v.Fits()
    ensures |Layout(v)| == Allocated(|v.value|) && |v.key.userKey| + 8 == Prefix(|v.value|) <==>
              |v.key.userKey| == |v.value| == LUCKY_SIZE
    ensures |v.value| == LUCKY_SIZE ==> Allocated(|v.value|) >= 0x1_0000_0000
  {
    LayoutSize(v);
    RightSizes(|v.key.userKey|, |v.value|);
  }

  lemma RightSizes(keySize: nat, valueSize: nat)
    requires keySize + 8 < 0x1_0000_0000 && valueSize < 0x1_0000_0000
    ensures |Varint(Prefix(valueSize))| + keySize == |Varint(valueSize + 8)| + valueSize &&
            keySize + 8 == Prefix(valueSize) <==>
              keySize == valueSize == LUCKY_SIZE
    ensures valueSize == LUCKY_SIZE ==> Allocated(valueSize) >= 0x1_0000_0000
  {
    var n := Allocated(valueSize);
    var q, p := n / 0x1_0000_0000, n % 0x1_0000_0000;
    FiveBytes(valueSize);
    FiveBytes(valueSize + 8);
    FiveBytes(p);
    var a, b, c := |Varint(valueSize + 8)|, |Varint(valueSize)|, |Varint(p)|;
    if c + keySize == a + valueSize && keySize + 8 == p {
      RightSizesOnly(keySize, valueSize, a, b, c, q, p);
    }
    if valueSize == LUCKY_SIZE {
      RightSizesWork(valueSize, a, b, c, q, p);
    }
  }

  lemma RightSizesOnly(k: nat, v: nat, a: nat, b: nat, c: nat, q: nat, p: nat)
    requires v < 0x1_0000_0000 && k + 8 == p < 0x1_0000_0000 && 1 <= a <= 5 && 1 <= b <= 5 && 1 <= c <= 5
    requires (b == 5 <==> v >= 0x1000_0000) && (a == 5 <==> v + 8 >= 0x1000_0000) && (c == 5 <==> p >= 0x1000_0000)
    requires a + v + 8 + b + v == 0x1_0000_0000 * q + p
    requires c + k == a + v
    ensures k == v == LUCKY_SIZE
  {
    assert v + b + c == 0x1_0000_0000 * q;
    assert q == 1;
  }

  lemma RightSizesWork(v: nat, a: nat, b: nat, c: nat, q: nat, p: nat)
    requires v < 0x1_0000_0000 && p < 0x1_0000_0000 && 1 <= a <= 5 && 1 <= b <= 5 && 1 <= c <= 5
    requires (b == 5 <==> v >= 0x1000_0000) && (a == 5 <==> v + 8 >= 0x1000_0000) && (c == 5 <==> p >= 0x1000_0000)
    requires a + v + 8 + b + v == 0x1_0000_0000 * q + p
    requires v == LUCKY_SIZE
    ensures a == c == 5 && v + 8 == p
  {
  }

  lemma FewBytes(v: nat)
    ensures v < 0x80 ==> |Varint(v)| == 1
    ensures 0x80 <= v < 0x4000 ==> |Varint(v)| == 2
  {
  }

  /** A 60-byte key and value overrun what was allocated. */
  lemma SixtyAndSixtyOverrun(v: Version)
    requires |v.key.userKey| == |v.value| == 60
    ensures Allocated(60) == 130 && |Layout(v)| == 131
  {
    FewBytes(60);
    FewBytes(68);
    FewBytes(130);
    LayoutSize(v);
  }

  /** A 2-byte key and no value happen to have the right prefix, in front of too many bytes. */
  lemma TwoAndNoneDelimit(v: Version)
    requires |v.key.userKey| == 2 && v.value == []
    ensures Prefix(0) == 10 && ReadPrefixed(Layout(v)) == Some(Framed(InternalBytes(v.key), 11))
    ensures |Layout(v)| == Allocated(0) + 2
  {
    FewBytes(0);
    FewBytes(8);
    FewBytes(10);
    LayoutSize(v);
    ReadWithPrefix(10, InternalBytes(v.key) + Prefixed(v.value));
    SliceOfAppend([], InternalBytes(v.key) + Prefixed(v.value), 10);
  }

  // ---------- Each line by itself ----------

  /**
   * Line 77 alone, with the prefix of line 81 as meant: the size is right exactly for values as
   * long as the key, short exactly for longer keys.
   */
  lemma SizedByValue(v: Version)
    ensures |Entry(v)| == EncodedLen(|v.key.userKey|, |v.value|)
    ensures Allocated(|v.value|) == |Entry(v)| <==> |v.value| == |v.key.userKey|
    ensures Allocated(|v.value|) < |Entry(v)| <==> |v.value| < |v.key.userKey|
  {
    if |v.value| <= |v.key.userKey| {
      VarintGrows(|v.value| + 8, |v.key.userKey| + 8);
    } else {
      VarintGrows(|v.key.userKey| + 8, |v.value| + 8);
    }
  }

  /** Line 81 alone, with the size of line 77 as meant: reading the entry back always runs past its end. */
  lemma PrefixAsWrittenOverruns(v: Version)
    requires |Entry(v)| < 0x1_0000_0000
    ensures ReadPrefixed(Varint(|Entry(v)|) + (InternalBytes(v.key) + Prefixed(v.value))) == None
  {
    ReadWithPrefix(|Entry(v)|, InternalBytes(v.key) + Prefixed(v.value));
  }
}
