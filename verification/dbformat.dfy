/** dbformat.h, dbformat.cpp: internal keys, their order, shortening them, and lookup keys. */
module DbFormat {
  import opened Options
  import opened Orders
  import opened Bits
  import opened Bytes
  import opened Coding
  import opened Comparators
  import opened Departures
  import opened Sequences

  const MAX_SEQUENCE: nat := 0xff_ffff_ffff_ffff  // 56 bits

  type Sequence = s: nat | s <= MAX_SEQUENCE

  datatype ValueType = Deletion | Value {
    function Code(): byte {
      if this == Deletion then 0 else 1
    }
  }

  const SEEK_TYPE := Value

  datatype ParsedKey = ParsedKey(userKey: seq<byte>, sequence: Sequence, kind: ValueType)

  function Pack(sequence: Sequence, kind: ValueType): u64 {
    sequence * 256 + kind.Code()
  }

  /** A user key followed by its tag. */
  type InternalKey = k: seq<byte> | |k| >= 8 witness [0, 0, 0, 0, 0, 0, 0, 0]

  function InternalBytes(p: ParsedKey): (k: InternalKey)
    ensures ExtractUserKey(k) == p.userKey && Tag(k) == Pack(p.sequence, p.kind)
  {
    var tag := Pack(p.sequence, p.kind);
    Pow256Of4And8();
    FixedRoundTrip(tag, 8);
    var k := p.userKey + Fixed(tag, 8);
    assert k[|k| - 8..] == Fixed(tag, 8);
    k
  }

  method AppendInternalKey(result: String, key: ParsedKey)
    modifies result
    ensures result.bytes == old(result.bytes) + InternalBytes(key)
  {
    AppendAssociates(result.bytes, key.userKey, Fixed(Pack(key.sequence, key.kind), 8));
    result.Append(key.userKey);
    PutFixed64(result, Pack(key.sequence, key.kind));
  }

  function ExtractUserKey(k: InternalKey): seq<byte> {
    k[..|k| - 8]
  }

  function Tag(k: InternalKey): u64 {
    DecodeFixed64(k[|k| - 8..])
  }

  /** The low byte of the tag, which need not be the code of a value type. */
  function ExtractValueType(k: InternalKey): byte {
    Tag(k) % 256
  }

  function ParseInternalKey(k: seq<byte>): (p: Option<ParsedKey>) {
    if |k| < 8 then None
    else
      var num := Tag(k);
      var c := num % 256;
      if c > 1 then None
      else Some(ParsedKey(k[..|k| - 8], num / 256, if c == 0 then Deletion else Value))
  }

  /** Parsing inverts encoding, so encoding is injective; and what parses is exactly what encoding produces. */
  lemma ParseInvertsEncode(k: seq<byte>, p: ParsedKey)
    ensures ParseInternalKey(k) == Some(p) <==> k == InternalBytes(p)
  {
    if |k| >= 8 {
      assert k == k[..|k| - 8] + k[|k| - 8..];
    }
  }

  /** The byte extracted is a value type's code exactly when the key parses, and then it is its type's. */
  lemma ExtractedTypeDecides(k: InternalKey)
    ensures match ParseInternalKey(k)
      case None => ExtractValueType(k) != Deletion.Code() && ExtractValueType(k) != Value.Code()
      case Some(p) => ExtractValueType(k) == p.kind.Code() && ExtractUserKey(k) == p.userKey
  {
  }

  /**
   * A tag's low byte is 0 for a deletion and 1 for a value, the rest is the sequence, of at most 56
   * bits; and the tag of a seek key at the last sequence is the greatest there is.
   */
  lemma TagsAre(p: ParsedKey)
    ensures Pack(p.sequence, p.kind) % 256 == if p.kind == Deletion then 0 else 1
    ensures Pack(p.sequence, p.kind) / 256 == p.sequence
    ensures SEEK_TAG == 0xffff_ffff_ffff_ff01 && Pack(p.sequence, p.kind) <= SEEK_TAG
  {
  }

  /** `(seq << 8) | t` */
  lemma PackIsOr(sequence: Sequence, kind: ValueType, j: nat)
    requires j == 8
    ensures Or(Shl(sequence, j), kind.Code()) == Pack(sequence, kind)
  {
    Shl7(sequence, 7);
    Shl7(1, 7);
    OrOfDisjoint(kind.Code(), sequence, j);
  }

  // ---------- Order ----------

  /**
   * How equal user keys are ordered by tag. The source compares ascending; its seek keys, which
   * carry the greatest tag, and its reads need descending, newest first. Both are modelled.
   */
  datatype TagOrder = Ascending | Descending

  /** InternalKeyComparator::compare over a given user comparator. */
  function CompareInternal(order: TagOrder, ucmp: (seq<byte>, seq<byte>) -> int, a: InternalKey, b: InternalKey): int {
    var r := ucmp(ExtractUserKey(a), ExtractUserKey(b));
    if r != 0 then r else CompareTags(order, Tag(a), Tag(b))
  }

  function CompareTags(order: TagOrder, x: u64, y: u64): int {
    if x == y then 0
    else if (x < y) == (order == Ascending) then -1
    else 1
  }

  function InternalComparator(order: TagOrder, ucmp: (seq<byte>, seq<byte>) -> int): (InternalKey, InternalKey) -> int {
    (a: InternalKey, b: InternalKey) => CompareInternal(order, ucmp, a, b)
  }

  /** Whatever the user comparator, if it is an order so is the internal one, in either tag order. */
  lemma InternalIsOrder(order: TagOrder, ucmp: (seq<byte>, seq<byte>) -> int)
    requires IsOrder(ucmp)
    ensures IsOrder(InternalComparator(order, ucmp))
  {
    var cmp := InternalComparator(order, ucmp);
    forall a: InternalKey, b: InternalKey
      ensures Apply(cmp, a, a) == 0
      ensures Sign(Apply(cmp, a, b)) == -Sign(Apply(cmp, b, a))
    {
      var x, y := ExtractUserKey(a), ExtractUserKey(b);
      assert Apply(ucmp, x, x) == 0;
      assert Sign(Apply(ucmp, x, y)) == -Sign(Apply(ucmp, y, x));
    }
    forall a: InternalKey, b: InternalKey, c: InternalKey | Apply(cmp, a, b) <= 0 && Apply(cmp, b, c) <= 0
      ensures Apply(cmp, a, c) <= 0
    {
      Transitive(ucmp, ExtractUserKey(a), ExtractUserKey(b), ExtractUserKey(c));
    }
  }

  /** Under the bytewise comparator only identical internal keys compare as equal. */
  lemma InternalEquality(order: TagOrder, a: InternalKey, b: InternalKey)
    ensures CompareInternal(order, Compare, a, b) == 0 <==> a == b
  {
    CompareIsEquality(ExtractUserKey(a), ExtractUserKey(b));
    assert a == ExtractUserKey(a) + a[|a| - 8..];
    assert b == ExtractUserKey(b) + b[|b| - 8..];
  }

  /** A version's place among those of equal user keys: by sequence, a value after a deletion of the same one. */
  lemma TagsOrderVersions(p: ParsedKey, q: ParsedKey)
    ensures Pack(p.sequence, p.kind) < Pack(q.sequence, q.kind) <==>
              p.sequence < q.sequence || (p.sequence == q.sequence && p.kind == Deletion && q.kind == Value)
    ensures Pack(p.sequence, p.kind) == Pack(q.sequence, q.kind) <==> p.sequence == q.sequence && p.kind == q.kind
  {
  }

  // ---------- Shortening ----------

  const SEEK_TAG: u64 := Pack(MAX_SEQUENCE, SEEK_TYPE)

  /** The separator of the user keys, tagged to come first, when it is above the whole start; the start otherwise. */
  ghost function InternalSeparator(start: InternalKey, limit: InternalKey, text: Text): InternalKey {
    var tmp := Separator(ExtractUserKey(start), ExtractUserKey(limit), text);
    if Compare(start, tmp) < 0 then tmp + Fixed(SEEK_TAG, 8) else start
  }

  method FindShortestInternalSeparator(start: String, limit: InternalKey, text: Text, order: TagOrder)
    requires |start.bytes| >= 8
    modifies start
    ensures start.bytes == InternalSeparator(old(start.bytes), limit, text)
  {
    ghost var was: InternalKey := start.bytes;
    var userStart, userLimit := ExtractUserKey(start.bytes), ExtractUserKey(limit);
    var tmp := new String(userStart);
    FindShortestSeparator(tmp, userLimit, text);
    if Compare(start.bytes, tmp.bytes) < 0 {
      PutFixed64(tmp, SEEK_TAG);
      InternalSeparatorBetween(was, limit, text, order);
      assert tmp.bytes == InternalSeparator(was, limit, text);
      assert CompareInternal(order, Compare, start.bytes, tmp.bytes) < 0;
      assert CompareInternal(order, Compare, tmp.bytes, limit) < 0;
      start.bytes := tmp.bytes;
    }
  }

  /**
   * In either tag order and with either resize, the result is the start itself or lies strictly
   * between start and limit. It is changed exactly when the user keys leave room and the resize
   * keeps the raised byte; as meant that is whenever they leave room.
   */
  lemma InternalSeparatorBetween(start: InternalKey, limit: InternalKey, text: Text, order: TagOrder)
    ensures var r := InternalSeparator(start, limit, text);
      if Compare(start, Separator(ExtractUserKey(start), ExtractUserKey(limit), text)) < 0 then
        CompareInternal(order, Compare, start, r) < 0 && CompareInternal(order, Compare, r, limit) < 0
      else r == start
    ensures var us, ul := ExtractUserKey(start), ExtractUserKey(limit);
      InternalSeparator(start, limit, text) != start <==>
        HasRoom(us, ul) && Kept(text, Parting(us, ul), us[Parting(us, ul)]) > Parting(us, ul)
    ensures text == AsMeant ==> |InternalSeparator(start, limit, text)| <= |start|
  {
    var us, ul := ExtractUserKey(start), ExtractUserKey(limit);
    var tail := start[|start| - 8..];
    var tmp := Separator(us, ul, text);
    assert start == us + tail && us == us + [];
    if HasRoom(us, ul) {
      SeparatorAboveStart(us, ul, text, tail);
      SeparatorAboveStart(us, ul, text, []);
      SeparatorBelowLimit(us, ul, text);
      if Compare(start, tmp) < 0 {
        assert ExtractUserKey(InternalSeparator(start, limit, text)) == tmp;
        CompareIsEquality(us, us);
      }
    } else {
      CompareAt(start, tmp, |us|);
    }
  }

  /**
   * A changed separator is the user keys' separator at the last sequence, as a value; so newest
   * first it comes before every version of that user key.
   */
  lemma InternalSeparatorIs(start: InternalKey, limit: InternalKey, text: Text, p: ParsedKey)
    requires InternalSeparator(start, limit, text) != start
    ensures
      var r := InternalSeparator(start, limit, text);
      var u := Separator(ExtractUserKey(start), ExtractUserKey(limit), text);
      && ParseInternalKey(r) == Some(ParsedKey(u, 0xff_ffff_ffff_ffff, Value))
      && (p.userKey == u ==> CompareInternal(Descending, Compare, r, InternalBytes(p)) <= 0)
  {
    TaggedComesFirst(Separator(ExtractUserKey(start), ExtractUserKey(limit), text), p);
  }

  lemma TaggedComesFirst(u: seq<byte>, p: ParsedKey)
    ensures var r := u + Fixed(SEEK_TAG, 8);
      && ParseInternalKey(r) == Some(ParsedKey(u, 0xff_ffff_ffff_ffff, Value))
      && (p.userKey == u ==> CompareInternal(Descending, Compare, r, InternalBytes(p)) <= 0)
  {
    var last := ParsedKey(u, 0xff_ffff_ffff_ffff, Value);
    TagsAre(p);
    TagsAre(last);
    CompareIsEquality(u, u);
    assert u + Fixed(SEEK_TAG, 8) == InternalBytes(last);
    ParseInvertsEncode(InternalBytes(last), last);
  }

  ghost function InternalSuccessor(key: InternalKey): InternalKey {
    var tmp := Successor(ExtractUserKey(key));
    if Compare(ExtractUserKey(key), tmp) < 0 then tmp + Fixed(SEEK_TAG, 8) else key
  }

  method FindShortInternalSuccessor(key: String, order: TagOrder)
    requires |key.bytes| >= 8
    modifies key
    ensures key.bytes == InternalSuccessor(old(key.bytes))
  {
    ghost var was: InternalKey := key.bytes;
    var userKey := ExtractUserKey(key.bytes);
    var tmp := new String(userKey);
    FindShortSuccessor(tmp);
    if Compare(userKey, tmp.bytes) < 0 {
      PutFixed64(tmp, SEEK_TAG);
      InternalSuccessorExceeds(was, order, []);
      assert CompareInternal(order, Compare, key.bytes, tmp.bytes) < 0;
      key.bytes := tmp.bytes;
    }
  }

  /** The result is the key itself, when its user key is all 0xff, or above every key whose user key starts like it. */
  lemma InternalSuccessorExceeds(key: InternalKey, order: TagOrder, x: seq<byte>)
    ensures |InternalSuccessor(key)| <= |key|
    ensures InternalSuccessor(key) == key <==> forall j :: 0 <= j < |key| - 8 ==> key[j] == 0xff
    ensures InternalSuccessor(key) != key ==>
              forall other: InternalKey :: ExtractUserKey(other) == ExtractUserKey(key) + x ==>
                CompareInternal(order, Compare, other, InternalSuccessor(key)) < 0
  {
    var u, r := ExtractUserKey(key), InternalSuccessor(key);
    SuccessorExceeds(u, []);
    SuccessorExceeds(u, x);
    CompareIsEquality(u, u);
    assert u + [] == u;
    if Compare(u, Successor(u)) < 0 {
      assert ExtractUserKey(r) == Successor(u);
      assert Successor(u) != u == ExtractUserKey(key);
    }
  }

  /** A changed successor likewise. */
  lemma InternalSuccessorIs(key: InternalKey, p: ParsedKey)
    requires InternalSuccessor(key) != key
    ensures var r, u := InternalSuccessor(key), Successor(ExtractUserKey(key));
      && ParseInternalKey(r) == Some(ParsedKey(u, 0xff_ffff_ffff_ffff, Value))
      && (p.userKey == u ==> CompareInternal(Descending, Compare, r, InternalBytes(p)) <= 0)
  {
    TaggedComesFirst(Successor(ExtractUserKey(key)), p);
  }

  // ---------- LookupKey ----------

  /** What a lookup of `userKey` at `sequence` searches for. */
  function SeekKey(userKey: seq<byte>, sequence: Sequence): InternalKey {
    InternalBytes(ParsedKey(userKey, sequence, SEEK_TYPE))
  }

  /** A length-prefixed internal key, piece by piece, and its bound. */
  lemma PrefixedPieces(p: ParsedKey)
    ensures Prefixed(InternalBytes(p)) == Varint(|p.userKey| + 8) + p.userKey + Fixed(Pack(p.sequence, p.kind), 8)
    ensures |p.userKey| + 8 < 0x1_0000_0000 ==> |Prefixed(InternalBytes(p))| <= |p.userKey| + 13
  {
    VarintSizes(|p.userKey| + 8);
    AppendAssociates(Varint(|p.userKey| + 8), p.userKey, Fixed(Pack(p.sequence, p.kind), 8));
  }

  /**
   * Fills the front of a buffer with a length-prefixed internal key: what LookupKey and
   * MemTable::add both start with.
   */
  method EncodePrefixedKey(dst: array<byte>, p: ParsedKey) returns (kstart: nat, end: nat)
    requires |p.userKey| + 8 < 0x1_0000_0000
    requires |Prefixed(InternalBytes(p))| <= dst.Length
    modifies dst
    ensures end == |Prefixed(InternalBytes(p))| && kstart == end - |InternalBytes(p)|
    ensures dst[..end] == Prefixed(InternalBytes(p))
  {
    ghost var size, tag := Varint(|p.userKey| + 8), Fixed(Pack(p.sequence, p.kind), 8);
    PrefixedPieces(p);
    kstart := EncodeVarint32(dst, 0, |p.userKey| + 8);
    assert dst[..kstart] == size;
    CopyBytes(dst, kstart, p.userKey);
    end := kstart + |p.userKey|;
    assert dst[..end] == size + p.userKey;
    EncodeFixed64(dst, end, Pack(p.sequence, p.kind));
    end := end + 8;
  }

  class LookupKey {
    const buf: array<byte>
    const kstart: nat
    const end: nat
    ghost const key: seq<byte>
    ghost const at: Sequence

    ghost predicate Valid()
      reads buf
    {
      && |key| + 8 == |SeekKey(key, at)| == end - kstart < 0x1_0000_0000
      && kstart <= end <= buf.Length && buf[kstart..end] == SeekKey(key, at)
      && buf[..end] == Prefixed(SeekKey(key, at))
    }

    /** The encoding fits in the 200 bytes of the object itself or in the size computed for it. */
    constructor (userKey: seq<byte>, s: Sequence)
      requires |userKey| + 8 < 0x1_0000_0000
      ensures Valid() && key == userKey && at == s
      ensures end <= |userKey| + 13 && buf.Length == (if |userKey| + 13 <= 200 then 200 else |userKey| + 13)
      ensures fresh(buf)
    {
      var usize := |userKey|;
      var needed := usize + 13;
      var dst := new byte[if needed <= 200 then 200 else needed];
      var p := ParsedKey(userKey, s, SEEK_TYPE);
      PrefixedPieces(p);
      var k, e := EncodePrefixedKey(dst, p);
      assert dst[k..e] == dst[..e][k..];
      buf, kstart, end := dst, k, e;
      key, at := userKey, s;
    }

    method MemtableKey() returns (s: seq<byte>)
      requires Valid()
      ensures s == Prefixed(SeekKey(key, at))
    {
      s := buf[..end];
    }

    method InternalKeyBytes() returns (s: seq<byte>)
      requires Valid()
      ensures s == SeekKey(key, at)
    {
      s := buf[kstart..end];
    }

    method UserKey() returns (s: seq<byte>)
      requires Valid()
      ensures s == key
    {
      assert key == ExtractUserKey(SeekKey(key, at));
      SliceOfSlice(buf[..], kstart, end, 0, end - 8 - kstart);
      assert buf[kstart..end] == buf[..][kstart..end];
      s := buf[kstart..end - 8];
    }
  }
}
