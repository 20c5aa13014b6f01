/** memtable.h, memtable.cpp: a skip list of encoded entries, read as a multi-version map. */
module MemTables {
  import opened Options
  import opened Orders
  import opened Departures
  import opened Bytes
  import opened Coding
  import opened DbFormat
  import opened SkipLists
  import opened Sequences

  type UserOrder = (seq<byte>, seq<byte>) -> int

  /** One call of `add`. */
  datatype Version = Version(key: ParsedKey, value: seq<byte>) {
    /** The sizes the length prefixes can hold. */
    predicate Fits() {
      |key.userKey| + 8 < 0x1_0000_0000 && |value| < 0x1_0000_0000
    }

    function Stamp(): u64 {
      Pack(key.sequence, key.kind)
    }
  }

  // ---------- Entries ----------

  function Entry(v: Version): seq<byte> {
    Prefixed(InternalBytes(v.key)) + Prefixed(v.value)
  }

  predicate HasKey(s: seq<byte>) {
    match ReadPrefixed(s)
    case None => false
    case Some(f) => |f.payload| >= 8
  }

  /** What the list's keys point at: at least a length-prefixed internal key. */
  type EntryKey = s: seq<byte> | HasKey(s) witness [8, 0, 0, 0, 0, 0, 0, 0, 0]

  function KeyOf(s: EntryKey): InternalKey {
    ReadPrefixed(s).value.payload
  }

  function ValueOf(s: EntryKey): Option<seq<byte>> {
    match ReadPrefixed(s[ReadPrefixed(s).value.size..])
    case None => None
    case Some(f) => Some(f.payload)
  }

  /** An encoded entry decodes to its key and value, and nothing after its end is looked at. */
  lemma EntryDecodes(v: Version, beyond: seq<byte>)
    requires v.Fits()
    ensures var s := Entry(v) + beyond;
      && HasKey(s) && KeyOf(s) == InternalBytes(v.key) && ValueOf(s) == Some(v.value)
      && ParseInternalKey(KeyOf(s)) == Some(v.key)
  {
    var k, w := Prefixed(InternalBytes(v.key)), Prefixed(v.value);
    AppendAssociates(k, w, beyond);
    ReadPrefixedOfPrefixed(InternalBytes(v.key), w + beyond);
    ReadPrefixedOfPrefixed(v.value, beyond);
    assert (k + (w + beyond))[|k|..] == w + beyond;
    ParseInvertsEncode(InternalBytes(v.key), v.key);
  }

  lemma EntryIsKey(v: Version)
    requires v.Fits()
    ensures HasKey(Entry(v)) && KeyOf(Entry(v)) == InternalBytes(v.key) && ValueOf(Entry(v)) == Some(v.value)
  {
    assert Entry(v) + [] == Entry(v);
    EntryDecodes(v, []);
  }

  /** So encoding loses nothing. */
  lemma EntryInjective(v: Version, w: Version)
    requires v.Fits() && w.Fits() && Entry(v) == Entry(w)
    ensures v == w
  {
    EntryIsKey(v);
    EntryIsKey(w);
    ParseInvertsEncode(InternalBytes(v.key), v.key);
    ParseInvertsEncode(InternalBytes(w.key), w.key);
  }

  /** MemTable::KeyComparator: decode both keys, compare those. */
  function EntryComparator(order: TagOrder, ucmp: UserOrder): (EntryKey, EntryKey) -> int {
    (a: EntryKey, b: EntryKey) => CompareInternal(order, ucmp, KeyOf(a), KeyOf(b))
  }

  lemma EntriesAreOrdered(order: TagOrder, ucmp: UserOrder)
    requires IsOrder(ucmp)
    ensures IsOrder(EntryComparator(order, ucmp))
  {
    InternalIsOrder(order, ucmp);
    var cmp, inner := EntryComparator(order, ucmp), InternalComparator(order, ucmp);
    forall a: EntryKey, b: EntryKey ensures Apply(cmp, a, b) == Apply(inner, KeyOf(a), KeyOf(b)) {}
  }

  /** Comparing encoded entries is comparing user keys, then sequence and type. */
  lemma EntriesCompareAsVersions(order: TagOrder, ucmp: UserOrder, v: Version, w: Version)
    requires v.Fits() && w.Fits()
    ensures HasKey(Entry(v)) && HasKey(Entry(w))
    ensures EntryComparator(order, ucmp)(Entry(v), Entry(w)) ==
            var r := ucmp(v.key.userKey, w.key.userKey);
            if r != 0 then r else CompareTags(order, v.Stamp(), w.Stamp())
  {
    EntryIsKey(v);
    EntryIsKey(w);
  }

  /** memtable.cpp's own getLengthPrefixedSlice: at most five bytes of length from `p`, no other bound. */
  method GetLengthPrefixedSliceAt(data: seq<byte>, p: nat) returns (result: seq<byte>, end: nat)
    requires p <= |data| && ReadPrefixed(data[p..]).Some?
    ensures result == ReadPrefixed(data[p..]).value.payload
    ensures end == p + ReadPrefixed(data[p..]).value.size
  {
    var limit := Min(p + 5, |data|);
    ghost var rest := data[p..];
    assert data[p..limit] == rest[..limit - p];
    LebOfTake(rest, 5, limit - p);
    var q, len := GetVarint32Ptr(data, p, limit);
    assert q == Some(p + Leb(rest, 5).value.size);
    SliceOfDrop(data, p, q.value - p, q.value - p + len);
    result := data[q.value..q.value + len];
    end := q.value + len;
  }

  method EncodeKey(scratch: String, target: seq<byte>)
    requires |target| < 0x1_0000_0000
    modifies scratch
    ensures scratch.bytes == Prefixed(target)
  {
    scratch.bytes := [];
    PutVarint32(scratch, |target|);
    scratch.Append(target);
  }

  // ---------- The multi-version map ----------

  ghost predicate SameKey(ucmp: UserOrder, a: seq<byte>, b: seq<byte>) {
    ucmp(a, b) == 0
  }

  /** `v` may be added: no version of its user key has both its sequence and its type. */
  ghost predicate FreshIn(ucmp: UserOrder, log: seq<Version>, v: Version) {
    forall w :: w in log ==> !(SameKey(ucmp, w.key.userKey, v.key.userKey) && w.Stamp() == v.Stamp())
  }

  /** The versions of a user key that a snapshot shows. */
  ghost predicate Visible(ucmp: UserOrder, key: seq<byte>, snapshot: Sequence, v: Version) {
    SameKey(ucmp, v.key.userKey, key) && v.key.sequence <= snapshot
  }

  ghost predicate IsNewest(ucmp: UserOrder, log: seq<Version>, key: seq<byte>, snapshot: Sequence, v: Version) {
    && v in log && Visible(ucmp, key, snapshot, v)
    && forall w :: w in log && Visible(ucmp, key, snapshot, w) ==> w == v || w.Stamp() < v.Stamp()
  }

  datatype Answer = Missing | Deleted | Found(value: seq<byte>)

  function AnswerOf(v: Version): Answer {
    match v.key.kind
    case Value => Found(v.value)
    case Deletion => Deleted
  }

  /** A snapshot read of the map: the newest visible version decides. */
  ghost function ReadAt(ucmp: UserOrder, log: seq<Version>, key: seq<byte>, snapshot: Sequence): Answer {
    if exists v :: IsNewest(ucmp, log, key, snapshot, v) then
      var v :| IsNewest(ucmp, log, key, snapshot, v);
      AnswerOf(v)
    else Missing
  }

  /** No two versions of a user key agree in sequence and type: what `FreshIn` keeps true of the log. */
  ghost predicate Slots(ucmp: UserOrder, log: seq<Version>) {
    forall i, j :: 0 <= i < j < |log| ==>
      !(SameKey(ucmp, log[i].key.userKey, log[j].key.userKey) && log[i].Stamp() == log[j].Stamp())
  }

  // ---------- What a seek finds ----------

  /** Versions of `key` from the seek key on, in the given order of tags. */
  ghost predicate FromSeek(order: TagOrder, ucmp: UserOrder, key: seq<byte>, snapshot: Sequence, v: Version) {
    SameKey(ucmp, v.key.userKey, key) && CompareTags(order, v.Stamp(), Pack(snapshot, SEEK_TYPE)) >= 0
  }

  ghost predicate Picks(order: TagOrder, ucmp: UserOrder, log: seq<Version>, key: seq<byte>,
      snapshot: Sequence, v: Version) {
    && v in log && FromSeek(order, ucmp, key, snapshot, v)
    && forall w :: w in log && FromSeek(order, ucmp, key, snapshot, w) ==>
         w == v || CompareTags(order, v.Stamp(), w.Stamp()) < 0
  }

  lemma PickExists(order: TagOrder, ucmp: UserOrder, log: seq<Version>, key: seq<byte>, snapshot: Sequence,
      some: Version)
    returns (v: Version)
    requires IsOrder(ucmp) && Slots(ucmp, log)
    requires some in log && FromSeek(order, ucmp, key, snapshot, some)
    ensures Picks(order, ucmp, log, key, snapshot, v)
  {
    v := some;
    var n := 0;
    while n < |log|
      invariant 0 <= n <= |log|
      invariant v in log && FromSeek(order, ucmp, key, snapshot, v)
      invariant forall i :: 0 <= i < n && FromSeek(order, ucmp, key, snapshot, log[i]) ==>
        log[i] == v || CompareTags(order, v.Stamp(), log[i].Stamp()) < 0
    {
      var w := log[n];
      if FromSeek(order, ucmp, key, snapshot, w) && w != v {
        SlotsDiffer(order, ucmp, log, key, snapshot, v, w);
        if CompareTags(order, w.Stamp(), v.Stamp()) < 0 {
          v := w;
        }
      }
      n := n + 1;
    }
  }

  lemma SlotsDiffer(order: TagOrder, ucmp: UserOrder, log: seq<Version>, key: seq<byte>, snapshot: Sequence,
      v: Version, w: Version)
    requires IsOrder(ucmp) && Slots(ucmp, log) && v in log && w in log && v != w
    requires SameKey(ucmp, v.key.userKey, key) && SameKey(ucmp, w.key.userKey, key)
    ensures v.Stamp() != w.Stamp()
  {
    var i, j :| 0 <= i < |log| && 0 <= j < |log| && log[i] == v && log[j] == w;
    var a, b := if i < j then v else w, if i < j then w else v;
    Transitive(ucmp, key, b.key.userKey, key);
    Transitive(ucmp, a.key.userKey, key, b.key.userKey);
    assert SameKey(ucmp, a.key.userKey, b.key.userKey);
  }

  /** Seeking newest first is reading the snapshot. */
  lemma DescendingPicksNewest(ucmp: UserOrder, log: seq<Version>, key: seq<byte>, snapshot: Sequence, v: Version)
    ensures Picks(Descending, ucmp, log, key, snapshot, v) <==> IsNewest(ucmp, log, key, snapshot, v)
  {
    forall w: Version
      ensures FromSeek(Descending, ucmp, key, snapshot, w) <==> Visible(ucmp, key, snapshot, w)
    {
      TagsOrderVersions(w.key, ParsedKey(key, snapshot, SEEK_TYPE));
    }
  }

  /**
   * A read misses exactly when the snapshot shows no version of the key; otherwise it finds the
   * value of the newest one, or that the newest one is a deletion.
   */
  lemma ReadIsOfNewest(ucmp: UserOrder, log: seq<Version>, key: seq<byte>, snapshot: Sequence)
    requires IsOrder(ucmp) && Slots(ucmp, log)
    ensures ReadAt(ucmp, log, key, snapshot) == Missing <==> forall v :: v in log ==> !Visible(ucmp, key, snapshot, v)
    ensures forall v :: IsNewest(ucmp, log, key, snapshot, v) ==>
              ReadAt(ucmp, log, key, snapshot) == if v.key.kind == Value then Found(v.value) else Deleted
  {
    if v :| v in log && Visible(ucmp, key, snapshot, v) {
      TagsOrderVersions(v.key, ParsedKey(key, snapshot, SEEK_TYPE));
      var n := PickExists(Descending, ucmp, log, key, snapshot, v);
      DescendingPicksNewest(ucmp, log, key, snapshot, n);
    }
  }

  /**
   * With tags ascending, as the source has them, a seek picks the version the snapshot shows
   * exactly when the key has no version at all or has a value written at that very sequence.
   */
  lemma AscendingPicksNewest(ucmp: UserOrder, log: seq<Version>, key: seq<byte>, snapshot: Sequence)
    requires IsOrder(ucmp) && Slots(ucmp, log)
    ensures (forall v :: Picks(Ascending, ucmp, log, key, snapshot, v) <==> IsNewest(ucmp, log, key, snapshot, v)) <==>
            || (forall v :: v in log ==> !SameKey(ucmp, v.key.userKey, key))
            || (exists v :: v in log && SameKey(ucmp, v.key.userKey, key)
                            && v.key.sequence == snapshot && v.key.kind == Value)
  {
    forall v: Version
      ensures Visible(ucmp, key, snapshot, v) <==>
                SameKey(ucmp, v.key.userKey, key) && v.Stamp() <= Pack(snapshot, SEEK_TYPE)
      ensures v.Stamp() == Pack(snapshot, SEEK_TYPE) <==> v.key.sequence == snapshot && v.key.kind == Value
    {
      TagsOrderVersions(v.key, ParsedKey(key, snapshot, SEEK_TYPE));
    }
    if exact :| exact in log && SameKey(ucmp, exact.key.userKey, key) && exact.Stamp() == Pack(snapshot, SEEK_TYPE) {
      forall w | w in log && SameKey(ucmp, w.key.userKey, key) && w != exact
        ensures w.Stamp() != exact.Stamp()
      {
        SlotsDiffer(Ascending, ucmp, log, key, snapshot, exact, w);
      }
    } else if w :| w in log && SameKey(ucmp, w.key.userKey, key) {
      if w.Stamp() <= Pack(snapshot, SEEK_TYPE) {
        var n := PickExists(Descending, ucmp, log, key, snapshot, w);
        DescendingPicksNewest(ucmp, log, key, snapshot, n);
        assert !Picks(Ascending, ucmp, log, key, snapshot, n);
      } else {
        var o := PickExists(Ascending, ucmp, log, key, snapshot, w);
        assert !IsNewest(ucmp, log, key, snapshot, o);
      }
    }
  }

  /** The smallest case it gets wrong: one value, read later. */
  lemma AscendingMissesOlderValues(key: seq<byte>, value: seq<byte>)
    ensures var log := [Version(ParsedKey(key, 1, Value), value)];
      && ReadAt(Compare, log, key, 2) == Found(value)
      && forall v :: !Picks(Ascending, Compare, log, key, 2, v)
  {
    var v := Version(ParsedKey(key, 1, Value), value);
    var log := [v];
    CompareIsEquality(key, key);
    assert v in log && IsNewest(Compare, log, key, 2, v);
  }

  // ---------- The table ----------

  /** The list's keys are the encodings of the versions added, no more and no fewer. */
  ghost predicate Holds(ks: seq<EntryKey>, log: seq<Version>) {
    && (forall v :: v in log ==> v.Fits() && Entry(v) in ks)
    && (forall k :: k in ks ==> exists v :: v in log && Entry(v) == k)
  }

  lemma HoldsOneMore(ks: seq<EntryKey>, log: seq<Version>, r: nat, e: EntryKey, v: Version)
    requires Holds(ks, log) && r <= |ks| && v.Fits() && Entry(v) == e
    ensures Holds(InsertAt(ks, r, e), log + [v])
  {
    var ks' := InsertAt(ks, r, e);
    forall w | w in log + [v] ensures w.Fits() && Entry(w) in ks' {
      InsertAtMembers(ks, r, e, Entry(w));
    }
    forall k | k in ks' ensures exists w :: w in log + [v] && Entry(w) == k {
      InsertAtMembers(ks, r, e, k);
      var w :| (w in log || w == v) && Entry(w) == k;
      assert w in log + [v];
    }
  }

  lemma SlotsOneMore(ucmp: UserOrder, log: seq<Version>, v: Version)
    requires Slots(ucmp, log) && FreshIn(ucmp, log, v)
    ensures Slots(ucmp, log + [v])
  {
  }

  lemma VersionAt(ks: seq<EntryKey>, log: seq<Version>, i: nat) returns (v: Version)
    requires Holds(ks, log) && i < |ks|
    ensures v in log && v.Fits() && Entry(v) == ks[i]
  {
    assert ks[i] in ks;
    v :| v in log && Entry(v) == ks[i];
  }

  lemma FreshIsAbsent(order: TagOrder, ucmp: UserOrder, ks: seq<EntryKey>, log: seq<Version>, v: Version)
    requires Holds(ks, log) && v.Fits() && FreshIn(ucmp, log, v)
    ensures HasKey(Entry(v)) && Absent<EntryKey>(EntryComparator(order, ucmp), ks, Entry(v))
  {
    EntryIsKey(v);
    forall k | k in ks ensures EntryComparator(order, ucmp)(k, Entry(v)) != 0 {
      var w :| w in log && Entry(w) == k;
      EntriesCompareAsVersions(order, ucmp, w, v);
    }
  }

  /** What `get` searches for is an entry key without a value. */
  lemma SeekIsKey(key: seq<byte>, snapshot: Sequence)
    requires |key| + 8 < 0x1_0000_0000
    ensures var k := Prefixed(SeekKey(key, snapshot)); HasKey(k) && KeyOf(k) == SeekKey(key, snapshot)
  {
    var k := Prefixed(SeekKey(key, snapshot));
    assert k + [] == k;
    ReadPrefixedOfPrefixed(SeekKey(key, snapshot), []);
  }

  ghost function SeekRank(order: TagOrder, ucmp: UserOrder, ks: seq<EntryKey>, key: seq<byte>,
      snapshot: Sequence): (r: nat)
    requires |key| + 8 < 0x1_0000_0000
    ensures r <= |ks|
  {
    SeekIsKey(key, snapshot);
    Rank<EntryKey>(EntryComparator(order, ucmp), ks, Prefixed(SeekKey(key, snapshot)))
  }

  /** How a version compares with the seek key. */
  lemma CompareWithSeek(order: TagOrder, ucmp: UserOrder, e: EntryKey, key: seq<byte>, snapshot: Sequence)
    requires |key| + 8 < 0x1_0000_0000
    ensures HasKey(Prefixed(SeekKey(key, snapshot)))
    ensures EntryComparator(order, ucmp)(e, Prefixed(SeekKey(key, snapshot))) ==
            var r := ucmp(ExtractUserKey(KeyOf(e)), key);
            if r != 0 then r else CompareTags(order, Tag(KeyOf(e)), Pack(snapshot, SEEK_TYPE))
  {
    SeekIsKey(key, snapshot);
  }

  /**
   * A version from the seek key on sits at the seek key's rank or after it, and has the user key of
   * the entry at the rank.
   */
  lemma RankBounds(order: TagOrder, ucmp: UserOrder, ks: seq<EntryKey>, key: seq<byte>, snapshot: Sequence, w: Version)
    requires IsOrder(ucmp) && |key| + 8 < 0x1_0000_0000
    requires StrictlySorted(EntryComparator(order, ucmp), ks)
    requires w.Fits() && Entry(w) in ks && FromSeek(order, ucmp, key, snapshot, w)
    ensures HasKey(Entry(w))
    ensures var r := SeekRank(order, ucmp, ks, key, snapshot);
      && r < |ks| && SameKey(ucmp, ExtractUserKey(KeyOf(ks[r])), key)
      && (ks[r] == Entry(w) || EntryComparator(order, ucmp)(ks[r], Entry(w)) < 0)
  {
    var cmp := EntryComparator(order, ucmp);
    EntryIsKey(w);
    var e: EntryKey := Entry(w);
    var r := SeekRank(order, ucmp, ks, key, snapshot);
    var i :| 0 <= i < |ks| && ks[i] == e;
    CompareWithSeek(order, ucmp, e, key, snapshot);
    assert i >= r;
    if i > r {
      assert Apply(cmp, ks[r], e) < 0;
      CompareWithSeek(order, ucmp, ks[r], key, snapshot);
      var a, b := ExtractUserKey(KeyOf(ks[r])), w.key.userKey;
      assert ucmp(a, b) <= 0 && ucmp(a, key) >= 0;
      Transitive(ucmp, a, b, key);
    }
  }

  /**
   * Of a sorted list of entries, the one at the seek key's rank is the version picked, if its user
   * key matches; otherwise there is none.
   */
  lemma RankPicks(order: TagOrder, ucmp: UserOrder, ks: seq<EntryKey>, log: seq<Version>, key: seq<byte>,
      snapshot: Sequence)
    requires IsOrder(ucmp) && |key| + 8 < 0x1_0000_0000
    requires Holds(ks, log) && StrictlySorted(EntryComparator(order, ucmp), ks)
    ensures var r := SeekRank(order, ucmp, ks, key, snapshot);
      if r < |ks| && SameKey(ucmp, ExtractUserKey(KeyOf(ks[r])), key) then
        forall v :: v in log && Entry(v) == ks[r] ==> Picks(order, ucmp, log, key, snapshot, v)
      else
        forall v :: v in log ==> !FromSeek(order, ucmp, key, snapshot, v)
  {
    var r := SeekRank(order, ucmp, ks, key, snapshot);
    forall w | w in log && FromSeek(order, ucmp, key, snapshot, w)
      ensures r < |ks| && SameKey(ucmp, ExtractUserKey(KeyOf(ks[r])), key)
    {
      RankBounds(order, ucmp, ks, key, snapshot, w);
    }
    if r < |ks| && SameKey(ucmp, ExtractUserKey(KeyOf(ks[r])), key) {
      forall v | v in log && Entry(v) == ks[r] ensures Picks(order, ucmp, log, key, snapshot, v) {
        EntryIsKey(v);
        CompareWithSeek(order, ucmp, ks[r], key, snapshot);
        forall w | w in log && FromSeek(order, ucmp, key, snapshot, w) && w != v
          ensures CompareTags(order, v.Stamp(), w.Stamp()) < 0
        {
          RankBounds(order, ucmp, ks, key, snapshot, w);
          if Entry(w) == Entry(v) { EntryInjective(v, w); }
          EntriesCompareAsVersions(order, ucmp, v, w);
          Transitive(ucmp, key, w.key.userKey, key);
          Transitive(ucmp, v.key.userKey, key, w.key.userKey);
        }
      }
    }
  }

  /** The answer a seek in the given tag order leads to. */
  ghost function PickedAt(order: TagOrder, ucmp: UserOrder, log: seq<Version>, key: seq<byte>,
      snapshot: Sequence): Answer {
    if exists v :: Picks(order, ucmp, log, key, snapshot, v) then
      var v :| Picks(order, ucmp, log, key, snapshot, v);
      AnswerOf(v)
    else Missing
  }

  /** What is picked is read: its value, or that it is a deletion. */
  lemma PickIsUnique(order: TagOrder, ucmp: UserOrder, log: seq<Version>, key: seq<byte>, snapshot: Sequence,
      v: Version)
    requires Picks(order, ucmp, log, key, snapshot, v)
    ensures PickedAt(order, ucmp, log, key, snapshot) == if v.key.kind == Value then Found(v.value) else Deleted
  {
  }

  lemma PickedDescendingIsRead(ucmp: UserOrder, log: seq<Version>, key: seq<byte>, snapshot: Sequence)
    ensures PickedAt(Descending, ucmp, log, key, snapshot) == ReadAt(ucmp, log, key, snapshot)
  {
    forall v: Version
      ensures Picks(Descending, ucmp, log, key, snapshot, v) <==> IsNewest(ucmp, log, key, snapshot, v)
    {
      DescendingPicksNewest(ucmp, log, key, snapshot, v);
    }
    if v :| Picks(Descending, ucmp, log, key, snapshot, v) {
      PickIsUnique(Descending, ucmp, log, key, snapshot, v);
    }
  }

  /** The entry at the seek key's rank decides the answer: its version's, if the user key matches, and a miss if not. */
  lemma EntryDecides(order: TagOrder, ucmp: UserOrder, ks: seq<EntryKey>, log: seq<Version>, key: seq<byte>,
      snapshot: Sequence, v: Version)
    requires IsOrder(ucmp) && |key| + 8 < 0x1_0000_0000
    requires Holds(ks, log) && StrictlySorted(EntryComparator(order, ucmp), ks)
    requires var r := SeekRank(order, ucmp, ks, key, snapshot); r < |ks| && v in log && Entry(v) == ks[r]
    ensures v.Fits() && HasKey(Entry(v))
    ensures PickedAt(order, ucmp, log, key, snapshot) ==
            if SameKey(ucmp, ExtractUserKey(KeyOf(Entry(v))), key) then AnswerOf(v) else Missing
  {
    RankPicks(order, ucmp, ks, log, key, snapshot);
    if SameKey(ucmp, ExtractUserKey(KeyOf(Entry(v))), key) {
      PickIsUnique(order, ucmp, log, key, snapshot, v);
    }
  }

  lemma NoEntryDecides(order: TagOrder, ucmp: UserOrder, ks: seq<EntryKey>, log: seq<Version>, key: seq<byte>,
      snapshot: Sequence)
    requires IsOrder(ucmp) && |key| + 8 < 0x1_0000_0000
    requires Holds(ks, log) && StrictlySorted(EntryComparator(order, ucmp), ks)
    requires SeekRank(order, ucmp, ks, key, snapshot) == |ks|
    ensures PickedAt(order, ucmp, log, key, snapshot) == Missing
  {
    RankPicks(order, ucmp, ks, log, key, snapshot);
  }

  // ---------- Ascending reads ----------

  /** The version of `key` written soonest after the snapshot. */
  ghost predicate IsOldestAbove(ucmp: UserOrder, log: seq<Version>, key: seq<byte>, snapshot: Sequence, v: Version) {
    && v in log && SameKey(ucmp, v.key.userKey, key) && v.key.sequence > snapshot
    && forall w :: w in log && SameKey(ucmp, w.key.userKey, key) && w.key.sequence > snapshot ==>
         w == v || v.Stamp() < w.Stamp()
  }

  /** A value of `key` was written at the snapshot itself. */
  ghost predicate IsExact(ucmp: UserOrder, log: seq<Version>, key: seq<byte>, snapshot: Sequence, v: Version) {
    v in log && SameKey(ucmp, v.key.userKey, key) && v.key.sequence == snapshot && v.key.kind == Value
  }

  /**
   * What a log must be like for an ascending read to give the right answer: no version of the key,
   * or a value written at the snapshot, or versions on both sides of it that say the same.
   */
  ghost predicate AscendingAgrees(ucmp: UserOrder, log: seq<Version>, key: seq<byte>, snapshot: Sequence) {
    || (forall v :: v in log ==> !SameKey(ucmp, v.key.userKey, key))
    || (exists v :: IsExact(ucmp, log, key, snapshot, v))
    || (exists n, o ::
          && IsNewest(ucmp, log, key, snapshot, n) && IsOldestAbove(ucmp, log, key, snapshot, o)
          && AnswerOf(n) == AnswerOf(o))
  }

  /** With a value at the snapshot both tag orders pick that. */
  lemma ExactIsPicked(order: TagOrder, ucmp: UserOrder, log: seq<Version>, key: seq<byte>, snapshot: Sequence,
      v: Version)
    requires IsOrder(ucmp) && Slots(ucmp, log) && IsExact(ucmp, log, key, snapshot, v)
    ensures Picks(order, ucmp, log, key, snapshot, v)
  {
    forall w | w in log && FromSeek(order, ucmp, key, snapshot, w) && w != v
      ensures CompareTags(order, v.Stamp(), w.Stamp()) < 0
    {
      SlotsDiffer(order, ucmp, log, key, snapshot, v, w);
    }
  }

  /** Without one, ascending picks the oldest version above the snapshot. */
  lemma AscendingPicksOldestAbove(ucmp: UserOrder, log: seq<Version>, key: seq<byte>, snapshot: Sequence, v: Version)
    requires forall w :: !IsExact(ucmp, log, key, snapshot, w)
    ensures Picks(Ascending, ucmp, log, key, snapshot, v) <==> IsOldestAbove(ucmp, log, key, snapshot, v)
  {
    forall w: Version | w in log
      ensures FromSeek(Ascending, ucmp, key, snapshot, w) <==>
                SameKey(ucmp, w.key.userKey, key) && w.key.sequence > snapshot
    {
      TagsOrderVersions(w.key, ParsedKey(key, snapshot, SEEK_TYPE));
      assert !IsExact(ucmp, log, key, snapshot, w);
    }
  }

  /** The answer of an ascending read is right exactly then. */
  lemma AscendingReads(ucmp: UserOrder, log: seq<Version>, key: seq<byte>, snapshot: Sequence)
    requires IsOrder(ucmp) && Slots(ucmp, log)
    ensures PickedAt(Ascending, ucmp, log, key, snapshot) == ReadAt(ucmp, log, key, snapshot) <==>
              AscendingAgrees(ucmp, log, key, snapshot)
  {
    ReadIsOfNewest(ucmp, log, key, snapshot);
    if v :| IsExact(ucmp, log, key, snapshot, v) {
      ExactIsPicked(Ascending, ucmp, log, key, snapshot, v);
      ExactIsPicked(Descending, ucmp, log, key, snapshot, v);
      DescendingPicksNewest(ucmp, log, key, snapshot, v);
      PickIsUnique(Ascending, ucmp, log, key, snapshot, v);
    } else {
      AscendingReadsOtherwise(ucmp, log, key, snapshot);
    }
  }

  lemma AscendingReadsOtherwise(ucmp: UserOrder, log: seq<Version>, key: seq<byte>, snapshot: Sequence)
    requires IsOrder(ucmp) && Slots(ucmp, log)
    requires forall v :: !IsExact(ucmp, log, key, snapshot, v)
    ensures PickedAt(Ascending, ucmp, log, key, snapshot) == ReadAt(ucmp, log, key, snapshot) <==>
              AscendingAgrees(ucmp, log, key, snapshot)
  {
    ReadIsOfNewest(ucmp, log, key, snapshot);
    forall v: Version
      ensures Picks(Ascending, ucmp, log, key, snapshot, v) <==> IsOldestAbove(ucmp, log, key, snapshot, v)
    {
      AscendingPicksOldestAbove(ucmp, log, key, snapshot, v);
    }
    if n :| n in log && Visible(ucmp, key, snapshot, n) {
      NewestExists(ucmp, log, key, snapshot, n);
    }
    if o :| o in log && SameKey(ucmp, o.key.userKey, key) && o.key.sequence > snapshot {
      TagsOrderVersions(o.key, ParsedKey(key, snapshot, SEEK_TYPE));
      var pick := PickExists(Ascending, ucmp, log, key, snapshot, o);
      PickIsUnique(Ascending, ucmp, log, key, snapshot, pick);
    }
  }

  lemma NewestExists(ucmp: UserOrder, log: seq<Version>, key: seq<byte>, snapshot: Sequence, v: Version)
    requires IsOrder(ucmp) && Slots(ucmp, log) && v in log && Visible(ucmp, key, snapshot, v)
    ensures exists n :: IsNewest(ucmp, log, key, snapshot, n)
  {
    TagsOrderVersions(v.key, ParsedKey(key, snapshot, SEEK_TYPE));
    var n := PickExists(Descending, ucmp, log, key, snapshot, v);
    DescendingPicksNewest(ucmp, log, key, snapshot, n);
  }

  // ---------- Reads as line 104 is written ----------

  /** How a version compares with what `get` searches for. */
  ghost function CompareToSeek(order: TagOrder, ucmp: UserOrder, key: seq<byte>, snapshot: Sequence, v: Version): int {
    CompareInternal(order, ucmp, InternalBytes(v.key), SeekKey(key, snapshot))
  }

  /** The seek stops at `v`: the first version of any key, in the table's order, at or after the seek key. */
  ghost predicate StopsAt(order: TagOrder, ucmp: UserOrder, log: seq<Version>, key: seq<byte>,
      snapshot: Sequence, v: Version) {
    && v in log && CompareToSeek(order, ucmp, key, snapshot, v) >= 0
    && forall w :: w in log && CompareToSeek(order, ucmp, key, snapshot, w) >= 0 ==>
         w == v || CompareInternal(order, ucmp, InternalBytes(v.key), InternalBytes(w.key)) < 0
  }

  /** What the whole key of the version the seek stops at, compared with the user key, makes of the read. */
  ghost function WholeKeyAnswer(order: TagOrder, ucmp: UserOrder, log: seq<Version>, key: seq<byte>,
      snapshot: Sequence): Answer {
    if exists v :: StopsAt(order, ucmp, log, key, snapshot, v) then
      var v :| StopsAt(order, ucmp, log, key, snapshot, v);
      if ucmp(InternalBytes(v.key), key) == 0 then AnswerOf(v) else Missing
    else Missing
  }

  lemma StopIsUnique(order: TagOrder, ucmp: UserOrder, log: seq<Version>, key: seq<byte>, snapshot: Sequence,
      v: Version)
    requires IsOrder(ucmp) && StopsAt(order, ucmp, log, key, snapshot, v)
    ensures WholeKeyAnswer(order, ucmp, log, key, snapshot) ==
            if ucmp(InternalBytes(v.key), key) == 0 then AnswerOf(v) else Missing
    ensures forall w :: StopsAt(order, ucmp, log, key, snapshot, w) ==> w == v
  {
    InternalIsOrder(order, ucmp);
    var cmp := InternalComparator(order, ucmp);
    forall w | StopsAt(order, ucmp, log, key, snapshot, w) ensures w == v {
      assert Sign(Apply(cmp, InternalBytes(v.key), InternalBytes(w.key))) ==
        -Sign(Apply(cmp, InternalBytes(w.key), InternalBytes(v.key)));
    }
  }

  /** A log with a version at or after the seek key has a first one. */
  lemma StopExists(order: TagOrder, ucmp: UserOrder, log: seq<Version>, key: seq<byte>, snapshot: Sequence,
      some: Version)
    returns (v: Version)
    requires IsOrder(ucmp) && Slots(ucmp, log)
    requires some in log && CompareToSeek(order, ucmp, key, snapshot, some) >= 0
    ensures StopsAt(order, ucmp, log, key, snapshot, v)
  {
    v := some;
    var n := 0;
    while n < |log|
      invariant 0 <= n <= |log|
      invariant v in log && CompareToSeek(order, ucmp, key, snapshot, v) >= 0
      invariant forall i :: 0 <= i < n && CompareToSeek(order, ucmp, key, snapshot, log[i]) >= 0 ==>
        log[i] == v || CompareInternal(order, ucmp, InternalBytes(v.key), InternalBytes(log[i].key)) < 0
    {
      var w := log[n];
      if w != v { VersionsDiffer(order, ucmp, log, v, w); }
      if CompareInternal(order, ucmp, InternalBytes(w.key), InternalBytes(v.key)) < 0 {
        if CompareToSeek(order, ucmp, key, snapshot, w) >= 0 {
          forall i | 0 <= i < n && CompareToSeek(order, ucmp, key, snapshot, log[i]) >= 0
            ensures CompareInternal(order, ucmp, InternalBytes(w.key), InternalBytes(log[i].key)) < 0
          {
            VersionsTransitive(order, ucmp, w, v, log[i]);
          }
          v := w;
        }
      }
      n := n + 1;
    }
  }

  /** Different versions of a log never compare as equal, and the one that is first is so both ways. */
  lemma VersionsDiffer(order: TagOrder, ucmp: UserOrder, log: seq<Version>, v: Version, w: Version)
    requires IsOrder(ucmp) && Slots(ucmp, log) && v in log && w in log && v != w
    ensures CompareInternal(order, ucmp, InternalBytes(v.key), InternalBytes(w.key)) < 0 <==>
            !(CompareInternal(order, ucmp, InternalBytes(w.key), InternalBytes(v.key)) < 0)
  {
    var a, b := v.key.userKey, w.key.userKey;
    assert Sign(Apply(ucmp, a, b)) == -Sign(Apply(ucmp, b, a));
    if ucmp(a, b) == 0 {
      assert Apply(ucmp, b, b) == 0;
      SlotsDiffer(order, ucmp, log, b, 0, v, w);
    }
  }

  lemma VersionsTransitive(order: TagOrder, ucmp: UserOrder, u: Version, v: Version, w: Version)
    requires IsOrder(ucmp)
    requires CompareInternal(order, ucmp, InternalBytes(u.key), InternalBytes(v.key)) < 0
    requires v == w || CompareInternal(order, ucmp, InternalBytes(v.key), InternalBytes(w.key)) < 0
    ensures CompareInternal(order, ucmp, InternalBytes(u.key), InternalBytes(w.key)) < 0
  {
    InternalIsOrder(order, ucmp);
    Transitive(InternalComparator(order, ucmp), InternalBytes(u.key), InternalBytes(v.key), InternalBytes(w.key));
  }

  /** What a read that compares user keys makes of the version the seek stops at. */
  lemma StopPicks(order: TagOrder, ucmp: UserOrder, log: seq<Version>, key: seq<byte>, snapshot: Sequence, v: Version)
    requires IsOrder(ucmp) && StopsAt(order, ucmp, log, key, snapshot, v)
    ensures PickedAt(order, ucmp, log, key, snapshot) ==
            if SameKey(ucmp, v.key.userKey, key) then AnswerOf(v) else Missing
  {
    forall w | w in log && FromSeek(order, ucmp, key, snapshot, w)
      ensures SameKey(ucmp, v.key.userKey, key) && (w == v || CompareTags(order, v.Stamp(), w.Stamp()) < 0)
    {
      assert CompareToSeek(order, ucmp, key, snapshot, w) >= 0;
      Transitive(ucmp, v.key.userKey, w.key.userKey, key);
      Transitive(ucmp, v.key.userKey, key, w.key.userKey);
      Transitive(ucmp, key, w.key.userKey, key);
    }
    if SameKey(ucmp, v.key.userKey, key) {
      assert Picks(order, ucmp, log, key, snapshot, v);
      PickIsUnique(order, ucmp, log, key, snapshot, v);
    }
  }

  /** Of the version the seek stops at the two tests say the same. */
  ghost predicate TestsAgree(order: TagOrder, ucmp: UserOrder, log: seq<Version>, key: seq<byte>, snapshot: Sequence) {
    forall v :: StopsAt(order, ucmp, log, key, snapshot, v) ==>
      (SameKey(ucmp, v.key.userKey, key) <==> ucmp(InternalBytes(v.key), key) == 0)
  }

  /**
   * With line 104 as written a read in either tag order is the one meant in that order exactly
   * where the two tests agree.
   */
  lemma WholeKeyReads(order: TagOrder, ucmp: UserOrder, log: seq<Version>, key: seq<byte>, snapshot: Sequence)
    requires IsOrder(ucmp) && Slots(ucmp, log)
    ensures WholeKeyAnswer(order, ucmp, log, key, snapshot) == PickedAt(order, ucmp, log, key, snapshot) <==>
              TestsAgree(order, ucmp, log, key, snapshot)
  {
    if v :| StopsAt(order, ucmp, log, key, snapshot, v) {
      StopIsUnique(order, ucmp, log, key, snapshot, v);
      StopPicks(order, ucmp, log, key, snapshot, v);
    } else {
      NoStopPicksNothing(order, ucmp, log, key, snapshot);
    }
  }

  lemma NoStopPicksNothing(order: TagOrder, ucmp: UserOrder, log: seq<Version>, key: seq<byte>, snapshot: Sequence)
    requires IsOrder(ucmp) && Slots(ucmp, log)
    requires forall v :: !StopsAt(order, ucmp, log, key, snapshot, v)
    ensures PickedAt(order, ucmp, log, key, snapshot) == Missing
  {
    if v :| Picks(order, ucmp, log, key, snapshot, v) {
      assert CompareToSeek(order, ucmp, key, snapshot, v) >= 0;
      var w := StopExists(order, ucmp, log, key, snapshot, v);
      assert false;
    }
  }

  /**
   * What a log must be like for a read with line 104 as written to be that of the map: nothing
   * visible and no match at the version the seek stops at, or a match there that says what the
   * newest visible version says.
   */
  ghost predicate WholeKeyAgrees(order: TagOrder, ucmp: UserOrder, log: seq<Version>, key: seq<byte>,
      snapshot: Sequence) {
    || ((forall v :: v in log ==> !Visible(ucmp, key, snapshot, v)) &&
        forall v :: StopsAt(order, ucmp, log, key, snapshot, v) ==> ucmp(InternalBytes(v.key), key) != 0)
    || (exists v, n ::
          && StopsAt(order, ucmp, log, key, snapshot, v) && ucmp(InternalBytes(v.key), key) == 0
          && IsNewest(ucmp, log, key, snapshot, n) && AnswerOf(v) == AnswerOf(n))
  }

  /** That is exact, in either tag order. */
  lemma WholeKeyReadsMap(order: TagOrder, ucmp: UserOrder, log: seq<Version>, key: seq<byte>, snapshot: Sequence)
    requires IsOrder(ucmp) && Slots(ucmp, log)
    ensures WholeKeyAnswer(order, ucmp, log, key, snapshot) == ReadAt(ucmp, log, key, snapshot) <==>
              WholeKeyAgrees(order, ucmp, log, key, snapshot)
  {
    if n :| n in log && Visible(ucmp, key, snapshot, n) {
      NewestExists(ucmp, log, key, snapshot, n);
      var newest :| IsNewest(ucmp, log, key, snapshot, newest);
      WholeKeyReadsNewest(order, ucmp, log, key, snapshot, n, newest);
    } else {
      WholeKeyReadsNothing(order, ucmp, log, key, snapshot);
    }
  }

  lemma WholeKeyReadsNothing(order: TagOrder, ucmp: UserOrder, log: seq<Version>, key: seq<byte>, snapshot: Sequence)
    requires IsOrder(ucmp) && Slots(ucmp, log) && forall v :: v in log ==> !Visible(ucmp, key, snapshot, v)
    ensures WholeKeyAnswer(order, ucmp, log, key, snapshot) == ReadAt(ucmp, log, key, snapshot) <==>
              WholeKeyAgrees(order, ucmp, log, key, snapshot)
  {
    ReadIsOfNewest(ucmp, log, key, snapshot);
    if v :| StopsAt(order, ucmp, log, key, snapshot, v) {
      StopIsUnique(order, ucmp, log, key, snapshot, v);
    }
  }

  lemma WholeKeyReadsNewest(order: TagOrder, ucmp: UserOrder, log: seq<Version>, key: seq<byte>, snapshot: Sequence,
      seen: Version, n: Version)
    requires IsOrder(ucmp) && Slots(ucmp, log) && IsNewest(ucmp, log, key, snapshot, n)
    requires seen in log && Visible(ucmp, key, snapshot, seen)
    ensures WholeKeyAnswer(order, ucmp, log, key, snapshot) == ReadAt(ucmp, log, key, snapshot) <==>
              WholeKeyAgrees(order, ucmp, log, key, snapshot)
  {
    ReadIsOfNewest(ucmp, log, key, snapshot);
    if v :| StopsAt(order, ucmp, log, key, snapshot, v) {
      StopIsUnique(order, ucmp, log, key, snapshot, v);
    }
  }

  /** Bytewise it is always a miss, so only reads of nothing are right. */
  lemma BytewiseReads(order: TagOrder, log: seq<Version>, key: seq<byte>, snapshot: Sequence)
    requires Slots(Compare, log)
    ensures WholeKeyAnswer(order, Compare, log, key, snapshot) == Missing
    ensures ReadAt(Compare, log, key, snapshot) == Missing <==>
              forall v :: v in log ==> !Visible(Compare, key, snapshot, v)
  {
    CompareIsOrder();
    if v :| StopsAt(order, Compare, log, key, snapshot, v) {
      StopIsUnique(order, Compare, log, key, snapshot, v);
      WholeKeyNeverMatches(order, v, key, snapshot);
    }
    ReadIsOfNewest(Compare, log, key, snapshot);
  }

  /**
   * Bytewise no version at or after the seek key is, as a whole, the user key looked up: its user
   * key is not below it.
   */
  lemma WholeKeyNeverMatches(order: TagOrder, v: Version, key: seq<byte>, snapshot: Sequence)
    requires CompareToSeek(order, Compare, key, snapshot, v) >= 0
    ensures Compare(InternalBytes(v.key), key) != 0
  {
    CompareIsEquality(InternalBytes(v.key), key);
    if InternalBytes(v.key) == key {
      CompareAt(v.key.userKey, key, |key| - 8);
    }
  }

  /** The smallest case it gets wrong: one value, read later, in either tag order. */
  lemma WholeKeyMissesValues(order: TagOrder, key: seq<byte>, value: seq<byte>)
    ensures var log := [Version(ParsedKey(key, 1, Value), value)];
      && ReadAt(Compare, log, key, 2) == Found(value)
      && WholeKeyAnswer(order, Compare, log, key, 2) == Missing
  {
    var log := [Version(ParsedKey(key, 1, Value), value)];
    AscendingMissesOlderValues(key, value);
    BytewiseReads(order, log, key, 2);
  }

  /** The entry at the seek key's rank is the one the seek stops at. */
  lemma RankStops(order: TagOrder, ucmp: UserOrder, ks: seq<EntryKey>, log: seq<Version>, key: seq<byte>,
      snapshot: Sequence)
    requires IsOrder(ucmp) && |key| + 8 < 0x1_0000_0000
    requires Holds(ks, log) && StrictlySorted(EntryComparator(order, ucmp), ks)
    ensures var r := SeekRank(order, ucmp, ks, key, snapshot);
      if r < |ks| then forall v :: v in log && Entry(v) == ks[r] ==> StopsAt(order, ucmp, log, key, snapshot, v)
      else WholeKeyAnswer(order, ucmp, log, key, snapshot) == Missing
  {
    var r := SeekRank(order, ucmp, ks, key, snapshot);
    forall w | w in log && CompareToSeek(order, ucmp, key, snapshot, w) >= 0
      ensures r < |ks|
      ensures Entry(w) == ks[r] || CompareInternal(order, ucmp, KeyOf(ks[r]), InternalBytes(w.key)) < 0
    {
      StopBounds(order, ucmp, ks, key, snapshot, w);
    }
    if r < |ks| {
      forall v | v in log && Entry(v) == ks[r] ensures StopsAt(order, ucmp, log, key, snapshot, v) {
        EntryIsKey(v);
        SeekIsKey(key, snapshot);
        forall w | w in log && CompareToSeek(order, ucmp, key, snapshot, w) >= 0 && Entry(w) == ks[r] ensures w == v {
          EntryInjective(v, w);
        }
      }
    }
  }

  lemma StopBounds(order: TagOrder, ucmp: UserOrder, ks: seq<EntryKey>, key: seq<byte>, snapshot: Sequence, w: Version)
    requires |key| + 8 < 0x1_0000_0000 && StrictlySorted(EntryComparator(order, ucmp), ks)
    requires w.Fits() && Entry(w) in ks && CompareToSeek(order, ucmp, key, snapshot, w) >= 0
    ensures var r := SeekRank(order, ucmp, ks, key, snapshot);
      r < |ks| && (Entry(w) == ks[r] || CompareInternal(order, ucmp, KeyOf(ks[r]), InternalBytes(w.key)) < 0)
  {
    EntryToSeek(order, ucmp, key, snapshot, w);
    var e: EntryKey, seek: EntryKey := Entry(w), Prefixed(SeekKey(key, snapshot));
    var i: nat :| i < |ks| && ks[i] == e;
    RankLeads<EntryKey>(EntryComparator(order, ucmp), ks, seek, i);
  }

  lemma EntryToSeek(order: TagOrder, ucmp: UserOrder, key: seq<byte>, snapshot: Sequence, w: Version)
    requires w.Fits() && |key| + 8 < 0x1_0000_0000
    ensures HasKey(Entry(w)) && KeyOf(Entry(w)) == InternalBytes(w.key) && HasKey(Prefixed(SeekKey(key, snapshot)))
    ensures EntryComparator(order, ucmp)(Entry(w), Prefixed(SeekKey(key, snapshot))) ==
            CompareToSeek(order, ucmp, key, snapshot, w)
  {
    EntryIsKey(w);
    SeekIsKey(key, snapshot);
  }

  /** When a read with line 104 as meant is that of the map. */
  lemma MeantReads(order: TagOrder, ucmp: UserOrder, log: seq<Version>, key: seq<byte>, snapshot: Sequence)
    requires IsOrder(ucmp) && Slots(ucmp, log)
    ensures PickedAt(order, ucmp, log, key, snapshot) == ReadAt(ucmp, log, key, snapshot) <==>
              order == Descending || AscendingAgrees(ucmp, log, key, snapshot)
  {
    match order
    case Ascending => AscendingReads(ucmp, log, key, snapshot);
    case Descending => PickedDescendingIsRead(ucmp, log, key, snapshot);
  }

  /** When one with line 104 as written is the one meant, and that of the map. */
  lemma WrittenReads(order: TagOrder, ucmp: UserOrder, log: seq<Version>, key: seq<byte>, snapshot: Sequence)
    requires IsOrder(ucmp) && Slots(ucmp, log)
    ensures var answer, read := WholeKeyAnswer(order, ucmp, log, key, snapshot), ReadAt(ucmp, log, key, snapshot);
      && (answer == PickedAt(order, ucmp, log, key, snapshot) <==> TestsAgree(order, ucmp, log, key, snapshot))
      && (answer == read <==> WholeKeyAgrees(order, ucmp, log, key, snapshot))
      && (ucmp == Compare ==>
            answer == Missing && (answer == read <==> forall v :: v in log ==> !Visible(ucmp, key, snapshot, v)))
  {
    WholeKeyReads(order, ucmp, log, key, snapshot);
    WholeKeyReadsMap(order, ucmp, log, key, snapshot);
    if ucmp == Compare { BytewiseReads(order, log, key, snapshot); }
  }

  class MemTable {
    const order: TagOrder
    const ucmp: UserOrder
    const table: SkipList<EntryKey>
    ghost var log: seq<Version>  // every version added, in the order of the calls

    ghost predicate Valid()
      reads this, table, table.spine
    {
      && table.Valid() && IsOrder(ucmp) && table.cmp == EntryComparator(order, ucmp)
      && Holds(table.Keys(), log) && Slots(ucmp, log)
    }

    constructor (order: TagOrder, ucmp: UserOrder)
      requires IsOrder(ucmp)
      ensures Valid() && log == [] && this.order == order && this.ucmp == ucmp
      ensures fresh(table) && fresh(table.spine)
    {
      EntriesAreOrdered(order, ucmp);
      this.order, this.ucmp := order, ucmp;
      table := new SkipList(EntryComparator(order, ucmp));
      log := [];
    }

    /**
     * Encodes an entry and inserts it. As written the source sizes the key by the value
     * (memtable.cpp:77), prefixes it with the size of the whole entry (line 81) and compares
     * bytes where it should copy them (lines 82 and 87); this is what those lines are for.
     */
    method Add(s: Sequence, kind: ValueType, key: seq<byte>, value: seq<byte>)
      requires Valid()
      requires Version(ParsedKey(key, s, kind), value).Fits()
      requires FreshIn(ucmp, log, Version(ParsedKey(key, s, kind), value))
      modifies this, table, table.spine
      ensures Valid() && log == old(log) + [Version(ParsedKey(key, s, kind), value)]
      ensures forall n :: n in table.spine ==> n in old(table.spine) || fresh(n)
    {
      ghost var v := Version(ParsedKey(key, s, kind), value);
      var entry := EncodeEntry(s, kind, key, value);
      FreshIsAbsent(order, ucmp, table.Keys(), log, v);
      ghost var ks := table.Keys();
      table.Insert(entry);
      HoldsOneMore(ks, log, Rank(table.cmp, ks, entry), entry, v);
      SlotsOneMore(ucmp, log, v);
      log := log + [v];
    }

    /**
     * A snapshot read. As written, line 104 compares the whole internal key of the entry found with
     * the user key looked up; as meant, the internal key without its tag. As meant and newest first
     * it is the read of the map; in the source's tag order it is that exactly when `AscendingAgrees`,
     * and as written exactly when `WholeKeyAgrees`.
     */
    method Get(key: LookupKey, text: Text) returns (answer: Answer)
      requires Valid() && key.Valid()
      ensures text == AsMeant ==> answer == PickedAt(order, ucmp, log, key.key, key.at)
      ensures text == AsMeant && order == Descending ==> answer == ReadAt(ucmp, log, key.key, key.at)
      ensures text == AsMeant && order == Descending ==>
                && (answer == Missing <==> forall v :: v in log ==> !Visible(ucmp, key.key, key.at, v))
                && (forall n :: IsNewest(ucmp, log, key.key, key.at, n) ==>
                      answer == if n.key.kind == Value then Found(n.value) else Deleted)
      ensures text == AsMeant && order == Ascending ==>
                (answer == ReadAt(ucmp, log, key.key, key.at) <==> AscendingAgrees(ucmp, log, key.key, key.at))
      ensures text == AsWritten ==> answer == WholeKeyAnswer(order, ucmp, log, key.key, key.at)
      ensures text == AsWritten ==>
                (answer == PickedAt(order, ucmp, log, key.key, key.at) <==>
                 TestsAgree(order, ucmp, log, key.key, key.at))
      ensures text == AsWritten ==>
                (answer == ReadAt(ucmp, log, key.key, key.at) <==> WholeKeyAgrees(order, ucmp, log, key.key, key.at))
      ensures text == AsWritten && order == Descending ==>
                (answer == ReadAt(ucmp, log, key.key, key.at) <==> TestsAgree(order, ucmp, log, key.key, key.at))
      ensures text == AsWritten && ucmp == Compare ==>
                && answer == Missing
                && (answer == ReadAt(ucmp, log, key.key, key.at) <==>
                    forall v :: v in log ==> !Visible(ucmp, key.key, key.at, v))
    {
      answer := Answered(key, text);
      ReadIsOfNewest(ucmp, log, key.key, key.at);
      MeantReads(order, ucmp, log, key.key, key.at);
      WrittenReads(order, ucmp, log, key.key, key.at);
    }

    /** What the entry the seek stops at makes of a read. */
    method Answered(key: LookupKey, text: Text) returns (answer: Answer)
      requires Valid() && key.Valid()
      ensures text == AsMeant ==> answer == PickedAt(order, ucmp, log, key.key, key.at)
      ensures text == AsWritten ==> answer == WholeKeyAnswer(order, ucmp, log, key.key, key.at)
    {
      ghost var ks, k, snapshot := table.Keys(), key.key, key.at;
      RankStops(order, ucmp, ks, log, k, snapshot);
      SeekIsKey(k, snapshot);
      var memkey := key.MemtableKey();
      var found := FindEntry(memkey);
      if found.None? {
        NoEntryDecides(order, ucmp, ks, log, k, snapshot);
        return Missing;
      }
      ghost var v := VersionAt(ks, log, SeekRank(order, ucmp, ks, k, snapshot));
      EntryDecides(order, ucmp, ks, log, k, snapshot, v);
      EntryIsKey(v);
      StopIsUnique(order, ucmp, log, k, snapshot, v);
      var userKey := key.UserKey();
      answer := ReadEntry(ucmp, found.value, userKey, text, v);
    }

    /** The first entry at or after a memtable key. */
    method FindEntry(memkey: EntryKey) returns (entry: Option<EntryKey>)
      requires Valid()
      ensures var r := Rank(table.cmp, table.Keys(), memkey);
        entry == if r < |table.Keys()| then Some(table.Keys()[r]) else None
      ensures entry.Some? ==> EntryComparator(order, ucmp)(entry.value, memkey) >= 0
    {
      var iter: Iterator<EntryKey> := new Iterator(table);
      iter.Seek(memkey);
      if iter.node == null {
        return None;
      }
      var e := iter.Key();
      entry := Some(e);
    }
  }

  /** The key part of an entry, and where it ends. */
  method DecodeKey(entry: EntryKey, ghost v: Version) returns (internalKey: InternalKey, end: nat)
    requires v.Fits() && entry == Entry(v)
    ensures internalKey == InternalBytes(v.key) == KeyOf(entry)
    ensures end == |Prefixed(internalKey)|
  {
    EntryIsKey(v);
    ReadPrefixedOfPrefixed(InternalBytes(v.key), Prefixed(v.value));
    assert entry[0..] == entry;
    internalKey, end := GetLengthPrefixedSliceAt(entry, 0);
  }

  /** The value part. */
  method DecodeValue(entry: EntryKey, end: nat, ghost v: Version) returns (value: seq<byte>)
    requires v.Fits() && entry == Entry(v) && end == |Prefixed(InternalBytes(v.key))|
    ensures value == v.value
  {
    assert entry[end..] == Prefixed(v.value) == Prefixed(v.value) + [];
    ReadPrefixedOfPrefixed(v.value, []);
    var w, _ := GetLengthPrefixedSliceAt(entry, end);
    value := w;
  }

  method KeySlice(entry: EntryKey, ghost v: Version) returns (k: seq<byte>)
    requires v.Fits() && entry == Entry(v)
    ensures k == InternalBytes(v.key)
  {
    var internalKey, _ := DecodeKey(entry, v);
    k := internalKey;
  }

  method ValueSlice(entry: EntryKey, ghost v: Version) returns (value: seq<byte>)
    requires v.Fits() && entry == Entry(v)
    ensures value == v.value
  {
    var _, end := DecodeKey(entry, v);
    value := DecodeValue(entry, end, v);
  }

  /** What `get` makes of the entry it finds: a miss unless the user key matches, else what the type in the tag says. */
  method ReadEntry(ucmp: UserOrder, entry: EntryKey, userKey: seq<byte>, text: Text,
      ghost v: Version) returns (answer: Answer)
    requires v.Fits() && entry == Entry(v)
    ensures answer ==
      if ucmp(if text == AsMeant then v.key.userKey else InternalBytes(v.key), userKey) != 0 then Missing
      else if v.key.kind == Value then Found(v.value)
      else Deleted
  {
    var internalKey, end := DecodeKey(entry, v);
    if ucmp(if text == AsMeant then internalKey[..|internalKey| - 8] else internalKey, userKey) != 0 {
      return Missing;
    }
    var tag := DecodeFixed64(internalKey[|internalKey| - 8..]);
    assert tag == v.Stamp();
    if tag % 256 == Value.Code() {
      var value := DecodeValue(entry, end, v);
      return Found(value);
    } else {
      return Deleted;
    }
  }

  /** Around the rank of an internal key, the entries split as that key splits the versions. */
  lemma SeekSplits(order: TagOrder, ucmp: UserOrder, ks: seq<EntryKey>, k: EntryKey, e: EntryKey)
    requires IsOrder(ucmp) && StrictlySorted(EntryComparator(order, ucmp), ks) && e in ks
    ensures var cmp := EntryComparator(order, ucmp); var r := Rank(cmp, ks, k);
      cmp(e, k) >= 0 <==> r < |ks| && cmp(e, ks[r]) >= 0
  {
    var cmp := EntryComparator(order, ucmp);
    var r := Rank(cmp, ks, k);
    EntriesAreOrdered(order, ucmp);
    var i :| 0 <= i < |ks| && ks[i] == e;
    RankSplits(cmp, ks, k);
    if i < r {
      if r < |ks| { assert Apply(cmp, ks[i], ks[r]) < 0; }
    } else if i == r {
      assert Apply(cmp, e, e) == 0;
    } else {
      assert Apply(cmp, ks[r], e) < 0;
      assert Sign(Apply(cmp, ks[r], e)) == -Sign(Apply(cmp, e, ks[r]));
    }
  }

  /** A key and its value, as the iterator gives them. */
  datatype Pair = Pair(key: InternalKey, value: seq<byte>)

  function PairOf(v: Version): Pair {
    Pair(InternalBytes(v.key), v.value)
  }

  /** The entry `k`, decoded. */
  ghost predicate IsPair(p: Pair, k: EntryKey, log: seq<Version>) {
    exists v :: v in log && Entry(v) == k && p == PairOf(v)
  }

  /** An iterator over a memtable: the versions in the order of their internal keys. */
  class MemTableIterator {
    const mem: MemTable
    const iter: Iterator<EntryKey>
    const tmp: String

    ghost predicate Valid()
      reads this, mem, mem.table, mem.table.spine, iter
    {
      mem.Valid() && iter.list == mem.table && iter.Valid()
    }

    /** The version it stands at. */
    ghost function Current(): (v: Version)
      requires Valid() && iter.At().Some?
      reads this, mem, mem.table, mem.table.spine, iter
      ensures v in mem.log && iter.At().value < |mem.table.Keys()| && Entry(v) == mem.table.Keys()[iter.At().value]
    {
      iter.AtNode();
      var k := mem.table.Keys()[iter.At().value];
      assert k in mem.table.Keys();
      var v :| v in mem.log && Entry(v) == k;
      v
    }

    constructor (mem: MemTable)
      requires mem.Valid()
      ensures Valid() && this.mem == mem && iter.At() == None && fresh(iter) && fresh(tmp)
    {
      var it := new Iterator(mem.table);
      var t := new String([]);
      this.mem, iter, tmp := mem, it, t;
    }

    /** Stands at the first version at or after an internal key, or nowhere if all come before it. */
    method Seek(k: InternalKey)
      requires Valid() && |k| < 0x1_0000_0000
      modifies iter`node, tmp
      ensures Valid()
      ensures forall v :: v in mem.log ==>
        (CompareInternal(mem.order, mem.ucmp, InternalBytes(v.key), k) >= 0 <==>
          iter.At().Some? &&
          CompareInternal(mem.order, mem.ucmp, InternalBytes(v.key), InternalBytes(Current().key)) >= 0)
    {
      EncodeKey(tmp, k);
      assert Prefixed(k) + [] == Prefixed(k);
      ReadPrefixedOfPrefixed(k, []);
      ghost var target: EntryKey := tmp.bytes;
      assert KeyOf(target) == k;
      iter.Seek(tmp.bytes);
      forall v | v in mem.log
        ensures CompareInternal(mem.order, mem.ucmp, InternalBytes(v.key), k) >= 0 <==>
          iter.At().Some? &&
          CompareInternal(mem.order, mem.ucmp, InternalBytes(v.key), InternalBytes(Current().key)) >= 0
      {
        EntryIsKey(v);
        SeekSplits(mem.order, mem.ucmp, mem.table.Keys(), target, Entry(v));
        if iter.At().Some? { EntryIsKey(Current()); }
      }
    }

    method SeekToFirst()
      requires Valid()
      modifies iter`node
      ensures Valid() && iter.At() == if |mem.table.Keys()| > 0 then Some(0) else None
    {
      iter.SeekToFirst();
    }

    method SeekToLast()
      requires Valid()
      modifies iter`node
      ensures Valid() && iter.At() == if |mem.table.Keys()| > 0 then Some(|mem.table.Keys()| - 1) else None
    {
      iter.SeekToLast();
    }

    method Next()
      requires Valid() && iter.At().Some?
      modifies iter`node
      ensures Valid()
      ensures iter.At() == var i := old(iter.At()).value + 1; if i < |mem.table.Keys()| then Some(i) else None
    {
      iter.Next();
    }

    method Prev()
      requires Valid() && iter.At().Some?
      modifies iter`node
      ensures Valid()
      ensures iter.At() == var i := old(iter.At()).value; if i > 0 then Some(i - 1) else None
    {
      iter.Prev();
    }

    method Key() returns (k: seq<byte>)
      requires Valid() && iter.At().Some?
      ensures k == InternalBytes(Current().key)
    {
      ghost var v := Current();
      var entry := iter.Key();
      k := KeySlice(entry, v);
    }

    /** Both of them. */
    method CurrentPair() returns (p: Pair)
      requires Valid() && iter.At().Some?
      ensures iter.At().value < |mem.table.Keys()| && IsPair(p, mem.table.Keys()[iter.At().value], mem.log)
    {
      ghost var v := Current();
      var entry := iter.Key();
      var key := KeySlice(entry, v);
      var value := ValueSlice(entry, v);
      p := Pair(key, value);
      assert p == PairOf(v);
    }

    method Value() returns (value: seq<byte>)
      requires Valid() && iter.At().Some?
      ensures value == Current().value
    {
      ghost var v := Current();
      var entry := iter.Key();
      value := ValueSlice(entry, v);
    }
  }

  /** What a walk has listed: the first entries, decoded. */
  ghost predicate Lists(pairs: seq<Pair>, ks: seq<EntryKey>, log: seq<Version>) {
    |pairs| <= |ks| && forall i :: 0 <= i < |pairs| ==> IsPair(pairs[i], ks[i], log)
  }

  lemma ListsOneMore(pairs: seq<Pair>, p: Pair, ks: seq<EntryKey>, log: seq<Version>)
    requires Lists(pairs, ks, log) && |pairs| < |ks| && IsPair(p, ks[|pairs|], log)
    ensures Lists(pairs + [p], ks, log)
  {
  }

  lemma PairIsOf(p: Pair, k: EntryKey, log: seq<Version>)
    requires IsPair(p, k, log) && forall v :: v in log ==> v.Fits()
    ensures p.key == KeyOf(k)
    ensures forall v :: v in log && Entry(v) == k ==> p == PairOf(v)
  {
    var w :| w in log && Entry(w) == k && p == PairOf(w);
    EntryIsKey(w);
    forall v | v in log && Entry(v) == k ensures v == w {
      EntryInjective(v, w);
    }
  }

  /** All of them are all versions, each once, in order. */
  lemma ListsAll(order: TagOrder, ucmp: UserOrder, pairs: seq<Pair>, ks: seq<EntryKey>, log: seq<Version>)
    requires Holds(ks, log) && StrictlySorted(EntryComparator(order, ucmp), ks)
    requires Lists(pairs, ks, log) && |pairs| == |ks|
    ensures AreVersions(order, ucmp, pairs, log)
  {
    forall i | 0 <= i < |pairs| ensures pairs[i].key == KeyOf(ks[i]) {
      PairIsOf(pairs[i], ks[i], log);
    }
    forall p | p in pairs ensures IsListed(p, log) {
      var i :| 0 <= i < |pairs| && pairs[i] == p;
      assert IsPair(p, ks[i], log);
    }
    forall v | v in log ensures PairOf(v) in pairs {
      var i :| 0 <= i < |ks| && ks[i] == Entry(v);
      PairIsOf(pairs[i], ks[i], log);
      assert pairs[i] == PairOf(v);
    }
    forall i, j | 0 <= i < j < |pairs| ensures CompareInternal(order, ucmp, pairs[i].key, pairs[j].key) < 0 {
      assert Apply(EntryComparator(order, ucmp), ks[i], ks[j]) < 0;
    }
  }

  ghost predicate IsListed(p: Pair, log: seq<Version>) {
    exists v :: v in log && p == PairOf(v)
  }

  /** Exactly the versions of the log, strictly ascending, so each once. */
  ghost predicate AreVersions(order: TagOrder, ucmp: UserOrder, pairs: seq<Pair>, log: seq<Version>) {
    && (forall v :: v in log ==> PairOf(v) in pairs)
    && (forall p :: p in pairs ==> IsListed(p, log))
    && (forall i, j :: 0 <= i < j < |pairs| ==> CompareInternal(order, ucmp, pairs[i].key, pairs[j].key) < 0)
  }

  /** `seekToFirst` and `next` to the end list every version once, in the order of the internal keys. */
  method ListVersions(mem: MemTable) returns (pairs: seq<Pair>)
    requires mem.Valid()
    ensures AreVersions(mem.order, mem.ucmp, pairs, mem.log)
  {
    ghost var ks, n := mem.table.Keys(), 0;
    var it := new MemTableIterator(mem);
    it.SeekToFirst();
    pairs := [];
    while it.iter.node != null
      invariant it.Valid() && it.mem == mem
      invariant |pairs| == n && Lists(pairs, ks, mem.log)
      invariant it.iter.At() == if n < |ks| then Some(n) else None
      modifies it.iter`node
      decreases |ks| - n
    {
      assert it.iter.At() == Some(n);
      var pair := it.CurrentPair();
      ListsOneMore(pairs, pair, ks, mem.log);
      pairs := pairs + [pair];
      it.Next();
      n := n + 1;
    }
    assert n == |ks|;
    ListsAll(mem.order, mem.ucmp, pairs, ks, mem.log);
  }

  /** The bytes `add` allocates and fills, to the last one. */
  method EncodeEntry(s: Sequence, kind: ValueType, key: seq<byte>, value: seq<byte>) returns (entry: EntryKey)
    requires Version(ParsedKey(key, s, kind), value).Fits()
    ensures entry == Entry(Version(ParsedKey(key, s, kind), value))
  {
    var p := ParsedKey(key, s, kind);
    PrefixedPieces(p);
    var internalKeySize := |key| + 8;
    var keySizeLength := VarintLength(internalKeySize);
    var valueSizeLength := VarintLength(|value|);
    var encodedLen := keySizeLength + internalKeySize + valueSizeLength + |value|;
    var buf := new byte[encodedLen];
    var _, at := EncodePrefixedKey(buf, p);
    at := EncodeVarint32(buf, at, |value|);
    CopyBytes(buf, at, value);
    at := at + |value|;
    assert at == encodedLen;
    AppendAssociates(Prefixed(InternalBytes(p)), Varint(|value|), value);
    assert buf[..] == buf[..at] == Entry(Version(p, value));
    EntryIsKey(Version(p, value));
    entry := buf[..];
  }

  /** A table that has seen a whole history of `add` calls. */
  method Replay(order: TagOrder, ucmp: UserOrder, history: seq<Version>) returns (mem: MemTable)
    requires IsOrder(ucmp) && Slots(ucmp, history) && forall v :: v in history ==> v.Fits()
    ensures mem.Valid() && mem.order == order && mem.ucmp == ucmp && mem.log == history
  {
    mem := new MemTable(order, ucmp);
    for n := 0 to |history|
      invariant mem.Valid() && mem.order == order && mem.ucmp == ucmp && mem.log == history[..n]
      invariant fresh(mem) && fresh(mem.table) && fresh(mem.table.spine)
    {
      var v := history[n];
      assert v in history;
      SlotsLeaveRoom(ucmp, history, n);
      mem.Add(v.key.sequence, v.key.kind, v.key.userKey, v.value);
      forall i | 0 <= i < |mem.table.spine| ensures fresh(mem.table.spine[i]) {
        assert mem.table.spine[i] in mem.table.spine;
      }
    }
    assert history[..|history|] == history;
  }

  lemma SlotsLeaveRoom(ucmp: UserOrder, history: seq<Version>, n: nat)
    requires Slots(ucmp, history) && n < |history|
    ensures FreshIn(ucmp, history[..n], history[n]) && history[..n + 1] == history[..n] + [history[n]]
  {
  }

  /**
   * What a table is for: build one from any history of `add` calls whose user keys, sequences and
   * types do not repeat, and a read at any snapshot is the read of the multi-version map. In the
   * source's tag order it is that exactly when `AscendingAgrees`; with line 104 as written exactly
   * when `WholeKeyAgrees`, newest first exactly when `TestsAgree`, and bytewise only where nothing
   * is visible.
   */
  method HistoryThenGet(order: TagOrder, ucmp: UserOrder, history: seq<Version>, key: seq<byte>,
      snapshot: Sequence, text: Text)
    returns (answer: Answer)
    requires IsOrder(ucmp) && Slots(ucmp, history) && |key| + 8 < 0x1_0000_0000
    requires forall v :: v in history ==> v.Fits()
    ensures text == AsMeant && order == Descending ==> answer == ReadAt(ucmp, history, key, snapshot)
    ensures text == AsMeant && order == Descending ==>
              && (answer == Missing <==> forall v :: v in history ==> !Visible(ucmp, key, snapshot, v))
              && (forall n :: IsNewest(ucmp, history, key, snapshot, n) ==>
                    answer == if n.key.kind == Value then Found(n.value) else Deleted)
    ensures text == AsMeant && order == Ascending ==>
              (answer == ReadAt(ucmp, history, key, snapshot) <==> AscendingAgrees(ucmp, history, key, snapshot))
    ensures text == AsMeant ==> answer == PickedAt(order, ucmp, history, key, snapshot)
    ensures text == AsWritten ==> answer == WholeKeyAnswer(order, ucmp, history, key, snapshot)
    ensures text == AsWritten ==>
              (answer == PickedAt(order, ucmp, history, key, snapshot) <==>
               TestsAgree(order, ucmp, history, key, snapshot))
    ensures text == AsWritten ==>
              (answer == ReadAt(ucmp, history, key, snapshot) <==> WholeKeyAgrees(order, ucmp, history, key, snapshot))
    ensures text == AsWritten && order == Descending ==>
              (answer == ReadAt(ucmp, history, key, snapshot) <==> TestsAgree(order, ucmp, history, key, snapshot))
    ensures text == AsWritten && ucmp == Compare ==>
              && answer == Missing
              && (answer == ReadAt(ucmp, history, key, snapshot) <==>
                  forall v :: v in history ==> !Visible(ucmp, key, snapshot, v))
  {
    var mem := Replay(order, ucmp, history);
    var lookup := new LookupKey(key, snapshot);
    answer := mem.Get(lookup, text);
  }
}
