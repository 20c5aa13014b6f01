# A verified model of the store's memory table and its concurrent parts

The repository is a C++ re-implementation of the in-memory half of LevelDB, with the port layer
under it. This project models the logic of that half in Dafny and proves what the code is for:

- **The ordered store.** A skip list of encoded entries refines a multi-version map. At the bottom
  are the byte encodings (`coding.dfy`, `bytes.dfy`), then internal keys and their order
  (`dbformat.dfy`, `comparator.dfy`), the multi-level linked structure on the heap (`levels.dfy`,
  `skiplist.dfy`), and on top the table with its snapshot reads (`memtable.dfy`); `written.dfy` is
  the layout of an entry word for word. The main results
  are that an insertion keeps the whole heap invariant and puts the key in its place whatever
  height is drawn, and that after any history of `add` calls a read at a snapshot is the read of
  the map (`MemTables.HistoryThenGet`).
- **Three concurrent protocols**, as steps of any number of threads in any interleaving: the
  condition variable made of two semaphores and a handshake (`condvar.dfy`), the background work
  queue (`bgqueue.dfy`), and readers that walk the skip list while one writer links a node in
  (`readers.dfy`, and `progress.dfy` for how walks and insertions come to their ends). Proved are
  conservation of permits, that no signal is stolen or lost, that every call comes back where it
  was made from and `Wait` with its mutex, absence of deadlock, that exactly what was scheduled
  runs, in order and all of it, with no wake-up lost, and that a walk skips nothing, gets through,
  and sees a new key all at once.
- **The decimal parser** with its overflow guard and the printer it inverts (`logging.dfy`).

`bits.dfy`, `sequences.dfy`, `orders.dfy`, `options.dfy` and `departures.dfy` hold what the others share.
`dafny verify dfyconfig.toml` checks everything.

Objects the source updates in place are classes (`SkipList`, `Node`, the iterators, `MemTable`,
`LookupKey`, `Slice`, `String`), buffers are arrays, loops are loops, and each such method is
tied by its contract to a function or an order whose own properties are lemmas. A `const char*`
into a buffer is an index into a byte sequence. Shifts and masks are written as multiplication,
division and remainder by powers of two, cut to 32 or 64 bits where the source's type cuts them;
a bitwise or is `Bits.Or`, or addition where a lemma proves it to be the same. A thread protocol is a step
function on a state record; some fields of the state are history, which steps write and never read.

## Where the code departs from what the rest of it needs

Where both forms can be compared, both are modelled (`Departures.Text`, `DbFormat.TagOrder`), the
code's form with the exact condition under which it does what is needed.

- comparator.cpp:39 resizes to the byte found at the difference plus one; its test
  (dbformat_test.cpp:82-83) expects the index plus one. `Comparators.SeparatorAsWritten` says
  exactly when the written form keeps `start <= r` and `|r| <= |start|`,
  `Comparators.SeparatorAsWrittenFails` gives inputs where each fails, and
  `Comparators.SeparatorAsMeant` proves both for the other form. The internal separator stays
  strictly between its bounds in either form, because it checks before it replaces.
- dbformat.cpp:57-60 orders equal user keys by ascending tag; seek keys carry the greatest tag
  (dbformat.h:27), which asks for descending order. The order laws hold in both directions. In the
  descending one every snapshot read is right. In the ascending one `MemTables.AscendingReads` says
  exactly when the answer is right, `MemTables.AscendingPicksNewest` exactly when the version found
  is, and `MemTables.AscendingMissesOlderValues` is the smallest failure.
- memtable.cpp:104 compares a whole internal key with a user key. For any user comparator
  `MemTables.WholeKeyReads` says exactly when that gives the answer meant, newest first the map's,
  and `MemTables.WholeKeyReadsMap` exactly when it gives the map's in either tag order. With the
  bytewise one it never finds anything (`MemTables.BytewiseReads`), so only reads of nothing are
  right; `MemTables.WholeKeyMissesValues` is the smallest failure. `MemTables.MemTable.Get` and
  `MemTables.HistoryThenGet` carry all of it.
- memtable.cpp:77 sizes the key by the value and line 81 prefixes the key with the size of the
  entry, cut to 32 bits; lines 82 and 87 compare where they should copy. `MemTables.EncodeEntry`
  and `MemTables.MemTable.Add` model what these lines are for;
  `EntriesAsWritten.EncodeEntryAsWritten` models the lines themselves. `EntriesAsWritten.LayoutFills`
  says exactly when the written sizes fill the allocation or overrun it,
  `EntriesAsWritten.PrefixDelimits` exactly when the written prefix delimits the key, and
  `EntriesAsWritten.LayoutIsRightOnce` that the two come together for one pair of sizes only, a key
  and a value of 2^32 - 10 bytes each. `EntriesAsWritten.SizedByValue` and
  `EntriesAsWritten.PrefixAsWrittenOverruns` take each line by itself, the other as meant.
- port_win.cc:112-118, `SignalAll`, posts one permit and then waits once for every waiter. It is
  modelled as written, together with `Wait` and `Signal`. It can return exactly when it finds at
  most one waiter (`CondVars.SignalAllReturns`): then it is never stuck and releases everyone it
  found (`CondVars.SignalAllEndsForOne`); with more it comes to a second wait and stays there
  (`CondVars.SignalAllComesToBlock`, `CondVars.SignalAllBlocks`), which a run of three threads from
  the start brings about (`CondVars.SignalAllBlocksThree`).
- skiplist.h:120-124 links a node from the top level down. After the loop nothing depends on the
  order; during it the claims for readers are about walks on level 0, and
  `ConcurrentReaders.TopDownExposesUnsetLinks` shows why.

## Model

| member | source | states |
|---|---|---|
| Bytes.CompareAt | comparator.cpp:19-22 | where two byte strings first part decides their comparison |
| Bytes.CompareIsEquality | comparator.cpp:19-22 | comparing gives 0 exactly for equal strings |
| Bytes.CompareFlips | comparator.cpp:19-22 | swapping the arguments flips the sign |
| Bytes.CompareTransitive | comparator.cpp:19-22 | the bytewise comparison is transitive |
| Bytes.CompareIsOrder | comparator.cpp:19-22 | the bytewise comparator is a total order |
| Coding.FixedRoundTrip | coding.cpp:18-32 | decoding a fixed-width encoding gives back every value that fits |
| Coding.FixedValueRoundTrip | coding.cpp:18-32 | encoding what was decoded gives back every byte string |
| Coding.EncodeFixed64 | coding.cpp:18-32 | the eight stores are the little-endian encoding, and no other byte of the buffer changes |
| Coding.PutFixed64 | coding.cpp:41-46 | appends exactly that encoding |
| Coding.DecodeFixed64 | dbformat.cpp:55-56 | the value read is the one whose encoding these eight bytes are |
| Coding.EncodeVarint32 | coding.cpp:48-83 | the unrolled encoder writes the same bytes as the LEB128 definition the 64-bit loop meets, right after what was there, and returns their end |
| Coding.EncodeVarint64 | coding.cpp:85-96 | the loop writes the LEB128 encoding of every 64-bit value and returns its end |
| Coding.PutVarint32 | coding.cpp:98-103 | appends that encoding; it fits the buffer of 5 |
| Coding.PutVarint64 | coding.cpp:105-110 | appends that encoding; it fits the buffer of 10 |
| Coding.VarintLength | coding.cpp:118-127 | the number returned is the length of the encoding |
| Coding.WithMoreIsOr | coding.cpp:58-91 | or-ing bit 7 in and cutting to a byte gives the low seven bits and the continuation bit, also where the upper bits are cut off first |
| Bits.OrOfDisjoint | dbformat.cpp:10 | bitwise or is addition where the operands share no bits |
| Coding.VarintSize | coding.cpp:118-127 | an encoding has at most n bytes exactly if the value is below 128 to the n |
| Coding.VarintSizes | coding.cpp:98-110 | 5 bytes suffice for 32 bits and 10 for 64 |
| Coding.LebOfVarint | coding.cpp:129-180 | an encoding is read back, whatever follows it |
| Coding.LebOfPrefix | coding.cpp:129-180 | every strict prefix of an encoding is rejected |
| Coding.LebOfContinuations | coding.cpp:129-180 | bytes that all ask for more are rejected at the limit |
| Coding.LebOfTake | coding.cpp:129-180 | bytes after the end of a varint do not matter |
| Coding.LebSplit | coding.cpp:129-180 | continuation bytes carry the low groups of seven bits, the rest of the varint the high ones |
| Coding.Or32 | coding.cpp:138-142 | bitwise or-ing a shifted group into the 32-bit result adds it modulo 2^32 |
| Coding.Or64 | coding.cpp:170-174 | the same modulo 2^64 |
| Coding.OrGroup32 | coding.cpp:138-142 | the or-assignment of the shifted byte adds the group to the result, cut to 32 bits |
| Coding.OrGroup64 | coding.cpp:170-174 | the same in 64 bits |
| Coding.GetVarint32PtrFallback | coding.cpp:129-148 | on all bytes, canonical or not, it succeeds exactly if a varint of at most 5 bytes ends inside the limit, and returns its end and its value modulo 2^32 |
| Coding.GetVarint64Ptr | coding.cpp:161-180 | the same with 10 bytes and 2^64 |
| Coding.GetVarint32Ptr | coding.cpp:150-159 | the reader `getVarint32` calls, which takes a one-byte varint itself, agrees with the fallback on all bytes |
| Coding.NarrowReadsAreWideReads | coding.cpp:129-180 | what the 32-bit reader accepts the 64-bit reader accepts with the same bytes consumed, and the 32-bit result is the 64-bit one modulo 2^32 |
| Coding.GetVarint32 | coding.cpp:150-159 | the value is removed from the input on success, the input untouched on failure |
| Coding.GetVarint64 | coding.cpp:182-191 | the same for 64 bits |
| Coding.StreamRoundTrip | coding.cpp:150-191 | reading a concatenation of encodings to its end gives the list back, for any width |
| Coding.VarintStreams | coding.cpp:150-191 | so for every list of 32-bit values read 32 bits wide and of 64-bit values read 64 bits wide |
| Coding.ReadPrefixedOfPrefixed | coding.cpp:193-203 | a length-prefixed slice is read back, whatever follows it |
| Coding.PutLengthPrefixedSlice | coding.cpp:112-116 | appends the length-prefixed form |
| Coding.GetLengthPrefixedSlicePtr | coding.cpp:193-203 | the pointer overload accepts exactly what `ReadPrefixed` reads, with its payload and end |
| Coding.GetLengthPrefixedSlice | coding.cpp:205-215 | the Slice overload accepts the same inputs with the same payload and remainder; on failure at most the length is consumed |
| Coding.ReadPrefixedRefuses | coding.cpp:193-203 | a slice is refused exactly if its length is missing, malformed or cut off, or promises more bytes than follow; so is every cut of one that is accepted |
| Coding.PrefixedStreamRoundTrip | coding.cpp:112-215 | a concatenation of length-prefixed slices parses back to the slices |
| Comparators.FindShortestSeparator | comparator.cpp:23-43 | the string becomes the separator of the written or the meant form; the source's assertion holds in both |
| Comparators.SeparatorBelowLimit | comparator.cpp:40 | a changed separator is below the limit |
| Comparators.SeparatorAboveStart | comparator.cpp:34-40 | it is above the start and all its extensions exactly if the resize keeps the raised byte, otherwise below it |
| Comparators.SeparatorAsMeant | comparator.cpp:23-43 | for start < limit the meant form gives start <= r < limit, no longer than start |
| Comparators.SeparatorIsLeast | comparator.cpp:34-40 | the meant form changes the start exactly where a byte fits between the two at the parting, and then is the least string of its length above the start |
| Comparators.SeparatorAsWritten | comparator.cpp:39 | the written form: exactly when start <= r, exactly when it is no longer |
| Comparators.SeparatorAsWrittenFails | comparator.cpp:39 | two inputs on which the written form leaves start behind or grows |
| Comparators.FindShortSuccessor | comparator.cpp:44-57 | the key becomes its successor |
| Comparators.SuccessorExceeds | comparator.cpp:44-57 | a changed successor is no longer than the key and above every string that starts with it; only keys of 0xff bytes stay |
| Comparators.SuccessorIsLeast | comparator.cpp:44-57 | among the strings above everything that starts with the key it is a shortest, and the least of that length; if it does not change there are none |
| DbFormat.InternalBytes | dbformat.cpp:6-17 | an internal key carries its user key and its tag |
| DbFormat.AppendInternalKey | dbformat.cpp:13-17 | appends exactly those bytes |
| DbFormat.ParseInvertsEncode | dbformat.h:112-123 | parsing gives a key exactly if the bytes are that key's encoding, so encoding is injective and nothing else parses |
| DbFormat.ExtractedTypeDecides | dbformat.h:57-64 | the type byte extracted is a known type's exactly when the key parses, and then the parsed type's |
| DbFormat.TagsAre | dbformat.h:22-29 | the low byte of a tag is 0 for a deletion and 1 for a value, the rest is the sequence, and the seek tag is the greatest tag, 2^56 - 1 with a value's byte |
| DbFormat.PackIsOr | dbformat.cpp:6-11 | shifting the sequence and or-ing the type in gives the tag |
| DbFormat.InternalIsOrder | dbformat.cpp:50-63 | internal keys are totally ordered whenever user keys are, in either tag order |
| DbFormat.InternalEquality | dbformat.cpp:50-63 | under the bytewise comparator only identical internal keys compare as equal |
| DbFormat.TagsOrderVersions | dbformat.cpp:6-11 | tags order versions by sequence, then deletion before value |
| DbFormat.FindShortestInternalSeparator | dbformat.cpp:65-79 | replaces the start by the internal separator; both assertions of the source hold |
| DbFormat.InternalSeparatorBetween | dbformat.cpp:65-79 | the result is the start, or strictly between start and limit; and exactly when it changes |
| DbFormat.InternalSeparatorIs | dbformat.cpp:74 | a changed separator parses to the user separator with the greatest sequence and type Value, and newest first no version of its user key comes before it |
| DbFormat.FindShortInternalSuccessor | dbformat.cpp:81-92 | replaces the key by the internal successor; the source's assertion holds |
| DbFormat.InternalSuccessorExceeds | dbformat.cpp:81-92 | unchanged exactly for user keys of 0xff bytes, else above every internal key whose user key extends the key's |
| DbFormat.InternalSuccessorIs | dbformat.cpp:88 | the same of a changed successor |
| DbFormat.PrefixedPieces | dbformat.cpp:97-109 | the three pieces make up the length-prefixed key, within user size + 13 |
| DbFormat.EncodePrefixedKey | dbformat.cpp:104-109 | the writes through the moving pointer fill the front of the buffer with it |
| DbFormat.LookupKey.constructor | dbformat.cpp:94-111 | the object holds the seek key of its arguments, in 200 bytes or in the size computed |
| DbFormat.LookupKey.MemtableKey | dbformat.h:130 | the length-prefixed seek key, the same bytes `encodeKey` makes of the internal key |
| DbFormat.LookupKey.InternalKeyBytes | dbformat.h:131 | the seek key |
| DbFormat.LookupKey.UserKey | dbformat.h:132 | the user key it was made from |
| Levels.LevelsNest | skiplist.h:120-124 | the nodes of every level are a sublist of those of the level below |
| Levels.NextOfInserted | skiplist.h:122 | the new node's link on a level leads where its predecessor's did |
| Levels.NextOfOthers | skiplist.h:120-124 | all other links keep leading where they led |
| Levels.SpliceLinks | skiplist.h:122-123 | the two stores link a level with the new node in it |
| Levels.SpliceKeepsOthers | skiplist.h:122-123 | and leave the other levels as they read before |
| Levels.LinkingSteps | skiplist.h:120-124 | one iteration moves the boundary between linked and bypassed levels down by one |
| Levels.LinkingEnds | skiplist.h:120-124 | after the loop every level is linked, those above the node's height included |
| Levels.SearchStep | skiplist.h:143-156 | a search step goes right below its position or down at the last node before it |
| SkipLists.Node.LinkAfter | skiplist.h:122-123 | the node takes over its predecessor's link and is linked from it |
| SkipLists.SkipList.constructor | skiplist.h:94-103 | a valid list without keys |
| SkipLists.SkipList.FindEqualOrGreater | skiplist.h:136-158 | returns the first node at or above the key, or null, and sets `pre` on every active level to the last node below it; terminates by (level, nodes left) |
| SkipLists.SkipList.FindLessThan | skiplist.h:160-177 | returns the last node below the key, or the head |
| SkipLists.SkipList.FindLast | skiplist.h:179-193 | returns the last node, or the head, although it follows level 0 on every level |
| SkipLists.SkipList.Contains | skiplist.h:216-221 | true exactly if a key that compares as equal is present |
| SkipLists.SkipList.RandomHeight | skiplist.h:201-214 | any height from 1 to 12 |
| SkipLists.SkipList.RaiseHeight | skiplist.h:113-118 | the list is raised to the height and the head precedes on the levels gained |
| SkipLists.SkipList.PrepareInsert | skiplist.h:108-118 | `prev` holds the predecessor on every level the new node will have |
| SkipLists.SkipList.LinkNode | skiplist.h:120-124 | the loop leaves every level linked with the node in it |
| SkipLists.SkipList.InsertKeepsShape | skiplist.h:106-125 | the node list stays distinct and strictly sorted, its keys the old ones with one more in place |
| SkipLists.SkipList.Insert | skiplist.h:105-125 | for any height drawn the whole heap invariant is kept and the keys become the old ones with the key at its rank |
| SkipLists.SkipList.LinkMeans | skiplist.h:60-125 | the invariant read off the links: a link skips exactly the lower nodes, goes up, ends in null, and is null above the current height |
| SkipLists.SkipList.LevelsAreSublists | skiplist.h:60-125 | the links of each level, followed from the head to their null, pass a sublist of the nodes the links below pass, and on level 0 all of them |
| SkipLists.Iterator.Key | skiplist.h:237-242 | the key of the position it is at |
| SkipLists.Iterator.Next | skiplist.h:244-249 | on to the next key, or nowhere after the last |
| SkipLists.Iterator.Prev | skiplist.h:251-258 | back to the previous key, or nowhere before the first |
| SkipLists.Iterator.Seek | skiplist.h:260-264 | to the first key at or above the target |
| SkipLists.Iterator.SeekToFirst | skiplist.h:266-270 | to the first key, if any |
| SkipLists.Iterator.SeekToLast | skiplist.h:272-278 | to the last key, if any |
| SkipLists.WalkForward | skiplist.h:244-270 | `seekToFirst` and `next` to the end list exactly the keys, ascending |
| SkipLists.WalkBackward | skiplist.h:251-278 | `seekToLast` and `prev` to the front list exactly their reverse |
| SkipLists.StepAndBack | skiplist.h:244-258 | `prev` undoes `next` and `next` undoes `prev` inside the list |
| MemTables.EntryDecodes | memtable.cpp:5-11 | an entry decodes to its user key, sequence, type and value, whatever lies beyond its end |
| MemTables.EntryInjective | memtable.cpp:73-91 | different versions have different entries |
| MemTables.EntriesAreOrdered | memtable.cpp:29-34 | entries are totally ordered whenever user keys are |
| MemTables.EntriesCompareAsVersions | memtable.cpp:29-34 | comparing entries is comparing user keys, then sequence and type |
| MemTables.GetLengthPrefixedSliceAt | memtable.cpp:5-11 | reading the length within five bytes finds payload and end |
| MemTables.EncodeKey | memtable.cpp:36-42 | the scratch string becomes the length-prefixed key |
| MemTables.EncodeEntry | memtable.cpp:73-89 | the writes fill the allocated size to the last byte with the entry |
| EntriesAsWritten.EncodeEntryAsWritten | memtable.cpp:73-88 | the stores as written: prefix, tag and value size at these places, and the layout exactly if the memory held the key and the value before |
| EntriesAsWritten.LayoutFills | memtable.cpp:77-89 | exactly when the writes as written fill what was allocated, and exactly when they overrun it |
| EntriesAsWritten.PrefixDelimits | memtable.cpp:81 | exactly when the prefix as written delimits the internal key for a reader |
| EntriesAsWritten.LayoutIsRightOnce | memtable.cpp:77-89 | both hold for one pair of sizes only, 2^32 - 10 for key and value, and never below 2^32 bytes allocated |
| EntriesAsWritten.SixtyAndSixtyOverrun | memtable.cpp:77-89 | a 60-byte key and value take 131 of 130 bytes |
| EntriesAsWritten.TwoAndNoneDelimit | memtable.cpp:77-89 | a 2-byte key without a value gets the right prefix, and overruns |
| EntriesAsWritten.SizedByValue | memtable.cpp:77-79 | line 77 alone, line 81 as meant: the size is right exactly for values as long as the key, short exactly for longer keys |
| EntriesAsWritten.PrefixAsWrittenOverruns | memtable.cpp:81 | line 81 alone, line 77 as meant: reading an entry back always runs past its end |
| MemTables.MemTable.constructor | memtable.cpp:13-20 | an empty table |
| MemTables.MemTable.Add | memtable.cpp:73-91 | the versions held become the old ones and this one, for any fresh key, sequence and type |
| MemTables.RankPicks | memtable.cpp:95-98 | the entry a seek stops at is the first version of the key from the seek key on, if its user key is the key |
| MemTables.DescendingPicksNewest | dbformat.cpp:94-111 | newest first, the seek key's place is the newest version the snapshot shows |
| MemTables.ReadIsOfNewest | memtable.cpp:93-122 | the read misses exactly if the snapshot shows no version, otherwise it is the newest one's value if that is a value, and deleted if it is a deletion |
| MemTables.AscendingPicksNewest | dbformat.cpp:57-60 | oldest first, exactly when the seek still finds the newest visible version |
| MemTables.AscendingReads | dbformat.cpp:57-60 | oldest first, exactly when the answer is that of the map: no version of the key, or a value written at the snapshot, or a newest one below and an oldest one above that say the same |
| MemTables.AscendingMissesOlderValues | dbformat.cpp:57-60 | a value written at 1 is not found at 2 |
| MemTables.EntryDecides | memtable.cpp:98-119 | the entry at the seek key's rank determines the answer |
| MemTables.RankStops | memtable.cpp:95-98 | the entry at the seek key's rank is the first version of any key at or after it |
| MemTables.WholeKeyNeverMatches | memtable.cpp:103-104 | bytewise, the comparison as written succeeds for no version at or after the seek key |
| MemTables.StopExists | memtable.cpp:95-98 | a log with a version at or after the seek key has a first one |
| MemTables.StopPicks | memtable.cpp:98-119 | what the comparison as meant makes of the version the seek stops at |
| MemTables.WholeKeyReads | memtable.cpp:103-104 | with the comparison as written a read is the one meant exactly if the two comparisons agree on the version the seek stops at, for any user comparator and tag order |
| MemTables.WholeKeyReadsMap | memtable.cpp:103-104 | and it is the map's exactly if nothing is visible and nothing matches, or the match says what the newest visible version says |
| MemTables.BytewiseReads | memtable.cpp:103-104 | bytewise it is always a miss, so right exactly where nothing is visible |
| MemTables.WholeKeyMissesValues | memtable.cpp:103-104 | a value written at 1 is not found at 2, in either tag order |
| MemTables.ReadEntry | memtable.cpp:100-119 | decoding the entry found gives the version's value if it is a value, deleted if it is a deletion |
| MemTables.MemTable.Get | memtable.cpp:93-122 | newest first, the answer is the newest visible version's: its value, or deleted, or a miss exactly if nothing is visible; oldest first, exactly when; with line 104 as written, exactly when it is the answer meant and exactly when it is the map's, bytewise exactly where nothing is visible |
| MemTables.HistoryThenGet | memtable.cpp:73-122 | the same after any history of additions, at any snapshot |
| MemTables.SeekSplits | memtable.cpp:50 | around the place of a key the entries split as the key splits the versions |
| MemTables.MemTableIterator.Seek | memtable.cpp:50 | stands at the first version at or above an internal key |
| MemTables.MemTableIterator.Next | memtable.cpp:53 | on to the next version |
| MemTables.MemTableIterator.Prev | memtable.cpp:54 | back to the previous one |
| MemTables.MemTableIterator.Key | memtable.cpp:55 | the internal key of the version it is at |
| MemTables.MemTableIterator.Value | memtable.cpp:56-60 | the value of the version it is at |
| MemTables.ListVersions | memtable.cpp:50-60 | `seekToFirst` and `next` to the end list exactly the versions, each once, strictly ascending in the internal order |
| ConcurrentReaders.InitInv | skiplist.h:94-103 | the empty list meets the invariants |
| ConcurrentReaders.StepKeepsInv | skiplist.h:105-125 | every step of the writer and of any reader keeps them |
| ConcurrentReaders.LevelZero | skiplist.h:244-249 | between any two stores a level-0 link leads to the next published node |
| ConcurrentReaders.StorePrevSplices | skiplist.h:123 | the store into the predecessor links one more level |
| ConcurrentReaders.WalkMissesNothing | skiplist.h:244-270 | over every interleaving a walk, from the front or from any node, passes strictly increasing published keys, and every key present and ahead of it when it began it has at any moment passed or still ahead |
| ConcurrentProgress.NextAdvances | skiplist.h:244-249 | `next` goes from a node to the one published right after it, or off the end; possible exactly at a node, and changing nothing but the walk |
| ConcurrentProgress.SeeksToFront | skiplist.h:266-270 | a walk can start at the front at any moment |
| ConcurrentProgress.StartsAtNode | skiplist.h:260-264 | and at any published node |
| ConcurrentProgress.WalkAdvances | skiplist.h:244-249 | over every interleaving a walk takes at most as many steps as there were nodes from its own on and nodes published since, and as many end it; with nothing published it has been at exactly the nodes it went past, in order |
| ConcurrentProgress.WalkFinishes | skiplist.h:244-270 | from wherever any run has left it, fewer steps than there are nodes end a walk, which has then been at every node that was published and ahead when it began |
| ConcurrentProgress.WalkListsAll | skiplist.h:244-270 | left alone, a walk from the front is at all published nodes, in their order |
| ConcurrentProgress.StoreIsNext | skiplist.h:120-124 | an insertion can always make its next store: on each level the node's own link, then the predecessor's |
| ConcurrentProgress.InsertionEnds | skiplist.h:120-124 | over every interleaving the last of its stores, two for each level, publishes the node, and no earlier one does |
| ConcurrentProgress.InsertsAny | skiplist.h:105-125 | between insertions any new key can be inserted with any height from 1 to 12, and two stores a level later the keys are the old ones with it at its rank |
| ConcurrentReaders.PublishesAtOnce | skiplist.h:120-124 | the keys on level 0 change only at the level-0 store, to the old ones with the new key in place |
| ConcurrentReaders.ChainIsUnique | skiplist.h:66-76 | what a level holds is determined by the links alone |
| ConcurrentReaders.LevelReads | skiplist.h:120-124 | each level read from the heap is the list the writer's progress says |
| ConcurrentReaders.LevelAscends | skiplist.h:120-124 | each level by itself is sorted at all times |
| ConcurrentReaders.LevelHas | skiplist.h:120-124 | what a level holds: the published nodes high enough, and the new one once it is stored there |
| ConcurrentReaders.LevelsBetweenStores | skiplist.h:120-124 | every level is a sorted, null-ended chain at all times, and the levels include each other exactly when no node is between its first and its last level |
| ConcurrentReaders.TopDownExposesUnsetLinks | skiplist.h:120-124 | a node is reachable on its top level while its level-0 link is not yet stored |
| CondVars.StepKeepsMutex | port_win.cc:83-119 | every step keeps it that each mutex has the one holder its owner's program counter says |
| CondVars.StepKeepsCount | port_win.cc:83-119 | every step conserves permits |
| CondVars.StepKeepsTally | port_win.cc:83-119 | the signal in progress releases only threads counted when it took the mutex |
| CondVars.StepKeepsLedger | port_win.cc:83-119 | every finished signal was fair, and the threads woken are those the signals released, in order |
| CondVars.StepKeepsInv | port_win.cc:83-119 | every step of any thread keeps all of these |
| CondVars.ClientCalls | port_win.cc:83-119 | client code takes or leaves `mu_`, or enters the call it makes |
| CondVars.CallReturns | port_win.cc:83-119 | inside a call each step brings it on or ends it: `Wait` holding `mu_`, the other two on the side of `mu_` they were called from, leaving one record |
| CondVars.CallComesBack | port_win.cc:83-119 | over every run a thread that calls is in that call until it is in client code again, after `Wait` holding `mu_`, after the others holding it exactly if it did before, in at most 7, 5 and 8 steps of its own |
| CondVars.WakesAreReturns | port_win.cc:83-108 | over every run a thread's calls of `Wait` have returned as often as it was released, less one that is on its way back |
| CondVars.SignalWakesOne | port_win.cc:98-119 | between a signaller's taking and giving back the mutex, however interleaved, exactly one of the threads counted at the first moment is woken, or none if none was counted |
| CondVars.BlockedOnlyBy | port_win.cc:83-119 | a call is blocked exactly on a mutex somebody holds, a missing permit or a missing acknowledgement |
| CondVars.NeverStuck | port_win.cc:83-119 | unless a `SignalAll` stands at its second wait, no reachable state is a deadlock |
| CondVars.SignalCanWake | port_win.cc:83-108 | any one waiting thread can be the one a signal brings back from `Wait`, holding `mu_` |
| CondVars.NoTheft | port_win.cc:83-108 | over every run a signal releases exactly one thread, counted before it took the mutex, if anyone was counted, else none; nobody wakes otherwise |
| CondVars.PermitsConserved | port_win.cc:70-119 | counted threads are those waiting, with a permit, or counted out and owed one, at most the one a `Signal` is about to post for; a permit, woken thread or acknowledgement exists exactly during a handshake, so the semaphores never hold more than one permit between them |
| CondVars.HandshakeEnabled | port_win.cc:90-107 | a signaller awaiting its acknowledgement can go on or some waiter can take a handshake step, even if the signaller holds `mu_` |
| CondVars.HandshakeNears | port_win.cc:90-107 | no other thread's step takes the handshake further away, each handshake step brings it nearer |
| CondVars.HandshakeBounded | port_win.cc:90-107 | over every schedule at most three handshake steps come before the signaller can go on |
| CondVars.SignalAllEndsForOne | port_win.cc:110-119 | with at most one waiter, in every run from taking the mutex the call takes at most six steps, is never stuck but for its one handshake, and has released everyone it found when it unlocks |
| CondVars.SignalAllComesToBlock | port_win.cc:110-119 | with two or more, no run brings the call to its end; it is never stuck before its second wait |
| CondVars.SignalAllBlocks | port_win.cc:110-119 | and stays there in every continuation, holding the mutex |
| CondVars.SignalAllReturns | port_win.cc:110-119 | some run brings the call to its end exactly if it found at most one waiter |
| CondVars.SignalAllFindsTwo | port_win.cc:83-119 | a run of three threads from the start in which `SignalAll` finds two waiters |
| CondVars.SignalAllBlocksThree | port_win.cc:83-119 | and on to where it blocks in every continuation |
| BackgroundQueues.StepKeepsInv | env_boost.cc:523-559 | every step of any caller and of the worker keeps the invariants |
| BackgroundQueues.CallsAreTaken | env_boost.cc:523-525 | a caller that is out can always call `Schedule`, with any item |
| BackgroundQueues.RunPushes | env_boost.cc:533-535 | the pushes of a run, taken from its moves, are what is recorded as pushed |
| BackgroundQueues.CallerPushesItsCalls | env_boost.cc:523-535 | over every run each caller has pushed, in order, the items it called `Schedule` with, but for a last one still on its way |
| BackgroundQueues.RunCounts | env_boost.cc:523-535 | over every run each item is pushed or on its way as often as it was called for |
| BackgroundQueues.RunsInOrder | env_boost.cc:523-559 | executed, in flight and queued items together are the pushes in order, on one worker |
| BackgroundQueues.StepKeepsWakeups | env_boost.cc:537-550 | a worker that waits with work queued has a notification coming |
| BackgroundQueues.WorkGoesOn | env_boost.cc:523-559 | while work is queued someone can step, and for a waiting worker a caller still has to notify |
| BackgroundQueues.StepWorksOff | env_boost.cc:523-559 | every step that is not a new call uses up some of a finite measure |
| BackgroundQueues.RunEnds | env_boost.cc:523-559 | so without new calls everything comes to rest within that many steps, however scheduled |
| BackgroundQueues.RestIsDone | env_boost.cc:523-559 | and at rest exactly the items `Schedule` was called with have run, those of each caller pushed in the order of its calls, and every caller is out |
| Logging.ConsumeDecimalNumber | logging.cc:59-82 | succeeds exactly if there are leading digits and all of them spell a number of at most 64 bits, returns it and the exact remainder, with no overflow on the way; what is left on each failure |
| Logging.ValueGrows | logging.cc:68-72 | more digits never spell less, so stopping at the first overflow is right |
| Logging.AppendNumberTo | logging.cc:16-20 | appends the decimal form |
| Logging.NumberToString | logging.cc:37-41 | the decimal form |
| Logging.DecimalFitsBuffer | logging.cc:17-18 | a printed number has at most 20 digits |
| Logging.PrintThenParse | logging.cc:37-82 | parsing what was printed gives the number and what followed it |
| Logging.ParseThenPrint | logging.cc:37-82 | printing what was parsed gives the digits less their leading zeros |
| Logging.LeadingZeros | logging.cc:59-82 | any number of leading zeros changes neither acceptance nor value |

## Left out

- MemTables.EncodeEntry: memtable.cpp:77, 81, 82 and 87 are modelled as meant; `EntriesAsWritten` has the lines as written.
- MemTables.MemTable.Add: the same; a table that holds entries laid out as written is not part of this model.
- MemTables.MemTable.Get: in the ascending order and with line 104 as written it is the read of the map only where the conditions given hold.
- MemTables.HistoryThenGet: entries as meant; histories must not repeat a user key with the same sequence and type, which the skip list's own assertion demands.
- ConcurrentReaders.WalkMissesNothing: about walks on level 0 only; searches that descend while a node is being linked can read links not yet set, and memory is sequentially consistent, so acquire and release are not told apart.
- ConcurrentReaders.StepKeepsInv: the writer's search and height draw are one step, since only the writer changes the list; the raised current height is not part of this model because walks do not read it.
- CondVars.NoTheft: `SignalAll` is modelled as written, so for two or more waiters nothing is claimed but that it blocks.
- CondVars.NeverStuck: says that a thread can go on, not that the scheduler lets it; client code that keeps `mu_` keeps waiters from returning.
- BackgroundQueues.RunEnds: a work item's own duration is one step, and a spontaneous wake-up of the worker counts as new input.
- Logging.ConsumeDecimalNumber: the counter `int digits`, which more than 2^31 digits would wrap, is unbounded.
- Coding.DecodeFixed64: reads in the little-endian way that the encoder's little-endian branch writes; big-endian machines are not part of this model.
- Coding.GetVarint32Ptr: pointers past the end of a buffer, which memtable.cpp forms as `p + 5`, are cut to the buffer's end.
- SkipLists.SkipList.RandomHeight: heights are any value in range; no claim about probabilities or running time.
- User keys of 2^32 - 8 bytes or more and values of 2^32 bytes or more, whose sizes the length prefixes cannot hold; `Slice::compare` keeps the common size in an `int`.
- The 32-bit fixed-width codec and the `InternalKey` holder: only easy members beside the 64-bit codec and the functions on bytes.
- `EscapeString`, `ConsumeChar`, the debug strings, `Status`, the base iterator's cleanup lists and the empty iterator.
- Arena, Random and reference counts: allocation is `new`, the random draw is any value.
- Files, directories, locks, clocks and thread start in the environment, the logger, the Snappy and profiling stubs, and the Windows primitives under `Mutex` and `AtomicPointer`.
