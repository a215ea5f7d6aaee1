# Verification of the transparent relay cache

A Dafny 4.11 model of the parts of this Nostr relay cache whose correctness rests on more than one
function, with machine-checked proofs. `dafny verify dfyconfig.toml` checks everything.

- **Queries** (`Order`, `Events`, `FilterUtils`, `FilterLaws`, `TagIndex`, `TagIndexLaws`, `IndexKeys`,
  `DexieQuery`, `SqliteQuery`, `ReadersAgree`).
  A NIP-01 filter is answered through an index planner with early-stopping descending cursors in the
  browser and through narrowed SQL on the server. Both equal one specification: keep the matching
  rows, sort newest first with ties to the lowest id, cut. A table is a set of rows with distinct ids;
  an index lists them under IndexedDB keys, and a key range is walked backwards in key order.
- **Upstream** (`Coordinator*`, `Pool*`). The coordinator and the pool are state machines over every
  order of REQ, CLOSE, disconnect, upstream event, EOSE, timeout, promise and microtask steps. A
  subscription's promise chain is a queue of links; the EOSE reaction is the link it was captured at.
- **Storage** (`Replaceable`, `EventStore`, `StorageLaws`, `Deletion`, `Eviction*`, `StorageObject`). NIP-01
  replacement, NIP-09 deletion and prioritised eviction over runs of any length.
- **Reply tree** (`Reply*`). Untrusted parent pointers, cycles included, grown breadth-first under two caps.
- **NIP-19** (`Words`, `Checksum`, `Regroup`, `Bech32*`, `Nip19*`). The checksum of BIP-173 ("Bech32")
  on 32-bit words, regrouping through an accumulator that wraps at 32 bits, and the TLV entities of
  NIP-19 ("Shareable identifiers with extra metadata").
- **Smaller protocols** (`RelayHost*`, `Narrowing*`, `ReqHandling`, `Timeline`, `ContentParts`,
  `ContentScan`, `ScanLaws`, `Lifting*`, `Segments`, `SegmentMedia`, `SegmentLaws`).

Methods are tied to specification functions. What those functions mean is stated once more in the
fields of events, tags, rows, steps and parts alone, in `FilterLaws`, `TagIndexLaws`, `ReplyParents`,
`CoordinatorDelivery`, `PoolAnswers`, `StorageLaws`, `EvictionLaws`, `NarrowingLaws`, `Nip19Laws`,
`Bech32Laws`, `ScanLaws`, `LiftingLaws`, `SegmentLaws` and `RelayHostSessions`.

Classes carry the fields the source's classes update. Their methods are proved equal to steps of the
state machines, whose runs the theorems are about. Assumptions taken from the source's design: an
event id is the hash of its content, so equal ids mean equal events (`DistinctIds`), ids and keys are
compared code unit by code unit (`StrLess`), and timestamps are integers.

Where the code and its documentation part ways:

- `reply-tree.ts` says the counting loop "cannot loop". It does when the root key hangs below
  itself, and then the whole builder does not return: `ReplyResult.EndsOffCycles` and
  `ReplyResult.BuilderEnds` give the exact condition. It takes a delivered event whose id is no hash
  but spells the coordinate of the addressable post (`ReplyResult.CoordinateCycle`, for every
  coordinate); with ids that look like hashes, as NIP-01 has them, every thread ends
  (`ReplyResult.HashIdsEnd`).
- A row with more than 100 indexable tags can match a filter and still be missed
  (`TagIndex.CrowdedOutOfTheIndex`). The reader's theorem is stated over the rows its plan reaches,
  and `DexieQuery.PlanReachesExactly` and `TagIndexLaws.ReachedExactlyWhen` say which matching rows those are.
- `markDelivered` is said to make the upstream echo of an id be dropped. It does not when the id is
  the oldest of a window already over its cap, as a large seed leaves it: adding the id again evicts
  it. `CoordinatorDelivery.MarkedIsKnown` gives the exact condition.

## Model

| member | source | states |
|---|---|---|
| `DexieQuery.QueryEvents` | packages/cache-relay/src/storage/dexie/query.ts:346-373 | The planned, early-stopping read answers a limited filter with the newest `limit` of all rows its plan can reach, in (created_at descending, id ascending) order, and an unlimited one with exactly those rows; with every row fully indexed, those are all matching rows. |
| `DexieQuery.ReadNewest` | packages/cache-relay/src/storage/dexie/query.ts:312-334 | Walking an index backwards, the loop that stops past a boundary timestamp returns the first `limit` matches together with every further match of the boundary's timestamp, and nothing else. |
| `IndexKeys.RangeIsWanted` | packages/cache-relay/src/storage/dexie/query.ts:161-196 | Under IndexedDB's comparison of compound keys, the inclusive range between `minKey` and `maxKey` ends holds exactly the rows of the kind, author and time range it is opened for. |
| `IndexKeys.CursorDescends` | packages/cache-relay/src/storage/dexie/query.ts:161-196 | Inside such a range, the index walked backwards is newest first, equal timestamps by descending id. |
| `DexieQuery.WalkIsNewestFirst` | packages/cache-relay/src/storage/dexie/query.ts:161-196 | A cursor's walk delivers the covered rows, each once, newest first. |
| `DexieQuery.StopIsComplete` | packages/cache-relay/src/storage/dexie/query.ts:320-330 | Stopping at the first strictly older row misses no match of the boundary's timestamp. |
| `DexieQuery.MergedCursors` | packages/cache-relay/src/storage/dexie/query.ts:357-365 | Merging the disjoint cursors' partial reads, sorting and cutting gives the newest of everything they reach between them. |
| `DexieQuery.CursorsAreDisjoint` | packages/cache-relay/src/storage/dexie/query.ts:210-259 | No row lies in the key ranges of two cursors a plan opens. |
| `DexieQuery.PlanReachesExactly` | packages/cache-relay/src/storage/dexie/query.ts:210-259 | A matching row is reached by the chosen plan, whatever its mode, if and only if the plan is no tag lookup or the tag index lists the row. |
| `DexieQuery.PlanReachesMatches` | packages/cache-relay/src/storage/dexie/query.ts:71-135 | A fully indexed matching row is always reached. |
| `FilterUtils.CapIsNewest` | packages/cache-relay/src/utils/filter-utils.ts:99-115 | On distinct rows, the stable sort cut to `limit` is the first `limit` of the rows in NIP-01 order. |
| `FilterLaws.NothingAsked` | packages/cache-relay/src/utils/filter-utils.ts:35-73 | A filter without conditions matches every row. |
| `FilterLaws.FieldsNarrow` | packages/cache-relay/src/utils/filter-utils.ts:35-56 | Ids, authors and kinds keep the rows that carry one of those listed; `since` and `until` include their ends. |
| `FilterLaws.TagsNarrow` | packages/cache-relay/src/utils/filter-utils.ts:58-70 | One more tag condition intersects the matches. |
| `FilterLaws.AlternativesUnite` | packages/cache-relay/src/utils/filter-utils.ts:58-70 | The values under one `#x` key are alternatives: two lists together match the union of what each matches. |
| `FilterLaws.OneValueAsked` | packages/cache-relay/src/utils/filter-utils.ts:59-68 | A condition of one value is met exactly by a row with a tag of that name and that second element; a condition of no value by none. |
| `FilterLaws.OddConditionsMatchNothing` | packages/server/src/storage/sqlite/query.ts:73-139 | A key that is no single letter, a condition that is no list, or a value that is empty or no text: no row matches. |
| `FilterLaws.StrLessMeans` | packages/cache-relay/src/utils/filter-utils.ts:99-103 | Ids are compared at the first place they part: the smaller code unit, or the end of the shorter one. |
| `FilterLaws.AnswerOrder` | packages/cache-relay/src/utils/filter-utils.ts:99-103 | In an answer later rows come first, and of equal times the one with the lower id. |
| `FilterLaws.AnswerIsTheTop` | packages/cache-relay/src/utils/filter-utils.ts:113-115 | An answer is as long as the limit and the matches allow, holds no row twice, and whatever it leaves out comes after all of it. |
| `FilterLaws.AnswersOfAlternatives` | packages/cache-relay/src/utils/filter-utils.ts:58-115 | The readers' answer to two alternative lists is their answers to each, merged and cut. |
| `FilterUtils.NormalizeLimit` | packages/cache-relay/src/utils/filter-utils.ts:87-92 | No limit exactly for a missing, NaN or infinite one; otherwise the floor, never below zero. |
| `TagIndex.MatchIsFoundByTags` | packages/cache-relay/src/storage/dexie/tag-index.ts:34-53 | A matching row with at most 100 indexable tags is found by a lookup of the filter's tag values. |
| `TagIndex.CrowdedOutOfTheIndex` | packages/cache-relay/src/storage/dexie/tag-index.ts:39-41 | A concrete row with 101 indexable tags matches a filter whose index lookup does not find it. |
| `TagIndexLaws.ListedExactly` | packages/cache-relay/src/storage/dexie/tag-index.ts:12-44 | A row is listed under exactly the names and values of its indexable tags that rank below a hundred, where the nine preferred names rank before all others and tags alike in that as written. |
| `TagIndexLaws.NothingCutOff` | packages/cache-relay/src/storage/dexie/tag-index.ts:34-44 | A row is fully indexed exactly when at most a hundred of its tags are indexable. |
| `TagIndexLaws.ReachedExactlyWhen` | packages/cache-relay/src/storage/dexie/tag-index.ts:12-53 | A filter's tag lookup reaches a row exactly through a tag some condition asks for and that ranks below a hundred. |
| `SqliteQuery.QueryEvents` | packages/server/src/storage/sqlite/query.ts:149-174 | The SQL reader answers a limited filter with the newest `limit` of the rows its conditions select; with every row fully indexed, of all matching rows. |
| `SqliteQuery.NarrowingKeepsMatches` | packages/server/src/storage/sqlite/query.ts:73-139 | The SQL conditions never exclude a fully indexed matching row. |
| `SqliteQuery.CompleteNarrowing` | packages/server/src/storage/sqlite/query.ts:73-139 | When the builder reports its conditions complete, either they select exactly the rows the row check passes, or no row at all matches the filter. |
| `SqliteQuery.PushedLimit` | packages/server/src/storage/sqlite/query.ts:149-174 | Pushing `LIMIT` into SQL changes no answer when the conditions are complete. |
| `ReadersAgree.ReadBoth` | packages/server/src/storage/sqlite/query.ts:149-174 | Over one table both readers return the same sequence for a limited filter and the same set for an unlimited one. |
| `Checksum.ComputePolymod` | packages/shared/src/utils/nip19.ts:23-35 | The loop computes the checksum polynomial, one generator per set bit. |
| `Checksum.StepIsLinear` | packages/shared/src/utils/nip19.ts:23-35 | One step is linear over xor. |
| `Checksum.FoldIsBounded` | packages/shared/src/utils/nip19.ts:23-35 | The checksum state stays below 2^30. |
| `Checksum.FoldIsLinear` | packages/shared/src/utils/nip19.ts:23-35 | The checksum of a word-wise xor is the xor of the checksums, so errors add up. |
| `Checksum.StepFacts` | packages/shared/src/utils/nip19.ts:23-35 | A step keeps states below 2^30, folds only the zero state to zero, and feeds nothing back below 2^25. |
| `Checksum.StepIsInjective` | packages/shared/src/utils/nip19.ts:23-35 | Different states below 2^30 stay different under one input value. |
| `Checksum.WindowOfSix` | packages/shared/src/utils/nip19.ts:23-35 | Two word lists that agree outside six consecutive positions and check alike are equal. |
| `Regroup.ConvertWordsToBytes` | packages/shared/src/utils/nip19.ts:50-67 | Although the accumulator wraps at 32 bits, the loop yields the bytes whose bits are the words' bits less fewer than five zero bits of padding, and fails exactly when there are none. |
| `Regroup.ConvertBytesToWords` | e2e/src/test-events.ts:65-83 | The encoder's loop yields five-bit words whose bits are the bytes' bits, padded with zeros. |
| `Regroup.SameBytes` | packages/shared/src/utils/nip19.ts:50-67 | Words regroup into at most one byte string. |
| `Regroup.SameWords` | e2e/src/test-events.ts:65-83 | A byte string is carried by exactly one list of words. |
| `Bech32.DecodeBech32` | packages/shared/src/utils/nip19.ts:83-118 | The decoder's branches, in order, with each rejection's reason, under whatever `toLowerCase` and `toUpperCase` make of the input. |
| `Bech32.Bech32Encode` | e2e/src/test-events.ts:65-83 | The encoder writes prefix, separator, the regrouped words and their checksum. |
| `Bech32.TailCompletes` | e2e/src/test-events.ts:65-83 | The six checksum characters bring the whole string's checksum to one. |
| `Bech32.RoundTrip` | packages/shared/src/utils/nip19.ts:83-118 | Decoding an encoding gives back the prefix and the bytes, when the prefix is not empty and the encoding is its own lower case and within the length cap. |
| `Bech32.RoundTripExactly` | packages/shared/src/utils/nip19.ts:83-118 | Those conditions are exact: an encoding decodes to what was encoded if and only if they hold. |
| `Bech32.EncodingIsLower` | packages/shared/src/utils/nip19.ts:83-118 | Under a prefix of ASCII characters without upper case, every encoding is its own lower case. |
| `Bech32.AcceptedIsEncoding` | packages/shared/src/utils/nip19.ts:83-118 | Whatever the decoder accepts has for its lower case the encoding of what is returned: an accepted payload re-encodes to the same words. |
| `Bech32.OnlyTail` | packages/shared/src/utils/nip19.ts:110 | For given words there is exactly one checksum tail the decoder accepts. |
| `Bech32.DetectsBursts` | packages/shared/src/utils/nip19.ts:83-118 | Two accepted strings of one prefix whose lower cases have one length and differ only inside six consecutive characters have the same lower case. |
| `Bech32Laws.MixedCaseIsRefused` | packages/shared/src/utils/nip19.ts:84-89 | A string with letters of both cases is refused, as mixed case when its length is in order. |
| `Bech32Laws.CaseMakesNoDifference` | packages/shared/src/utils/nip19.ts:87-90 | All capitals decode like all small letters. |
| `Bech32Laws.AlphabetIs` | packages/shared/src/utils/nip19.ts:10 | The 32 characters and their values, both ways. |
| `Bech32Laws.DecodesByParts` | packages/shared/src/utils/nip19.ts:91-118 | The last `1` of a lower-case string separates prefix and data. |
| `Bech32Laws.ListedExample` | packages/shared/src/utils/nip19.ts:83-118 | `A12UEL5L`, listed as valid in BIP-173, decodes to the prefix `a` and no bytes, in either case. |
| `Nip19.ParseTlv` | packages/shared/src/utils/nip19.ts:238-262 | The byte loop yields the entries, grouped by type in order, or nothing when a length runs past the end. |
| `Nip19.ParseFlattened` | packages/shared/src/utils/nip19.ts:238-262 | Parsing written TLV entries gives them back. |
| `Nip19.FlattenParsed` | packages/shared/src/utils/nip19.ts:238-262 | Whatever parses is the written form of what it parsed to. |
| `Nip19.KindRoundTrip` | packages/shared/src/utils/nip19.ts:270-276 | Four big-endian bytes read back as the kind modulo 2^32, through a signed 32-bit `or` chain. |
| `Nip19.DecodeNip19` | packages/shared/src/utils/nip19.ts:286-344 | The entity a string decodes to, per prefix, with secret keys refused first. |
| `Nip19.NaddrRoundTrip` | e2e/src/test-events.ts:101-125 | A coordinate written as `naddr1…` decodes to itself at byte level, for every identifier a TLV length byte can measure. |
| `Nip19.NoLongIdentifier` | packages/shared/src/utils/nip19.ts:238-262 | No string decodes to a coordinate with an identifier of 256 bytes or more. |
| `Nip19.NoteRoundTrip` | e2e/src/test-events.ts:90-92 | An event id written as `note1…` decodes to itself. |
| `Nip19Laws.NpubRoundTrip` | packages/shared/src/utils/nip19.ts:296-298 | A public key written as `npub1…` decodes to exactly that key. |
| `Nip19Laws.WrongLengthIsRefused` | packages/shared/src/utils/nip19.ts:296-301 | An `npub1…` or `note1…` payload that is not 32 bytes decodes to nothing. |
| `Nip19Laws.SecretsAreRefused` | packages/shared/src/utils/nip19.ts:287-289 | Nothing that starts with `nsec1`, in any case, decodes. |
| `Nip19Laws.OtherPrefixesAreRefused` | packages/shared/src/utils/nip19.ts:296-304 | Only the five prefixes decode. |
| `Nip19Laws.NeventDecodes` | packages/shared/src/utils/nip19.ts:306-331 | An `nevent1…` string is its first 32-byte id with the first 32-byte author and four-byte kind, where given; without such an id it is nothing. |
| `Nip19Laws.NprofileDecodes` | packages/shared/src/utils/nip19.ts:306-317 | An `nprofile1…` string is its first key, or nothing when that is not 32 bytes. |
| `Nip19Laws.NaddrDecodes` | packages/shared/src/utils/nip19.ts:333-343 | An `naddr1…` string needs identifier, author and kind, and is exactly these. |
| `Nip19Laws.NeventRoundTrip` | packages/shared/src/utils/nip19.ts:318-331 | An event id with any relays and optional author and kind, written as `nevent1…`, decodes to exactly these, the kind modulo 2^32. |
| `Nip19Laws.NprofileRoundTrip` | packages/shared/src/utils/nip19.ts:314-317 | A public key with any relays, written as `nprofile1…`, decodes to exactly that key. |
| `ReplyTree.Descendants` | packages/timeline-embed/src/lib/reply-tree.ts:248-258 | The stack loop ends and counts exactly the replies whose chain of parents passes through the key, when the key does not hang below itself. |
| `ReplyGraph.BelowIsWeight` | packages/timeline-embed/src/lib/reply-tree.ts:248-258 | What hangs below a key is its children and what hangs below each, counted once. |
| `ReplyTree.Kept` | packages/timeline-embed/src/lib/reply-tree.ts:204-211 | One reply per id, all of them replies of the delivery, none missing. |
| `ReplyIndex.CollectReplies` | packages/timeline-embed/src/lib/reply-tree.ts:204-211 | The loop keeps the first copy of each id. |
| `ReplyIndex.GroupByParent` | packages/timeline-embed/src/lib/reply-tree.ts:213-224 | Every reply with a parent is filed once, under that parent's key. |
| `ReplyIndex.SortedGroups` | packages/timeline-embed/src/lib/reply-tree.ts:226-228 | Each sorted list is the set of replies naming that key, oldest first, ties by id: arrival order leaves no trace. |
| `ReplyBuild.CountSkipped` | packages/timeline-embed/src/lib/reply-tree.ts:267-276 | Skipping children charges each of them with its whole subtree. |
| `ReplyBuild.PlaceChildren` | packages/timeline-embed/src/lib/reply-tree.ts:292-302 | Children are placed one by one, oldest first, while both caps allow. |
| `ReplyBuild.FileSlot` | packages/timeline-embed/src/lib/reply-tree.ts:283-303 | Filing a slot places as many children as both caps leave room for and charges the rest to their owner and to `hidden`. |
| `ReplyTheorems.ChildIsNew` | packages/timeline-embed/src/lib/reply-tree.ts:280-305 | No child of a slot still to be filed has been placed before, whatever cycles the input holds. |
| `ReplyTheorems.StaysBalanced` | packages/timeline-embed/src/lib/reply-tree.ts:267-305 | Filing a slot conserves placed plus hidden plus what waits below the remaining slots. |
| `ReplyThread.Grow` | packages/timeline-embed/src/lib/reply-tree.ts:280-305 | The breadth-first walk ends with every part of the invariant and nothing waiting. |
| `ReplyThread.StaysShallowFirst` | packages/timeline-embed/src/lib/reply-tree.ts:280-305 | At every turn, each connected reply within the depth cap is placed, led to by a waiting slot, or behind a spent node cap with nothing placed deeper than it. |
| `ReplyResult.BuildReplyTree` | packages/timeline-embed/src/lib/reply-tree.ts:188-316 | Kept replies split exactly into placed, hidden and orphans, and the clamp at zero is never active; every node is placed once, under its parent, at its distance from the root, within both caps; each child list is a prefix of that key's replies, oldest first, with `hiddenChildren` the remainder. |
| `ReplyResult.HiddenIsUnplaced` | packages/timeline-embed/src/lib/reply-tree.ts:267-276 | `hidden` counts exactly the connected replies that are not placed. |
| `ReplyResult.NodeIsKept` | packages/timeline-embed/src/lib/reply-tree.ts:297-301 | Every placed node carries the kept copy of its reply. |
| `ReplyResult.LeftOutOnlyWhenSpent` | packages/timeline-embed/src/lib/reply-tree.ts:278-305 | A connected reply at depth d within the cap is unplaced only if the node cap is spent and nothing placed is deeper than d. |
| `ReplyResult.EndsOffCycles` | packages/timeline-embed/src/lib/reply-tree.ts:244-258 | The stack loop ends if and only if its key does not hang below itself. |
| `ReplyResult.BuilderEnds` | packages/timeline-embed/src/lib/reply-tree.ts:244-305 | For every delivery and under any caps, the builder ends if and only if the root does not hang below itself: the walk files finitely many slots, and past a cap a cyclic one skips a child whose counting is endless. |
| `ReplyResult.FilingIsStep` | packages/timeline-embed/src/lib/reply-tree.ts:280-305 | Filing a slot is one step of the walk that theorem is about. |
| `ReplyResult.StuckSlot` | packages/timeline-embed/src/lib/reply-tree.ts:267-305 | A slot that hangs below itself is filed only by opening another such slot, unless counting below a skipped child never ends. |
| `ReplyResult.RootOffCycle` | packages/timeline-embed/src/lib/reply-tree.ts:196-211 | A root that is no kept reply's id does not hang below itself. |
| `ReplyResult.PlainPostEnds` | packages/timeline-embed/src/lib/reply-tree.ts:92-97 | A post addressed by id never hangs below itself, so its thread always ends. |
| `ReplyResult.HashIdsEnd` | packages/timeline-embed/src/lib/reply-tree.ts:196-211 | When every delivered id is 64 lower-case hex digits, no root hangs below itself: no coordinate is such an id. |
| `ReplyResult.CoordinateCycle` | packages/timeline-embed/src/lib/reply-tree.ts:244-258 | For every coordinate and under any caps, one reply whose id spells the coordinate it answers makes the count endless and the builder with it: the comment's promise fails there. |
| `ReplyResult.DeliveryHasThread` | packages/timeline-embed/src/lib/reply-tree.ts:188-228 | Every delivery spells out one index of parents and sorted children, cycles or not, so the statements above are about every delivery. |
| `ReplyResult.AcceptanceIsMonotone` | packages/timeline-embed/src/lib/reply-tree.ts:118-129 | A reply accepted on delivery stays acceptable as more replies are held. |
| `ReplyResult.ConnectedIsAccepted` | packages/timeline-embed/src/lib/reply-tree.ts:118-129 | The delivery gate drops nothing the tree would place once its thread is held. |
| `ReplyParents.KeptAre` | packages/timeline-embed/src/lib/reply-tree.ts:92-97 | Kept ids are those of kind 1 events other than the post that name some parent. |
| `ReplyParents.FirstCopyIsKept` | packages/timeline-embed/src/lib/reply-tree.ts:204-211 | Of several copies of one id the first delivered is kept. |
| `ReplyParents.RootIs` | packages/timeline-embed/src/lib/reply-tree.ts:196 | The root key is the post's coordinate, or its id when it has none. |
| `ReplyParents.UnderTheReplyNamed` | packages/timeline-embed/src/lib/reply-tree.ts:167-169 | A kept reply whose `e` parent is another kept reply hangs under it, whatever coordinate it names besides. |
| `ReplyParents.UnderThePostNamed` | packages/timeline-embed/src/lib/reply-tree.ts:170-179 | A reply whose `e` parent is the root key hangs under the root. |
| `ReplyParents.UnderTheCoordinateNamed` | packages/timeline-embed/src/lib/reply-tree.ts:170-176 | A reply naming the post's coordinate hangs under it when it names no event, or the post's own event id. |
| `ReplyParents.NowhereBelow` | packages/timeline-embed/src/lib/reply-tree.ts:147-179 | A reply whose `e` parent is itself, or is neither kept nor a name of the post, is nowhere below the root; an absent parent is not replaced by the post. |
| `ReplyParents.GateIs` | packages/timeline-embed/src/lib/reply-tree.ts:118-129 | The gate on delivery accepts a reply exactly when it names a held reply or, in one of those ways, the post. |
| `ReplyParents.OwnerIsNamed` | packages/timeline-embed/src/lib/reply-tree.ts:280-305 | A node whose reply names another kept reply is a child of that reply's node, one level down; every other node is a direct reply at depth one. |
| `ReplyParents.PlacedByItsChain` | packages/timeline-embed/src/lib/reply-tree.ts:188-316 | With room under the node cap, a reply `n` answers away from the post is placed at depth `n`, if the depth cap allows. |
| `ReplyParents.SiblingsInOrder` | packages/timeline-embed/src/lib/reply-tree.ts:132-134 | Siblings stand oldest first, of equal times the lower id first. |
| `ReplyParents.RootsInOrder` | packages/timeline-embed/src/lib/reply-tree.ts:132-134 | So do direct replies. |
| `CoordinatorRuns.EveryRunKeepsInv` | packages/cache-relay/src/upstream/upstream-coordinator.ts:83-341 | Over every sequence of client, upstream, timer and promise steps, the coordinator's invariant holds. |
| `CoordinatorTheorems.AtMostOneEose` | packages/cache-relay/src/upstream/upstream-coordinator.ts:300-316 | Each subscription sends its client at most one EOSE. |
| `CoordinatorTheorems.EoseInItsPlace` | packages/cache-relay/src/upstream/upstream-coordinator.ts:300-316 | An event goes out before the EOSE exactly when it was queued before the EOSE was released; everything queued earlier has settled by then. |
| `CoordinatorTheorems.DeliveriesInOrder` | packages/cache-relay/src/upstream/upstream-coordinator.ts:225-260 | Messages of one subscription follow the order their causes were queued in, each at most once. |
| `CoordinatorTheorems.EoseIsNotLost` | packages/cache-relay/src/upstream/upstream-coordinator.ts:151-316 | An open subscription either holds an armed timeout or has released its EOSE, which is out once everything queued before it has settled. |
| `CoordinatorTheorems.StepSendsToListeners` | packages/cache-relay/src/upstream/upstream-coordinator.ts:228-313 | Each step sends at most one message, and only for the subscription its client currently listens through. |
| `CoordinatorTheorems.NothingAfterClose` | packages/cache-relay/src/upstream/upstream-coordinator.ts:159-173 | Once closed, a subscription sends nothing ever again, pending ingests and a pending EOSE included. |
| `CoordinatorTheorems.WhatCloses` | packages/cache-relay/src/upstream/upstream-coordinator.ts:111-185 | A CLOSE, a reused id, a disconnect and a shutdown each leave the old subscription closed. |
| `CoordinatorTheorems.RedeliveredOnlyIfPushedOut` | packages/cache-relay/src/upstream/upstream-coordinator.ts:215-328 | An event id is delivered twice only if as many other ids as the cap entered the dedup set behind it. |
| `CoordinatorTheorems.SeedRedeliveredOnlyIfPushedOut` | packages/cache-relay/src/upstream/upstream-coordinator.ts:138-156 | The same for ids seeded from local storage. |
| `CoordinatorTheorems.KnownIdOnlyIfPushedOut` | packages/cache-relay/src/upstream/upstream-coordinator.ts:200-328 | The same for any id that entered the set, local broadcasts included, before the event's ingest began. |
| `CoordinatorTheorems.WindowBounded` | packages/cache-relay/src/upstream/upstream-coordinator.ts:319-328 | The dedup set never outgrows the larger of the cap and the seed. |
| `CoordinatorTheorems.PoolHoldsWhatClientsHold` | packages/cache-relay/src/upstream/upstream-coordinator.ts:129-185 | Exactly the subscriptions some client listens through are open at the pool. |
| `CoordinatorDelivery.AcceptedIsDelivered` | packages/cache-relay/src/upstream/upstream-coordinator.ts:215-260 | In every run: an event that arrives for an open subscription with an id it does not hold, whose turn finds the id still not held, and whose ingest succeeds unsuperseded while it is open, is on the wire from there on. |
| `CoordinatorDelivery.NothingElseIsDelivered` | packages/cache-relay/src/upstream/upstream-coordinator.ts:234-251 | An ingest that throws, is refused, brought a superseded version or settles after a close adds nothing to the wire. |
| `CoordinatorDelivery.WhoSends` | packages/cache-relay/src/upstream/upstream-coordinator.ts:225-316 | Events go out only when an ingest settles, EOSE only when its link is reached. |
| `CoordinatorDelivery.ArrivalIsQueued` | packages/cache-relay/src/upstream/upstream-coordinator.ts:215-225 | An event with an unknown id becomes the next link of its open subscription. |
| `CoordinatorDelivery.LinksSettle` | packages/cache-relay/src/upstream/upstream-coordinator.ts:225-260 | The next link settles on its turn or awaits its ingest, and an awaited ingest settles with it. |
| `CoordinatorDelivery.EoseGoesOut` | packages/cache-relay/src/upstream/upstream-coordinator.ts:277-316 | In every run: once an open subscription is told EOSE or times out, and everything queued by then has settled, its EOSE is on the wire. |
| `CoordinatorDelivery.OpensAfresh` | packages/cache-relay/src/upstream/upstream-coordinator.ts:129-156 | A REQ leaves a new open subscription, routed and held by the pool, that knows every id sent from local storage. |
| `CoordinatorDelivery.MarkedIsKnown` | packages/cache-relay/src/upstream/upstream-coordinator.ts:200-224 | Exactly when a marked id is known afterwards, so that its upstream echo changes nothing. |
| `CoordinatorObject.UpstreamCoordinator.OpenForSubscription` | packages/cache-relay/src/upstream/upstream-coordinator.ts:129-156 | The method is the machine's open step: the old subscription closed, a fresh one seeded and routed. |
| `CoordinatorObject.UpstreamCoordinator.CloseForSubscription` | packages/cache-relay/src/upstream/upstream-coordinator.ts:159-173 | The method is the machine's close step. |
| `CoordinatorObject.UpstreamCoordinator.CloseAllForClient` | packages/cache-relay/src/upstream/upstream-coordinator.ts:176-185 | Closing one by one closes exactly the client's subscriptions. |
| `CoordinatorObject.UpstreamCoordinator.MarkDelivered` | packages/cache-relay/src/upstream/upstream-coordinator.ts:200-209 | The id enters the window of the subscription the client listens through, if any. |
| `CoordinatorObject.UpstreamCoordinator.HandleUpstreamEvent` | packages/cache-relay/src/upstream/upstream-coordinator.ts:215-227 | Unknown subscriptions and known ids are dropped; anything else joins the chain. |
| `CoordinatorObject.UpstreamCoordinator.FlushEose` | packages/cache-relay/src/upstream/upstream-coordinator.ts:300-316 | The release joins the chain as it stands, once. |
| `CoordinatorObject.UpstreamCoordinator.RunTask` | packages/cache-relay/src/upstream/upstream-coordinator.ts:225-236 | The next link starts: EOSE, drop, or an awaited ingest. |
| `CoordinatorObject.UpstreamCoordinator.FinishIngest` | packages/cache-relay/src/upstream/upstream-coordinator.ts:234-259 | A resolved ingest delivers, only records, or drops. |
| `CoordinatorObject.UpstreamCoordinator.AddId` | packages/cache-relay/src/upstream/upstream-coordinator.ts:319-328 | Adding an id evicts the oldest above the cap. |
| `CoordinatorObject.UpstreamCoordinator.Stop` | packages/cache-relay/src/upstream/upstream-coordinator.ts:111-121 | Every subscription is closed and forgotten. |
| `Pool.FiresAtMostOnce` | packages/cache-relay/src/upstream/upstream-relay-pool.ts:303-307 | Each opening fires its aggregated EOSE at most once in any run. |
| `Pool.FiresExactlyWhenAllGone` | packages/cache-relay/src/upstream/upstream-relay-pool.ts:116-307 | While not closed or replaced, an opening with a non-empty snapshot has fired exactly when every relay of the snapshot has answered or left. |
| `Pool.NothingStalls` | packages/cache-relay/src/upstream/upstream-relay-pool.ts:141-151 | An entry nobody owes an answer has its own microtask queued, and that one fires it. |
| `Pool.StaleMicrotaskIsSilent` | packages/cache-relay/src/upstream/upstream-relay-pool.ts:145-151 | A microtask whose opening was replaced, closed or answered fires nothing. |
| `Pool.DroppedNeverFires` | packages/cache-relay/src/upstream/upstream-relay-pool.ts:154-159 | What was closed, replaced or stopped never fires, however the run goes on. |
| `Pool.ReuseInOneTick` | packages/cache-relay/src/upstream/upstream-relay-pool.ts:121-151 | Reusing an id drops the first opening and leaves the second live. |
| `Pool.StepKeepsInv` | packages/cache-relay/src/upstream/upstream-relay-pool.ts:80-307 | Every step keeps: a live entry waits for exactly the relays that still owe it an answer. |
| `Pool.WireIdReverses` | packages/cache-relay/src/upstream/upstream-relay-pool.ts:33-37 | The wire id determines the subscription id, and only its own. |
| `PoolAnswers.FiresWhenAllAnswered` | packages/cache-relay/src/upstream/upstream-relay-pool.ts:116-307 | In every run, read off its steps: until a close, reuse or stop, an opening with relays connected has fired if and only if each of them has since sent EOSE for it or left `connected`. |
| `PoolAnswers.FiresOnItsMicrotask` | packages/cache-relay/src/upstream/upstream-relay-pool.ts:141-151 | With nobody to wait for, an opening does not fire at once, and has fired when the microtasks queued up to then have run. |
| `PoolAnswers.EndedNeverFires` | packages/cache-relay/src/upstream/upstream-relay-pool.ts:116-159 | An opening that has not fired when its id is closed, reused or the pool stops never fires. |
| `PoolAnswers.SubscribedWhileOpen` | packages/cache-relay/src/upstream/upstream-relay-pool.ts:128-159 | An id opened with filters stays subscribed until it is closed, reused or the pool stops, and no longer. |
| `PoolObject.UpstreamRelayPool.OpenSubscription` | packages/cache-relay/src/upstream/upstream-relay-pool.ts:116-152 | The method is the machine's open step. |
| `PoolObject.UpstreamRelayPool.CloseSubscription` | packages/cache-relay/src/upstream/upstream-relay-pool.ts:154-159 | The method is the machine's close step. |
| `PoolObject.UpstreamRelayPool.HandleRelayEose` | packages/cache-relay/src/upstream/upstream-relay-pool.ts:289-300 | One relay struck from one pending set, firing when it empties. |
| `PoolObject.UpstreamRelayPool.HandleConnectionState` | packages/cache-relay/src/upstream/upstream-relay-pool.ts:255-267 | The two loops strike the relay from every pending set and fire exactly the sets it completes. |
| `PoolObject.UpstreamRelayPool.FireEose` | packages/cache-relay/src/upstream/upstream-relay-pool.ts:303-307 | Fires only what is pending, and forgets it. |
| `PoolObject.UpstreamRelayPool.RunMicrotask` | packages/cache-relay/src/upstream/upstream-relay-pool.ts:141-151 | The queued guard fires only while its own pending set is still the id's. |
| `PoolObject.UpstreamRelayPool.Stop` | packages/cache-relay/src/upstream/upstream-relay-pool.ts:85-104 | Everything pending is dropped without firing. |
| `RelayHostRuns.StepKeepsInv` | packages/timeline-embed/src/lib/relay-host.ts:243-388 | Every step of every interleaving keeps the page's invariant. |
| `RelayHostRuns.OneEmulator` | packages/cache-relay/src/transport/web-socket-server-emulator.ts:55-101 | At most one emulator is started at a time, and what it saved is the page's own constructor. |
| `RelayHostRuns.GlobalIsOriginal` | packages/cache-relay/src/transport/web-socket-server-emulator.ts:55-101 | The global constructor is the page's own exactly when no emulator is started. |
| `RelayHostRuns.RestoredAtRest` | packages/timeline-embed/src/lib/relay-host.ts:320-388 | With nothing held, nothing in flight and no teardown pending, the page has its own `WebSocket` back. |
| `RelayHostRuns.HeldHostIsUp` | packages/timeline-embed/src/lib/relay-host.ts:346-388 | A held host is ready, patched over the page's own constructor, and the one later callers join. |
| `RelayHostRuns.RefCountIsClaims` | packages/timeline-embed/src/lib/relay-host.ts:346-373 | The count is exactly the number of callers waiting for or holding the host. |
| `RelayHostRuns.StartsAfterTeardown` | packages/timeline-embed/src/lib/relay-host.ts:323-344 | A new host starts only when every earlier one has failed or finished shutting down. |
| `RelayHostSessions.FirstCallerStarts` | packages/timeline-embed/src/lib/relay-host.ts:331-349 | With no relay up and none coming down, a caller starts one and holds the only reservation. |
| `RelayHostSessions.LaterCallersJoin` | packages/timeline-embed/src/lib/relay-host.ts:329-349 | While one is up or coming up, callers join it and none starts another. |
| `RelayHostSessions.CallersWaitForTeardown` | packages/timeline-embed/src/lib/relay-host.ts:325-327 | While one comes down, callers wait. |
| `RelayHostSessions.WaiterGoesOn` | packages/timeline-embed/src/lib/relay-host.ts:325-349 | A caller that waited starts a relay, or joins the one another waiter has started. |
| `RelayHostSessions.StartServes` | packages/timeline-embed/src/lib/relay-host.ts:320-366 | From rest, a start leaves its caller holding a relay patched over the page's own constructor. |
| `RelayHostSessions.ReleaseRestores` | packages/timeline-embed/src/lib/relay-host.ts:365-386 | The last release leads back to rest with the page's own constructor in place. |
| `RelayHostSessions.FailedStartRestores` | packages/timeline-embed/src/lib/relay-host.ts:243-257 | A start that fails turns its caller away and leaves the page at rest with its own constructor. |
| `RelayHostObject.HostPage.Acquire` | packages/timeline-embed/src/lib/relay-host.ts:320-349 | Join the running host, wait out a teardown, or start one; the reservation is synchronous. |
| `RelayHostObject.HostPage.Settle` | packages/timeline-embed/src/lib/relay-host.ts:351-360 | A rejected start gives the reservation back, the last one clearing the host; otherwise the caller holds it. The page's invariant stays. |
| `RelayHostObject.HostPage.Release` | packages/timeline-embed/src/lib/relay-host.ts:362-387 | Releasing twice does nothing; the last release publishes the teardown. |
| `RelayHostObject.HostPage.EmulatorStart` | packages/cache-relay/src/transport/web-socket-server-emulator.ts:55-83 | The constructor found is the page's own; it is saved and replaced. |
| `RelayHostObject.HostPage.EmulatorStop` | packages/cache-relay/src/transport/web-socket-server-emulator.ts:89-101 | What is put back, if anything was saved, is the page's own constructor. |
| `Replaceable.SelectCurrentVersion` | packages/cache-relay/src/event/replaceable.ts:77-85 | The loop picks the newest version, ties to the lowest id, whatever the order of the rows. |
| `Replaceable.LatestReplaceable` | packages/timeline-embed/src/lib/one-shot-request.ts:27-35 | The widget's loop picks that same version from any delivery order. |
| `Replaceable.WinnerOfOneMore` | packages/cache-relay/src/event/replaceable.ts:59-67 | One more version replaces the winner exactly when the winner does not supersede it. |
| `EventStore.StoreHoldsRetained` | packages/cache-relay/src/event/event-handler.ts:76-323 | Handling any events but deletion requests one at a time from an empty store leaves exactly: regular events, and per coordinate the newest storable version; never ephemeral ones. |
| `EventStore.OrderDoesNotMatter` | packages/cache-relay/src/event/event-handler.ts:265-323 | Two arrival orders of the same events leave the same table. |
| `EventStore.OneRowPerCoordinate` | packages/cache-relay/src/event/event-handler.ts:277-323 | Per coordinate storage holds one row, the version a reader of the deliveries would pick. |
| `StorageLaws.KindClasses` | packages/cache-relay/src/event/event-kind.ts:16-47 | The kind numbers of each class and that the classes do not meet. |
| `StorageLaws.FirstDTag` | packages/cache-relay/src/event/replaceable.ts:25-28 | The identifier is the value of the first tag named `d`; one without a value gives none. |
| `StorageLaws.NoDTag` | packages/cache-relay/src/event/replaceable.ts:25-28 | Without a tag named `d` there is no identifier. |
| `StorageLaws.SameCoordinate` | packages/cache-relay/src/event/replaceable.ts:38-44 | Two events share a coordinate when kind and author agree and, for addressable kinds, the identifiers, a missing one counting as empty. |
| `StorageLaws.WinnerIsNewest` | packages/cache-relay/src/event/replaceable.ts:59-85 | The winner is the version newer than every other, or as new with the lowest id. |
| `StorageLaws.SupersededExactlyWhen` | packages/cache-relay/src/event/replaceable.ts:59-67 | An event is turned away exactly when a row of its coordinate is newer, or as new with a lower id. |
| `StorageLaws.TableHoldsTheKept` | packages/cache-relay/src/event/event-handler.ts:76-323 | After any deliveries but deletion requests the table holds exactly: no ephemeral event, every regular one, each replaceable one that is the newest of its kind and author, each addressable one with a `d` that is the newest with that `d` too. |
| `StorageObject.EventTable.HandleEvent` | packages/cache-relay/src/event/event-handler.ts:76-186 | The pipeline's effect on the table and its result, for every kind, deletion requests included. |
| `StorageObject.EventTable.GetCurrentVersion` | packages/cache-relay/src/storage/dexie-storage.ts:179-187 | The stored winner of a coordinate, from rows in any order. |
| `StorageObject.EventTable.DeleteEventsByPubkeyAndKind` | packages/cache-relay/src/storage/dexie-storage.ts:386-398 | Exactly the rows of that author and kind go. |
| `StorageObject.EventTable.DeleteEventsByPubkeyKindAndDTag` | packages/cache-relay/src/storage/dexie-storage.ts:400-429 | Exactly the rows of that author, kind and written `d` value go. |
| `Deletion.ParseInvertsPrint` | packages/cache-relay/src/event/deletion.ts:74-99 | A text parses to a coordinate if and only if it is that coordinate printed, with a safe kind and a hex key; colons in the identifier included. |
| `Deletion.ParseDeletionRequest` | packages/cache-relay/src/event/deletion.ts:114-171 | The loop collects the first thousand distinct well-formed ids, and the requester's own coordinates likewise. |
| `Deletion.OnlyOwnAndNeverRequests` | packages/cache-relay/src/event/deletion.ts:114-171 | A target is always the requester's own event and never a deletion request. |
| `Deletion.DeletesExactlyTheNamed` | packages/cache-relay/src/event/deletion.ts:114-240 | A request deletes nothing its tags do not name and, within the caps, everything they do. |
| `Deletion.RequestsInAnyOrder` | packages/cache-relay/src/event/event-handler.ts:340-348 | Deletion requests, each saved and then applied, leave the same table in whatever order and however often they arrive. |
| `Deletion.Idempotent` | packages/cache-relay/src/event/deletion.ts:207-240 | Handling a request again, its save included, changes nothing. |
| `Deletion.Commute` | packages/cache-relay/src/event/deletion.ts:207-240 | Two requests, each saved before it is applied, leave the same table in either order. |
| `StorageObject.EventTable.ApplyDeletionRequest` | packages/cache-relay/src/event/deletion.ts:217-240 | Ids, then coordinates one by one, remove exactly the request's targets, and the count is the number removed. |
| `StorageObject.EventTable.DeleteEventsByIdsForPubkey` | packages/cache-relay/src/storage/dexie-storage.ts:440-456 | Exactly the author's named rows go, deletion requests excepted. |
| `StorageObject.EventTable.DeleteEventsByAddress` | packages/cache-relay/src/storage/dexie-storage.ts:466-489 | Exactly the coordinate's versions up to the given time go; nothing when the kind has no coordinate. |
| `StorageObject.EventTable.DeleteEventsByIdsInChunks` | packages/server/src/storage/sqlite-storage.ts:660-689 | The server's chunked deletion removes the same rows and counts the same. |
| `Eviction.CacheTable.EnforceLimit` | packages/cache-relay/src/storage/dexie/eviction.ts:44-102 | The two passes remove exactly the first rows in eviction order, as many as exceed the cap; nothing for a cap that is not positive. |
| `Eviction.CollectUnretained` | packages/cache-relay/src/storage/dexie/eviction.ts:66-71 | The filtered, limited walk takes the first non-retained rows. |
| `Eviction.VictimsComeFirst` | packages/cache-relay/src/storage/dexie/eviction.ts:14-43 | `maxSize` rows stay, and every victim comes before every survivor: no retained row goes while a non-retained one remains. |
| `Eviction.EvictionOrderIsRight` | packages/cache-relay/src/storage/dexie/eviction.ts:44-102 | Eviction order holds every row once, non-retained rows first, each part in strategy order. |
| `Eviction.AdaptersAgree` | packages/server/src/storage/sqlite-storage.ts:38-73 | Whatever rows the server's trim leaves are the rows the browser's passes leave, for FIFO, LRU and LFU. |
| `Eviction.EventsTable.EnforceLimit` | packages/server/src/storage/sqlite-storage.ts:520-566 | The two statements, over the SQL retention condition and over whatever is left, leave `maxSize` rows, every deleted row before every kept one in eviction order, and report how many went. |
| `Eviction.TrimmedIsUnique` | packages/server/src/storage/sqlite-storage.ts:507-519 | That promise leaves one possible table. |
| `Eviction.SameRetention` | packages/server/src/storage/sqlite-storage.ts:61-73 | The server's SQL condition retains exactly the rows the browser's matcher does. |
| `Eviction.VictimsAreDetermined` | packages/server/src/storage/sqlite-storage.ts:520-566 | Any two victim sets of one size that come before all survivors are equal. |
| `Eviction.SameOrder` | packages/server/src/storage/sqlite-storage.ts:42-46 | The index order on compound keys is the column-by-column `ORDER BY`. |
| `EvictionLaws.WhoGoes` | packages/cache-relay/src/storage/dexie/eviction.ts:14-102 | A table that fits stays; otherwise `maxSize` rows are left, a deletion request or prioritised row goes only when all left are such, and among rows alike in that the oldest, longest unused or least used go first, then the lowest id. |
| `EvictionLaws.BrowserTrims` | packages/cache-relay/src/storage/dexie/eviction.ts:44-102 | The browser's two passes make such a cut and report how many rows went. |
| `Narrowing.NarrowFiltersByIdCoverage` | packages/cache-relay/src/upstream/id-coverage.ts:65-71 | Exactly the filters whose ids were all delivered are withheld; a non-array `ids` never is. |
| `Narrowing.NarrowFiltersByFreshness` | packages/cache-relay/src/upstream/freshness.ts:128-160 | Exactly the eligible filters with every (kind, author) coordinate delivered fresh are withheld. |
| `Narrowing.FiltersForUpstream` | packages/cache-relay/src/upstream/freshness.ts:184-215 | The gate's shortcuts change no decision, and every failure forwards everything. |
| `Narrowing.WithheldIsProvenFresh` | packages/cache-relay/src/upstream/freshness.ts:57-73 | Each coordinate of a withheld filter was delivered with a finite, non-future cache time inside a finite, positive window, so anything malformed forwards. |
| `ReqHandling.AnswerReq` | packages/cache-relay/src/core/message-handler.ts:264-333 | Replay, the two narrowings and the choice between immediate EOSE and an upstream subscription. |
| `ReqHandling.WithheldExactlyWhen` | packages/cache-relay/src/core/message-handler.ts:299-319 | A filter of a REQ is withheld if and only if the delivered ids cover it or every coordinate was delivered fresh. |
| `NarrowingLaws.StaysHomeExactlyWhen` | packages/cache-relay/src/core/message-handler.ts:299-319 | A filter stays from upstream if and only if it lists ids that were all just sent, or it asks only for replaceable kinds with a window by named authors, without ids, times or tags, and for each kind and author an event was just sent whose cache time is at most the window ago and not in the future. |
| `ReqHandling.WithholdingIsUnobservable` | packages/cache-relay/src/core/message-handler.ts:296-333 | However the run goes on, an event answering an id-covered filter changes nothing on arrival, unless the cap's worth of other ids has pushed its id out of the dedup set. |
| `Timeline.InsertEvent` | packages/timeline-embed/src/lib/timeline-utils.ts:16-35 | The scan inserts before the first strictly older event, drops known ids and cuts at the cap. |
| `Timeline.FoldIsSortedCut` | packages/timeline-embed/src/lib/timeline-utils.ts:16-35 | Folding over any deliveries, repeats and returns of dropped events included, shows exactly the first `maxSize` of the stable newest-first sort by first arrival. |
| `ContentScan.ParseContent` | packages/timeline-embed/src/lib/content-parts.ts:287-348 | The parts cover the content end to end, each reads its own stretch, no two texts are adjacent, both caps hold, and every token met before the cap on parts becomes its part, in order, media past their cap as links. |
| `ContentScan.CoveringReadsAll` | packages/timeline-embed/src/lib/content-parts.ts:287-348 | Read one after the other, the stretches the parts cover are the content. |
| `ScanLaws.MatchBecomes` | packages/timeline-embed/src/lib/content-parts.ts:304-337 | A rejected match leaves no part, one of the first eight media URLs becomes an attachment, any other URL a link, a reference an entity, links and entities as written. |
| `ScanLaws.EightAttachments` | packages/timeline-embed/src/lib/content-parts.ts:320-324 | There are as many attachments as media URLs, up to eight. |
| `ContentParts.NormalizedIsTidy` | packages/timeline-embed/src/lib/content-parts.ts:368-389 | Normalising shows the same ink and items and leaves no empty text, no adjacent texts and no whitespace at the ends. |
| `ContentParts.Normalize` | packages/timeline-embed/src/lib/content-parts.ts:368-389 | The loops compute the normal form. |
| `Lifting.LiftParts` | packages/timeline-embed/src/lib/content-parts.ts:401-455 | The walk with its open gap computes the lifted parts. |
| `Lifting.LiftingKeepsTheRest` | packages/timeline-embed/src/lib/content-parts.ts:401-455 | Every part not lifted stays, in order, with all the ink between; nothing lifted, empty or adjacent remains. |
| `Lifting.LiftingIsIdempotent` | packages/timeline-embed/src/lib/content-parts.ts:401-455 | Lifting twice is lifting once. |
| `Lifting.HoleCloses` | packages/timeline-embed/src/lib/content-parts.ts:356-442 | A whole run of lifted parts leaves one separator, as wide as the whitespace around and inside it calls for. |
| `LiftingLaws.GapClosesTo` | packages/timeline-embed/src/lib/content-parts.ts:356-366 | A hole without whitespace closes tight, one without a newline to a space, one with a single newline to it, any other to one blank line. |
| `LiftingLaws.SeenIs` | packages/timeline-embed/src/lib/content-parts.ts:368-389 | What counts as seen: every item, and every character that is not whitespace, in the order written. |
| `LiftingLaws.ItemsLeft` | packages/timeline-embed/src/lib/content-parts.ts:401-455 | Of links, entities and attachments exactly those shown outside the text go. |
| `LiftingLaws.ShownInPlace` | packages/timeline-embed/src/lib/content-parts.ts:401-455 | Around any part, a lifted list shows what it shows of the parts before, the part unless it is shown outside the text, and what it shows of the parts after. |
| `Segments.SelectEmbeds` | packages/timeline-embed/src/lib/note-embeds.ts:106-128 | The first distinct references up to the cap of this depth, none at the deepest level. |
| `Segments.NoteSegments` | packages/timeline-embed/src/lib/note-embeds.ts:187-215 | Source order is kept, every embedded event becomes a card at its first mention, nothing visible is lost and no run is blank. |
| `Segments.OneCardEach` | packages/timeline-embed/src/lib/note-embeds.ts:187-215 | The cards are exactly the embedded events the note mentions, once each. |
| `Segments.SelectedAreAllPlaced` | packages/timeline-embed/src/lib/note-embeds.ts:106-215 | Every selected reference gets its card. |
| `SegmentLaws.SelectedAre` | packages/timeline-embed/src/lib/note-embeds.ts:106-128 | Selected are entities that name an event, each event once, in the order of their first mention: at most ten in a note, two in a quoted one, none from the fifth level down. |
| `SegmentLaws.PassedOverOnlyWhenFull` | packages/timeline-embed/src/lib/note-embeds.ts:113-126 | A reference is passed over only when the cap is spent on references mentioned before it. |
| `SegmentLaws.SeenOnce` | packages/timeline-embed/src/lib/note-embeds.ts:200-211 | Part by part everything is seen as written, except a quotation that has its card further up. |
| `SegmentLaws.CardExactlyWhen` | packages/timeline-embed/src/lib/note-embeds.ts:200-209 | An event has a card exactly when it is embedded and the note mentions it, and every card is a part of the note. |
| `SegmentLaws.OneCardPerEvent` | packages/timeline-embed/src/lib/note-embeds.ts:200-209 | No event has two cards. |
| `SegmentLaws.RunsShowSomething` | packages/timeline-embed/src/lib/note-embeds.ts:156-198 | Every piece of text shows a character, a link, an attachment or an entity without a card. |
| `SegmentMedia.MediaParts` | packages/timeline-embed/src/lib/content-parts.ts:505-516 | Each URL once, at its first mention. |
| `SegmentMedia.SegmentMedia` | packages/timeline-embed/src/lib/note-embeds.ts:242-256 | Each segment's list is its own URLs at their first mention, less those of the segments before it; together the lists hold every attached URL once. |
| `SegmentMedia.UrlGoesToFirst` | packages/timeline-embed/src/lib/note-embeds.ts:242-256 | A URL is in a segment's list if and only if that segment is the first one to write it. |
| `SegmentLaws.ShownUnderTheFirst` | packages/timeline-embed/src/lib/note-embeds.ts:242-256 | An attachment is listed under the first piece of text that writes its URL, and there alone. |
| `SegmentLaws.ShownInOrder` | packages/timeline-embed/src/lib/note-embeds.ts:242-256 | Under one piece each URL is listed once, in the order the piece first writes them. |

## Left out

- ReplyResult.BuildReplyTree: requires that the root does not hang below itself, because for such a root the source does not return; see `ReplyResult.BuilderEnds`.
- ReplyTree.Descendants: requires the same of its key, for the same reason.
- ReplyIndex.GroupByParent: `findParent` in `event-refs.ts` is not modelled; a reply carries the parent id and coordinate its tags name.
- Eviction.CacheTable.EnforceLimit: takes the strategy's index as an argument; how IndexedDB and SQLite keep their indexes is not modelled, nor are fractional or NaN sizes.
- Eviction.EventsTable.EnforceLimit: takes the table in `ORDER BY` order as an argument; statements are applied one after the other, as in the source's transaction.
- StorageObject.EventTable.HandleEvent: validation, storage failures, the `validated` flag, `cached_at` and subscription matching are not modelled, nor is interleaving of two events at one coordinate, a race the source documents.
- EventStore.StoreHoldsRetained: runs without deletion requests, since the source does not refuse an event that arrives again after its deletion; the event's effect is in `StorageObject.EventTable.HandleEvent`.
- Deletion.ParseDeletionRequest: tags are lists of strings; the tolerance for malformed tag arrays and the log of dropped references are not modelled.
- Deletion.DeletesExactlyTheNamed: one direction only beyond a thousand distinct references of a type, where the source drops the excess.
- CoordinatorTheorems.RedeliveredOnlyIfPushedOut: says nothing of an id that enters the set by a local broadcast while its own ingest is awaited, because the source does not check again after the ingest.
- CoordinatorObject.UpstreamCoordinator.OpenForSubscription: subscription objects are named by the number in their upstream id and kept in a map rather than as separate heap objects; client and subscription id are a pair, which equals the source's joined key for client ids without `:`.
- CoordinatorObject.UpstreamCoordinator.CloseAllForClient: requires the routes to be one to one, which `CoordinatorObject.RunsAreOneToOne` derives for every reachable state.
- CoordinatorObject.UpstreamCoordinator.Stop: the pool's own shutdown is a step of the pool's machine.
- PoolObject.UpstreamRelayPool.HandleConnectionState: requires different ids to wait on different sets, which `PoolObject.RunsKeepIdsApart` derives for every reachable state; the EOSE callback does not call back into the pool, as the coordinator's never does; timers that re-arm a failed relay are not modelled.
- PoolObject.UpstreamRelayPool.OpenSubscription: the connected relays are an argument; pending sets are named by the opening that made them, which is what the source's identity comparison tells apart.
- RelayHostRuns.StepKeepsInv: restoring the global and the rest of a teardown are separate steps, as are patching and the rest of a start, so the model allows more interleavings than one JavaScript turn does; other scripts replacing the global are not modelled.
- Bech32.DecodeBech32: strings are sequences of 16-bit code units other than surrogates; what `toLowerCase` and `toUpperCase` do outside ASCII is an argument.
- Nip19.NaddrRoundTrip: identifiers are bytes; UTF-8 decoding is not modelled.
- ContentScan.ParseContent: the regular expression's matches, URL parsing and entity decoding are arguments; bidi stripping happens before.
- Lifting.LiftParts: the parts to lift are given by the two rules the source uses, media and embedded keys, which never lift text.
- ReqHandling.AnswerReq: one step; a CLOSE during the storage read, the subscription limit and malformed messages are not modelled.
- Narrowing.NarrowFiltersByFreshness: coordinate keys are pairs, which equals the joined key since a printed kind has no colon.
- Timeline.FoldIsSortedCut: caps are natural numbers.
- Signature verification, hashing, sockets, rx-nostr, IndexedDB, `node:sqlite`, timers as real time, logging, rendering and configuration parsing are not part of this model.
- Validation states, TTL expiry, access tracking, metrics and publishing to upstream relays would add only easy members.
